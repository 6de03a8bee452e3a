/** The values the Squirrel runtime stores in tables, reference tables and function prototypes. */
module Objects {

  /**
   * A string stands for its contents, because the runtime interns strings. A reference is a type tag and an address.
   */
  datatype SQObject =
    | Null
    | Bool(b: bool)
    | Integer(i: int)
    | Float(bits: int)
    | String(chars: string)
    | Ref(kind: nat, address: nat)

  /** HashObj: any function of the object will do; a bucket is its value modulo the table size. */
  type HashFunction = SQObject -> nat

  function HomeOf(hash: HashFunction, o: SQObject, size: nat): (home: nat)
    requires size > 0
    ensures home < size
  {
    hash(o) % size
  }

  ghost predicate IsPowerOfTwo(n: nat) {
    n == 1 || (n > 1 && n % 2 == 0 && IsPowerOfTwo(n / 2))
  }
}
