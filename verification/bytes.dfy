/** What goes over wires and into streams. */
module Bytes {
  type byte = b: int | 0 <= b < 256
}
