// The machine-level vocabulary shared by every module: bytes, the widths of
// the C integer types, the driver's constants and a plain Option type.
module Words {

  newtype byte = x: int | 0 <= x < 256

  const NEWLINE: byte := 10

  // KMALLOC_MAX_SIZE, the size of the working entry, as given in the comment
  // at aesd-char-driver/main.c:27.
  const ENTRY_LIMIT: nat := 4194304

  const TWO_TO_32: int := 0x1_0000_0000
  const TWO_TO_63: int := 0x8000_0000_0000_0000
  const TWO_TO_64: int := 0x1_0000_0000_0000_0000

  datatype Option<+T> = None | Some(value: T)

  ghost function Elements<T>(xs: seq<T>): set<T> {
    set x | x in xs
  }

  // A value converted to `unsigned int`.
  function Unsigned32(x: int): (r: nat)
    ensures 0 <= x < TWO_TO_32 ==> r == x
    ensures r < TWO_TO_32
  {
    x % TWO_TO_32
  }

  // A value converted to `size_t`.
  function Unsigned64(x: int): (r: nat)
    ensures 0 <= x < TWO_TO_64 ==> r == x
    ensures r < TWO_TO_64
  {
    x % TWO_TO_64
  }

  // A value converted to `ssize_t` or `loff_t`: two's complement.
  function Signed64(x: int): (r: int)
    ensures -TWO_TO_63 <= x < TWO_TO_63 ==> r == x
    ensures -TWO_TO_63 <= r < TWO_TO_63
  {
    var u := x % TWO_TO_64;
    if u < TWO_TO_63 then u else u - TWO_TO_64
  }
}
