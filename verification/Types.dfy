/** Machine-level values shared by the storage engine and the network codec. */
module Types {

  type byte = x: int | 0 <= x < 256

  const TWO_63: int := 0x8000_0000_0000_0000
  const TWO_64: int := 0x1_0000_0000_0000_0000

  type i64 = x: int | -0x8000_0000_0000_0000 <= x < 0x8000_0000_0000_0000
  type u64 = x: int | 0 <= x < 0x1_0000_0000_0000_0000

  /** A byte string whose length fits the 64-bit length prefix of the log format. */
  type Bytes = s: seq<byte> | |s| < 0x1_0000_0000_0000_0000

  datatype Option<+T> = None | Some(value: T)

  /** Two's complement: the i64 held by the low 64 bits of any integer. */
  function Wrap64(x: int): (r: i64)
    ensures exists k: int :: r == x + k * TWO_64
  {
    var m := x % TWO_64;
    if m < TWO_63 then
      assert m == x + (-(x / TWO_64)) * TWO_64;
      m
    else
      assert m - TWO_64 == x + (-(x / TWO_64) - 1) * TWO_64;
      m - TWO_64
  }

  predicate InI64(x: int) {
    -TWO_63 <= x < TWO_63
  }
}
