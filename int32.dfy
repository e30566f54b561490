/** Go's 32-bit signed integers, the type of every integer field of the four modelled handlers' requests and responses. */
module Int32 {
  const Min: int := -0x8000_0000
  const Max: int := 0x7fff_ffff
  const Modulus: int := 0x1_0000_0000

  newtype int32 = x: int | -0x8000_0000 <= x < 0x8000_0000

  predicate InRange(x: int) {
    Min <= x <= Max
  }

  /** The value Go's two's-complement arithmetic stores for the mathematical result `x`. */
  function Wrap(x: int): (r: int32)
    ensures InRange(x) <==> r as int == x
    ensures (x - r as int) % Modulus == 0
  {
    var q := (x - Min) / Modulus;
    assert x - Min == q * Modulus + (x - Min) % Modulus;
    ((x - Min) % Modulus + Min) as int32
  }

  /** The values of a stream of int32 messages, as mathematical integers. */
  function AsInts(s: seq<int32>): seq<int> {
    seq(|s|, i requires 0 <= i < |s| => s[i] as int)
  }
}
