/**
 64-bit unsigned words: addition wraps.
 */
module Words {
  const U64: nat := 0x1_0000_0000_0000_0000

  type u64 = v: int | 0 <= v < 0x1_0000_0000_0000_0000

  function Add64(a: nat, b: nat): (r: nat)
    ensures a < U64 && b < U64 ==> r < U64
  {
    if a + b < U64 then a + b else a + b - U64
  }

  function Min(a: nat, b: nat): (r: nat)
    ensures r == a || r == b
  {
    if a <= b then a else b
  }

  function Max(a: nat, b: nat): (r: nat)
    ensures r == a || r == b
  {
    if a < b then b else a
  }
}
