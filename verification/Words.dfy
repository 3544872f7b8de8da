/** Machine words as integers. */
module Words {
  const MOD := 0x1_0000_0000
  const HALF := 0x8000_0000

  type u8 = x: int | 0 <= x < 0x100
  type u16 = x: int | 0 <= x < 0x1_0000
  type u32 = x: int | 0 <= x < MOD

  /** Conversion of an integer to a 32-bit unsigned word. */
  function U32(x: int): u32 { x % MOD }

  /** Conversion of an integer to a 32-bit signed word. */
  function S32(x: int): int {
    if U32(x) < HALF then U32(x) else U32(x) - MOD
  }

  // ---- words of sums ------------------------------------------------------------

  lemma InWord(x: int)
    requires 0 <= x < MOD
    ensures U32(x) == x
  {}

  lemma WordPlus(a: int, b: int)
    ensures U32(U32(a) + b) == U32(a + b)
  {
    var q, q', p := (U32(a) + b) / MOD, (a + b) / MOD, a / MOD;
    assert U32(a) + b == q * MOD + U32(U32(a) + b) && a == p * MOD + U32(a);
    assert a + b == q' * MOD + U32(a + b);
    assert (p + q - q') * MOD == U32(a + b) - U32(U32(a) + b);
    assert p + q == q';
  }

  lemma Turns(x: int)
    ensures x == S32(x) + (x - S32(x)) / MOD * MOD
  {
    assert x == x / MOD * MOD + U32(x);
  }

  lemma SignedIs(x: int, v: int, q: int)
    requires x == v + q * MOD && -HALF <= v < HALF
    ensures S32(x) == v
  {}
}
