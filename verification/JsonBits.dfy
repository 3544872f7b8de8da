/** pow2gt of code/json/cjson/cJSON.c: five shifts and bitwise ors find the size of a buffer. */
module JsonBits {
  function Pow2(n: nat): (p: nat)
    ensures p > 0
  {
    if n == 0 then 1 else 2 * Pow2(n - 1)
  }

  /** Bit `i` of a number. */
  predicate Bit(x: nat, i: nat) { if i == 0 then x % 2 == 1 else Bit(x / 2, i - 1) }

  /** `a | b`, bit by bit. */
  function Or(a: nat, b: nat): nat {
    if a == 0 && b == 0 then 0 else 2 * Or(a / 2, b / 2) + if a % 2 == 1 || b % 2 == 1 then 1 else 0
  }

  /** `x >> k`. */
  function Shr(x: nat, k: nat): nat { if k == 0 then x else Shr(x / 2, k - 1) }

  /** The least power of two that is not below `x`. */
  function PowerAbove(x: int): (r: int)
    requires 0 < x
    ensures x <= r && r / 2 < x
  {
    if x == 1 then 1 else 2 * PowerAbove((x + 1) / 2)
  }

  // ---- bits ------------------------------------------------------------------------------

  lemma {:induction false} OrBit(a: nat, b: nat, i: nat)
    ensures Bit(Or(a, b), i) <==> Bit(a, i) || Bit(b, i)
    decreases i
  {
    OrParts(a, b);
    hide Or;
    if i > 0 { OrBit(a / 2, b / 2, i - 1); }
  }

  lemma OrParts(a: nat, b: nat)
    ensures Or(a, b) / 2 == Or(a / 2, b / 2) && (Or(a, b) % 2 == 1 <==> a % 2 == 1 || b % 2 == 1)
  {}

  lemma {:induction false} ShrBit(x: nat, k: nat, i: nat)
    ensures Bit(Shr(x, k), i) <==> Bit(x, i + k)
    decreases k
  {
    if k > 0 { ShrBit(x / 2, k - 1, i); }
  }

  lemma {:induction false} OrBelow(a: nat, b: nat, n: nat)
    requires a < Pow2(n) && b < Pow2(n)
    ensures Or(a, b) < Pow2(n)
    decreases n
  {
    if n > 0 { OrBelow(a / 2, b / 2, n - 1); }
  }

  lemma {:induction false} ShrBelow(x: nat, k: nat)
    ensures Shr(x, k) <= x
    decreases k
  {
    if k > 0 { ShrBelow(x / 2, k - 1); }
  }

  lemma {:induction false} AllOnes(x: nat, n: nat)
    requires x < Pow2(n) && forall i :: 0 <= i < n ==> Bit(x, i)
    ensures x == Pow2(n) - 1
    decreases n
  {
    if n > 0 {
      forall i | 0 <= i < n - 1 ensures Bit(x / 2, i) { assert Bit(x, i + 1); }
      AllOnes(x / 2, n - 1);
      assert Bit(x, 0);
    }
  }

  // ---- smearing ----------------------------------------------------------------------------

  /** Of the `n` bits of `x` the highest `k` are ones. */
  ghost predicate TopOnes(x: nat, n: nat, k: nat) {
    x < Pow2(n) && forall i :: 0 <= i < n <= i + k ==> Bit(x, i)
  }

  /** One step doubles the number of leading ones. */
  lemma Smear(x: nat, n: nat, k: nat)
    requires TopOnes(x, n, k)
    ensures TopOnes(Or(x, Shr(x, k)), n, 2 * k)
  {
    ShrBelow(x, k);
    OrBelow(x, Shr(x, k), n);
    forall i | 0 <= i < n <= i + 2 * k ensures Bit(Or(x, Shr(x, k)), i) {
      OrBit(x, Shr(x, k), i);
      ShrBit(x, k, i);
    }
  }

  /** The number of bits of a number, whose highest one is a one. */
  lemma {:induction false} Highest(x: nat) returns (n: nat)
    ensures TopOnes(x, n, 1) && (n > 0 ==> Pow2(n - 1) <= x)
    decreases x
  {
    n := 0;
    if x > 0 {
      n := Highest(x / 2);
      if n > 0 { assert Bit(x / 2, n - 1); }
      n := n + 1;
    }
  }

  lemma {:induction false} Within(n: nat, m: nat)
    requires n <= m
    ensures Pow2(n) <= Pow2(m)
    decreases m
  {
    if n < m { Within(n, m - 1); }
  }

  /** Between two powers of two. */
  lemma {:induction false} PowerAboveIs(x: int, n: nat)
    requires 0 < x <= Pow2(n) && (n > 0 ==> Pow2(n - 1) < x)
    ensures PowerAbove(x) == Pow2(n)
    decreases n
  {
    if n > 0 { PowerAboveIs((x + 1) / 2, n - 1); }
  }

  /** pow2gt, for sizes up to the largest power of two that is an int. */
  method Pow2Gt(x0: int) returns (r: int)
    requires 0 < x0 <= 0x4000_0000
    ensures r == PowerAbove(x0)
  {
    var x: nat := x0 - 1;
    ghost var n := Highest(x);
    Small(x, n);
    Smear(x, n, 1);
    x := Or(x, Shr(x, 1));
    Smear(x, n, 2);
    x := Or(x, Shr(x, 2));
    Smear(x, n, 4);
    x := Or(x, Shr(x, 4));
    Smear(x, n, 8);
    x := Or(x, Shr(x, 8));
    Smear(x, n, 16);
    x := Or(x, Shr(x, 16));
    AllOnes(x, n);
    PowerAboveIs(x0, n);
    r := x + 1;
  }

  lemma Small(x: nat, n: nat)
    requires x < 0x4000_0000 && (n > 0 ==> Pow2(n - 1) <= x)
    ensures n <= 32
  {
    Within30();
    if n > 31 { Within(30, n - 1); }
  }

  lemma Within30()
    ensures Pow2(30) == 0x4000_0000
  {
    assert Pow2(10) == 1024;
    assert Pow2(20) == 1024 * 1024;
  }
}
