/** Remainders by a variable modulus. */
module Modular {

  lemma MulBound(d: int, a: int)
    requires a > 0
    ensures d > 0 ==> d * a >= a
    ensures d < 0 ==> d * a <= -a
  {}

  lemma ModUnique(x: int, a: int, q: int, r: int)
    requires a > 0 && 0 <= r < a && x == q * a + r
    ensures x % a == r
  {
    var d := x / a - q;
    assert d * a == r - x % a;
    MulBound(d, a);
  }

  lemma ModAdd(t: int, a: int, e: int)
    requires a > 0 && 0 <= e <= a
    ensures (t + e) % a == if t % a + e < a then t % a + e else t % a + e - a
  {
    var q, r := t / a, t % a;
    if r + e < a {
      ModUnique(t + e, a, q, r + e);
    } else {
      assert t + e == (q + 1) * a + (r + e - a);
      ModUnique(t + e, a, q + 1, r + e - a);
    }
  }

  lemma ModMultiple(t: int, a: int, k: int)
    requires a > 0
    ensures (t + k * a) % a == t % a
  {
    var q := t / a;
    assert t + k * a == (q + k) * a + t % a;
    ModUnique(t + k * a, a, q + k, t % a);
  }

  lemma SameResidue(x: int, y: int, a: int) returns (k: int)
    requires a > 0 && x % a == y % a
    ensures y == x + k * a
  {
    k := y / a - x / a;
  }

  lemma ModOfMod(t: int, a: int, k: int)
    requires a > 0 && k > 0
    ensures k * a > 0 && (t % (k * a)) % a == t % a
  {
    var n := k * a;
    assert n > 0;
    var q, r := t / n, t % n;
    assert t == r + (q * k) * a;
    ModMultiple(r, a, q * k);
  }
}
