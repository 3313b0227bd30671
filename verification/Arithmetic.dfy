/** Remainders and powers used by the byte-level modules. */
module Arithmetic {
  const U64_LIMIT: nat := 0x1_0000_0000_0000_0000

  function Pow256(k: nat): nat { if k == 0 then 1 else 256 * Pow256(k - 1) }

  lemma {:induction false} MultiplesAreFar(m: int, t: int)
    requires m > 0
    ensures t >= 1 ==> m * t >= m
    ensures t <= -1 ==> m * t <= -m
  {}

  /** Numbers that differ by a multiple of `m` have the same remainder. */
  lemma {:induction false} SameRemainder(a: int, b: int, m: int, q: int)
    requires m > 0 && a - b == m * q
    ensures a % m == b % m
  {
    var t := q - a / m + b / m;
    assert a % m - b % m == m * t by {
      assert a == m * (a / m) + a % m && b == m * (b / m) + b % m;
      assert m * t == m * q - m * (a / m) + m * (b / m);
    }
    MultiplesAreFar(m, t);
  }

  lemma {:induction false} SmallRemainder(v: int, m: int)
    requires 0 <= v < m
    ensures v % m == v
  {}
}
