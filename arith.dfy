/** Euclidean division facts shared by the grid and index arithmetic. */
module Arith {
  /** Division by `w` undoes `q * w + m` for a remainder `m` in `[0, w)`. */
  lemma DivMod(q: int, m: int, w: int)
    requires w > 0 && q >= 0 && 0 <= m < w
    ensures (q * w + m) % w == m && (q * w + m) / w == q
  {
    var x := q * w + m;
    var d, r := x / w, x % w;
    assert x == d * w + r && 0 <= r < w;
    assert (d - q) * w == m - r;
    if d - q >= 1 {
      assert false;
    } else if d - q <= -1 {
      assert false;
    }
  }

  /** Adding a multiple of `w` leaves the remainder unchanged. */
  lemma ModShift(n: int, q: nat, t: nat, w: int)
    requires w > 0 && n == q * w
    ensures (n + t) % w == t % w
  {
    var d := t / w;
    assert t == d * w + t % w;
    assert n + t == (q + d) * w + t % w;
    DivMod(q + d, t % w, w);
  }
  /** Multiplying by a non-negative factor keeps an order. */
  lemma MulMonotone(a: int, b: int, c: int)
    requires a >= b && c >= 0
    ensures a * c >= b * c
  {
    assert a * c - b * c == (a - b) * c;
  }

  /** Every natural number is its quotient times `w` plus its remainder. */
  lemma DivModSplit(i: nat, w: int)
    requires w > 0
    ensures i == (i / w) * w + i % w && i / w >= 0 && 0 <= i % w < w
  {
  }
}
