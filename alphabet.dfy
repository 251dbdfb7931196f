/**
 * Arithmetic on the alphabet `[0, 2^width)` of a wavelet tree: powers of two,
 * the bits of a value, and the dyadic intervals the tree halves layer by layer.
 */
module Alphabet {

  function Pow2(k: nat): (r: nat)
    ensures r >= 1
  {
    if k == 0 then 1 else 2 * Pow2(k - 1)
  }

  lemma {:induction false} Pow2Add(a: nat, b: nat)
    ensures Pow2(a + b) == Pow2(a) * Pow2(b)
    decreases a
  {
    if a != 0 {
      Pow2Add(a - 1, b);
      assert Pow2(a + b) == 2 * Pow2(a - 1 + b);
    }
  }

  lemma MulLe(x: nat, y: nat, m: nat)
    requires x <= y
    ensures x * m <= y * m
  {
    assert y * m == x * m + (y - x) * m;
  }

  lemma MulSucc(a: nat, n: nat)
    ensures (a + 1) * n == a * n + n
  {
  }

  lemma MulLtStep(x: nat, y: nat, m: nat)
    requires x < y
    ensures x * m + m <= y * m
  {
    MulLe(x + 1, y, m);
    assert (x + 1) * m == x * m + m;
  }

  /** Division determined by bounds: if `q * m <= c < (q + 1) * m` then `c / m == q`. */
  lemma DivUnique(c: nat, m: nat, q: nat)
    requires m > 0 && q * m <= c < q * m + m
    ensures c / m == q
  {
    var d := c / m;
    assert c == d * m + c % m;
    if d < q {
      MulLtStep(d, q, m);
    } else if d > q {
      MulLtStep(q, d, m);
    }
  }

  /** An exact division multiplies back. */
  lemma DivExact(a: nat, m: nat)
    requires m > 0 && a % m == 0
    ensures a / m * m == a
  {
    assert a == a / m * m + a % m;
  }

  lemma Pow2Div(width: nat, layer: nat)
    requires layer <= width
    ensures Pow2(width) / Pow2(layer) == Pow2(width - layer)
    ensures Pow2(width) == Pow2(layer) * Pow2(width - layer)
  {
    Pow2Add(layer, width - layer);
    assert Pow2(width) == Pow2(width - layer) * Pow2(layer);
    DivUnique(Pow2(width), Pow2(layer), Pow2(width - layer));
  }

  /** Bit `k` of `x`, counting from the least significant. */
  predicate Bit(x: nat, k: nat)
  {
    (x / Pow2(k)) % 2 == 1
  }

  /** Every value of `xs` is below `bound`. */
  predicate AllBelow(xs: seq<nat>, bound: nat)
  {
    forall i :: 0 <= i < |xs| ==> xs[i] < bound
  }

  lemma AllBelowAt(xs: seq<nat>, bound: nat, p: nat)
    requires AllBelow(xs, bound) && p < |xs|
    ensures xs[p] < bound
  {
  }

  /** The value a descent for `e` ends at: `e` itself inside the alphabet, the largest symbol above it. */
  function Clamp(e: nat, width: nat): (c: nat)
    ensures c < Pow2(width)
    ensures e < Pow2(width) ==> c == e
  {
    if e < Pow2(width) then e else Pow2(width) - 1
  }

  /** `c / m` is the number of whole blocks of `m` below `c`. */
  lemma DivBounds(c: nat, m: nat)
    requires m > 0
    ensures c / m * m <= c < c / m * m + m
  {
    assert c == c / m * m + c % m;
  }

  /** Within the block `[2qm, 2qm + 2m)`, `c / m` is `2q` or `2q + 1`, depending on the half `c` is in. */
  lemma HalfBlock(c: nat, m: nat, q: nat)
    requires m > 0 && q == c / (2 * m)
    ensures q * (2 * m) <= c < q * (2 * m) + 2 * m
    ensures (c / m) % 2 == 1 <==> c >= q * (2 * m) + m
    ensures c / m * m == (if c >= q * (2 * m) + m then q * (2 * m) + m else q * (2 * m))
  {
    var lo := q * (2 * m);
    assert c == lo + c % (2 * m);
    assert lo == (2 * q) * m;
    assert (2 * q + 1) * m == lo + m;
    if c >= lo + m {
      DivUnique(c, m, 2 * q + 1);
    } else {
      DivUnique(c, m, 2 * q);
    }
  }

  /**
   * The interval of the alphabet `[0, 2^width)` that a descent towards `c`
   * has reached after `depth` layers: start from the whole alphabet and keep
   * the half, split at the midpoint, that holds `c`.
   */
  function Interval(c: nat, width: nat, depth: nat): (r: (int, int))
    requires depth <= width
  {
    if depth == 0 then (0, Pow2(width))
    else
      var (lo, hi) := Interval(c, width, depth - 1);
      var mid := (lo + hi) / 2;
      if c >= mid then (mid, hi) else (lo, mid)
  }

  /** The interval at depth `depth` holds `c`, spans `2^(width - depth)` values and lies inside the alphabet. */
  lemma {:induction false} IntervalBounds(c: nat, width: nat, depth: nat)
    requires c < Pow2(width) && depth <= width
    ensures var (lo, hi) := Interval(c, width, depth);
            && 0 <= lo <= c < hi <= Pow2(width)
            && hi - lo == Pow2(width - depth)
    decreases depth
  {
    if depth != 0 {
      IntervalBounds(c, width, depth - 1);
      assert Pow2(width - (depth - 1)) == 2 * Pow2(width - depth);
    }
  }

  /** The interval at depth `depth` is the aligned block of `2^(width - depth)` values that holds `c`. */
  lemma {:induction false} IntervalAligned(c: nat, width: nat, depth: nat)
    requires c < Pow2(width) && depth <= width
    ensures Interval(c, width, depth).0 == c / Pow2(width - depth) * Pow2(width - depth)
    decreases depth
  {
    if depth == 0 {
      DivUnique(c, Pow2(width), 0);
    } else {
      IntervalAligned(c, width, depth - 1);
      IntervalBounds(c, width, depth - 1);
      var m := Pow2(width - depth);
      assert Pow2(width - (depth - 1)) == 2 * m;
      HalfBlock(c, m, c / (2 * m));
    }
  }

  /** The next interval of a descent is the half of the current one that holds `c`. */
  lemma IntervalNext(c: nat, width: nat, depth: nat)
    requires c < Pow2(width) && depth < width
    ensures var (lo, hi) := Interval(c, width, depth);
            var mid := (lo + hi) / 2;
            && lo <= mid <= hi
            && lo <= c < hi
            && Interval(c, width, depth + 1) == (if c >= mid then (mid, hi) else (lo, mid))
  {
    IntervalBounds(c, width, depth);
  }

  /**
   * Going one layer down halves the interval at its midpoint, and `c` lies in
   * the upper half exactly when bit `width - 1 - depth` of `c` is set.
   */
  lemma IntervalHalving(c: nat, width: nat, depth: nat)
    requires c < Pow2(width) && depth < width
    ensures var (lo, hi) := Interval(c, width, depth);
            var mid := (lo + hi) / 2;
            && lo <= c < hi
            && mid == lo + Pow2(width - depth - 1) == hi - Pow2(width - depth - 1)
            && Interval(c, width, depth + 1) == (if c >= mid then (mid, hi) else (lo, mid))
            && Bit(c, width - 1 - depth) == (c >= mid)
  {
    var m := Pow2(width - depth - 1);
    IntervalBounds(c, width, depth);
    IntervalAligned(c, width, depth);
    assert Pow2(width - depth) == 2 * m;
    assert width - 1 - depth == width - depth - 1;
    HalfBlock(c, m, c / (2 * m));
  }

  /** The side of the midpoint of its depth-`depth` interval that `c` lies on: `true` for the upper half. */
  function Side(c: nat, width: nat, depth: nat): bool
    requires depth < width
  {
    var (lo, hi) := Interval(c, width, depth);
    c >= (lo + hi) / 2
  }

  /** The sides a descent towards `c` takes are the bits of `c`, most significant first. */
  lemma SideIsBit(c: nat, width: nat, depth: nat)
    requires c < Pow2(width) && depth < width
    ensures Side(c, width, depth) == Bit(c, width - 1 - depth)
  {
    IntervalHalving(c, width, depth);
  }

  /** The descent ends at the single value `c`. */
  lemma IntervalLeaf(c: nat, width: nat)
    requires c < Pow2(width)
    ensures Interval(c, width, width) == (c, c + 1)
  {
    IntervalBounds(c, width, width);
  }

  /**
   * Descending towards `e` or towards its clamp `Clamp(e, width)` takes the
   * same side at every layer: a value past the alphabet always goes up.
   */
  lemma ClampStep(e: nat, width: nat, depth: nat)
    requires depth < width
    ensures var (lo, hi) := Interval(Clamp(e, width), width, depth);
            (e >= (lo + hi) / 2) == (Clamp(e, width) >= (lo + hi) / 2)
  {
    IntervalBounds(Clamp(e, width), width, depth);
  }

  /**
   * One layer of a lookup of `e`: the interval reached so far, split at its
   * midpoint `lo + 2^(width - depth - 1)`; `e` lies above the midpoint
   * exactly when its clamp does, which is when bit `width - 1 - depth` of the
   * clamp is set, and the descent goes on in that half.
   */
  lemma ClampHalving(e: nat, width: nat, depth: nat)
    requires depth < width
    ensures var c := Clamp(e, width);
            var (lo, hi) := Interval(c, width, depth);
            var mid := (lo + hi) / 2;
            && 0 <= lo <= c < hi <= Pow2(width)
            && mid == lo + Pow2(width - depth - 1) == hi - Pow2(width - depth - 1)
            && (e >= mid) == (c >= mid) == Bit(c, width - 1 - depth)
            && Interval(c, width, depth + 1) == (if e >= mid then (mid, hi) else (lo, mid))
  {
    ClampStep(e, width, depth);
    IntervalBounds(Clamp(e, width), width, depth);
    IntervalHalving(Clamp(e, width), width, depth);
  }
}
