/**
 * The bit layout of a wavelet tree, as `build_wavelet_tree` writes it: layer
 * after layer, and within a layer fragment after fragment, each fragment
 * scanning the whole input and emitting one bit per value in its interval.
 */
module Layout {
  import opened Alphabet
  import opened BitIndex

  /** The values of `xs` that lie in `[lo, hi)`, in input order. */
  function Filter(xs: seq<nat>, lo: int, hi: int): (r: seq<nat>)
    ensures |r| <= |xs|
  {
    if xs == [] then []
    else
      var last := xs[|xs| - 1];
      assert xs == xs[..|xs| - 1] + [last];
      Filter(xs[..|xs| - 1], lo, hi) + (if lo <= last < hi then [last] else [])
  }

  /** Filtering keeps exactly the values of `xs` that lie in `[lo, hi)`. */
  lemma {:induction false} FilterMember(xs: seq<nat>, lo: int, hi: int, x: nat)
    ensures x in Filter(xs, lo, hi) <==> x in xs && lo <= x < hi
    decreases |xs|
  {
    if xs != [] {
      var init := xs[..|xs| - 1];
      FilterMember(init, lo, hi, x);
      assert xs == init + [xs[|xs| - 1]];
    }
  }

  /** How many values of `xs` are below `x`. */
  function CountBelow(xs: seq<nat>, x: int): nat
  {
    |Filter(xs, 0, x)|
  }

  lemma {:induction false} FilterAppend(xs: seq<nat>, ys: seq<nat>, lo: int, hi: int)
    ensures Filter(xs + ys, lo, hi) == Filter(xs, lo, hi) + Filter(ys, lo, hi)
    decreases |ys|
  {
    if ys == [] {
      assert xs + ys == xs;
    } else {
      assert (xs + ys)[..|xs + ys| - 1] == xs + ys[..|ys| - 1];
      FilterAppend(xs, ys[..|ys| - 1], lo, hi);
    }
  }

  /** Extending a prefix by one value extends its filter by that value when it is in range. */
  lemma FilterCountStep(xs: seq<nat>, p: nat, lo: int, hi: int)
    requires p < |xs|
    ensures |Filter(xs[..p + 1], lo, hi)| == |Filter(xs[..p], lo, hi)| + (if lo <= xs[p] < hi then 1 else 0)
  {
    FilterPrefixStep(xs, p, lo, hi);
  }

  lemma FilterPrefixStep(xs: seq<nat>, p: nat, lo: int, hi: int)
    requires p < |xs|
    ensures Filter(xs[..p + 1], lo, hi) == Filter(xs[..p], lo, hi) + (if lo <= xs[p] < hi then [xs[p]] else [])
  {
    assert xs[..p + 1][..p] == xs[..p];
  }

  /** How many of the first `p` values of `xs` lie in `[lo, hi)`. */
  function Before(xs: seq<nat>, p: nat, lo: int, hi: int): (r: nat)
    requires p <= |xs|
    ensures r <= p
  {
    if p == 0 then 0 else Before(xs, p - 1, lo, hi) + (if lo <= xs[p - 1] < hi then 1 else 0)
  }

  /** `Before` counts what the filter of the prefix keeps. */
  lemma {:induction false} BeforeFilter(xs: seq<nat>, p: nat, lo: int, hi: int)
    requires p <= |xs|
    ensures Before(xs, p, lo, hi) == |Filter(xs[..p], lo, hi)|
  {
    if p > 0 {
      BeforeFilter(xs, p - 1, lo, hi);
      FilterCountStep(xs, p - 1, lo, hi);
    }
  }

  /** When every value is below `hi`, every value of a prefix lies in `[0, hi)`. */
  lemma {:induction false} BeforeAll(xs: seq<nat>, p: nat, hi: nat)
    requires AllBelow(xs, hi) && p <= |xs|
    ensures Before(xs, p, 0, hi) == p
  {
    if p > 0 {
      BeforeAll(xs, p - 1, hi);
      AllBelowAt(xs, hi, p - 1);
    }
  }

  /** Counting in adjacent intervals adds up. */
  lemma {:induction false} FilterSplit(xs: seq<nat>, a: int, b: int, c: int)
    requires a <= b <= c
    ensures |Filter(xs, a, c)| == |Filter(xs, a, b)| + |Filter(xs, b, c)|
    decreases |xs|
  {
    if xs != [] {
      FilterSplit(xs[..|xs| - 1], a, b, c);
    }
  }

  /** An empty interval selects nothing. */
  lemma FilterEmpty(xs: seq<nat>, lo: int)
    ensures Filter(xs, lo, lo) == []
  {
  }

  /** When every value is below `hi`, filtering `[0, hi)` keeps everything. */
  lemma {:induction false} FilterAll(xs: seq<nat>, hi: nat)
    requires AllBelow(xs, hi)
    ensures Filter(xs, 0, hi) == xs
    decreases |xs|
  {
    if xs != [] {
      FilterAll(xs[..|xs| - 1], hi);
    }
  }

  /** An interval holding a value of `xs` selects at least that value. */
  lemma FilterHas(xs: seq<nat>, lo: int, hi: int, c: nat)
    requires lo <= c < hi && c in xs
    ensures |Filter(xs, lo, hi)| > 0
  {
    FilterMember(xs, lo, hi, c);
    assert Filter(xs, lo, hi) != [];
  }

  /** A value occurs in `xs` exactly when the one-value interval it spans is not empty. */
  lemma FilterOccurs(xs: seq<nat>, c: nat)
    ensures |Filter(xs, c, c + 1)| > 0 <==> c in xs
  {
    var r := Filter(xs, c, c + 1);
    FilterMember(xs, c, c + 1, c);
    if |r| > 0 {
      FilterMember(xs, c, c + 1, r[0]);
      assert r[0] in r;
    }
  }

  /** The positions of `xs` holding `c`, in increasing order. */
  function Positions(xs: seq<nat>, c: nat): (r: seq<nat>)
    ensures |r| == |Filter(xs, c, c + 1)|
    ensures forall k :: 0 <= k < |r| ==> r[k] < |xs| && xs[r[k]] == c
  {
    if xs == [] then []
    else
      var last := |xs| - 1;
      Positions(xs[..last], c) + (if xs[last] == c then [last] else [])
  }

  /** Positions are listed in strictly increasing order. */
  lemma {:induction false} PositionsIncreasing(xs: seq<nat>, c: nat)
    ensures forall i, j :: 0 <= i < j < |Positions(xs, c)| ==> Positions(xs, c)[i] < Positions(xs, c)[j]
    decreases |xs|
  {
    if xs != [] {
      PositionsIncreasing(xs[..|xs| - 1], c);
    }
  }

  /** Every position holding `c` is listed. */
  lemma {:induction false} PositionsComplete(xs: seq<nat>, c: nat, p: nat)
    requires p < |xs| && xs[p] == c
    ensures p in Positions(xs, c)
    decreases |xs|
  {
    var last := |xs| - 1;
    if p < last {
      assert xs[..last][p] == xs[p];
      PositionsComplete(xs[..last], c, p);
    }
  }

  /** The k-th listed position has exactly k occurrences of `c` before it. */
  lemma {:induction false} PositionsRank(xs: seq<nat>, c: nat, k: nat)
    requires k < |Positions(xs, c)|
    ensures |Filter(xs[..Positions(xs, c)[k]], c, c + 1)| == k
    decreases |xs|
  {
    var last := |xs| - 1;
    var init := Positions(xs[..last], c);
    if k < |init| {
      PositionsRank(xs[..last], c, k);
      assert xs[..last][..init[k]] == xs[..init[k]];
    } else {
      assert xs[..last] == xs[..Positions(xs, c)[k]];
    }
  }

  /** The k-th listed position holds `c` and has exactly k occurrences of `c` before it. */
  lemma PositionBefore(xs: seq<nat>, c: nat, k: nat)
    requires k < |Positions(xs, c)|
    ensures Positions(xs, c)[k] < |xs| && xs[Positions(xs, c)[k]] == c
    ensures Before(xs, Positions(xs, c)[k], c, c + 1) == k
  {
    PositionsRank(xs, c, k);
    BeforeFilter(xs, Positions(xs, c)[k], c, c + 1);
  }

  /**
   * The bits one fragment contributes: a scan of `xs` that emits, for each
   * value in `[start, end)`, whether it is at least `mid`.
   */
  function FragmentBits(xs: seq<nat>, start: int, end: int, mid: int): (r: seq<bool>)
    ensures |r| == |Filter(xs, start, end)|
  {
    if xs == [] then []
    else
      var last := xs[|xs| - 1];
      FragmentBits(xs[..|xs| - 1], start, end, mid) + (if start <= last < end then [last >= mid] else [])
  }

  lemma {:induction false} FragmentBitsAppend(xs: seq<nat>, ys: seq<nat>, start: int, end: int, mid: int)
    ensures FragmentBits(xs + ys, start, end, mid) == FragmentBits(xs, start, end, mid) + FragmentBits(ys, start, end, mid)
    decreases |ys|
  {
    if ys == [] {
      assert xs + ys == xs;
    } else {
      assert (xs + ys)[..|xs + ys| - 1] == xs + ys[..|ys| - 1];
      FragmentBitsAppend(xs, ys[..|ys| - 1], start, end, mid);
    }
  }

  /** The bits a prefix of the input contributes are a prefix of the fragment. */
  lemma FragmentBitsPrefix(xs: seq<nat>, p: nat, start: int, end: int, mid: int)
    requires p <= |xs|
    ensures FragmentBits(xs[..p], start, end, mid) <= FragmentBits(xs, start, end, mid)
  {
    assert xs == xs[..p] + xs[p..];
    FragmentBitsAppend(xs[..p], xs[p..], start, end, mid);
  }

  /** A fragment holds one `true` per value in its upper half and one `false` per value in its lower half. */
  lemma {:induction false} FragmentBitsOcc(xs: seq<nat>, start: int, mid: int, end: int)
    requires start <= mid <= end
    ensures Occ(FragmentBits(xs, start, end, mid), true) == |Filter(xs, mid, end)|
    ensures Occ(FragmentBits(xs, start, end, mid), false) == |Filter(xs, start, mid)|
    decreases |xs|
  {
    if xs != [] {
      var init := xs[..|xs| - 1];
      FragmentBitsOcc(init, start, mid, end);
      var f := FragmentBits(xs, start, end, mid);
      var g := FragmentBits(init, start, end, mid);
      var last := xs[|xs| - 1];
      var tail := if start <= last < end then [last >= mid] else [];
      OccConcat(g, tail, true);
      OccConcat(g, tail, false);
    }
  }

  /**
   * `build_wavelet_fragment`: fragment `fragment` of layer `layer` covers the
   * interval `[step * fragment, step * (fragment + 1))` with
   * `step = alphabet / 2^layer`, and splits it at its midpoint.
   */
  function BuildFragment(xs: seq<nat>, alphabet: nat, layer: nat, fragment: nat): seq<bool>
  {
    var step := alphabet / Pow2(layer);
    var start := step * fragment;
    var end := step * (fragment + 1);
    FragmentBits(xs, start, end, (start + end) / 2)
  }

  /** Fragments `first .. first + count` of one layer, in order. */
  function Fragments(xs: seq<nat>, alphabet: nat, layer: nat, first: nat, count: nat): seq<bool>
    decreases count
  {
    if count == 0 then []
    else BuildFragment(xs, alphabet, layer, first) + Fragments(xs, alphabet, layer, first + 1, count - 1)
  }

  /** Layer `layer`: all of its `2^layer` fragments over the alphabet `[0, 2^width)`. */
  function Layer(xs: seq<nat>, width: nat, layer: nat): seq<bool>
  {
    Fragments(xs, Pow2(width), layer, 0, Pow2(layer))
  }

  /** Layers `0 .. layers`, one after another. */
  function BuildLayers(xs: seq<nat>, width: nat, layers: nat): seq<bool>
  {
    if layers == 0 then [] else BuildLayers(xs, width, layers - 1) + Layer(xs, width, layers - 1)
  }

  /** Where layer `layer` starts in the bits of a tree over `n` values: after `layer` layers of `n` bits. */
  function LayerStart(layer: nat, n: nat): nat
  {
    if layer == 0 then 0 else LayerStart(layer - 1, n) + n
  }

  lemma {:induction false} LayerStartIsProduct(layer: nat, n: nat)
    ensures LayerStart(layer, n) == layer * n
  {
    if layer != 0 {
      LayerStartIsProduct(layer - 1, n);
      MulSucc(layer - 1, n);
    }
  }

  /** Each layer ends where the next starts, so a layer before the last ends by the start of the last. */
  lemma {:induction false} LayerStartMonotone(a: nat, b: nat, n: nat)
    requires a <= b
    ensures LayerStart(a, n) <= LayerStart(b, n)
    decreases b - a
  {
    if a < b {
      LayerStartMonotone(a, b - 1, n);
    }
  }

  /** `build_wavelet_tree`: the bits of a tree over `xs` with `width` layers. */
  function Build(xs: seq<nat>, width: nat): seq<bool>
  {
    BuildLayers(xs, width, width)
  }

  /**
   * `bits` are the bits `build_wavelet_tree` writes for `xs`. Stated through
   * a quantifier over the layer count so that the definition of `Build` is
   * unfolded only where a proof itself mentions `Build(xs, width)`.
   */
  ghost predicate IsBuild(bits: seq<bool>, xs: seq<nat>, width: nat)
  {
    forall w :: w == width ==> bits == Build(xs, w)
  }

  /**
   * The same fragments, listed by halving: the `2^depth` fragments of
   * `[lo, hi)` are those of its lower half followed by those of its upper half.
   */
  function Split(xs: seq<nat>, lo: int, hi: int, depth: nat): seq<bool>
    decreases depth
  {
    if depth == 0 then FragmentBits(xs, lo, hi, (lo + hi) / 2)
    else
      var mid := (lo + hi) / 2;
      Split(xs, lo, mid, depth - 1) + Split(xs, mid, hi, depth - 1)
  }

  lemma {:induction false} FragmentsConcat(xs: seq<nat>, alphabet: nat, layer: nat, first: nat, a: nat, b: nat)
    ensures Fragments(xs, alphabet, layer, first, a + b)
            == Fragments(xs, alphabet, layer, first, a) + Fragments(xs, alphabet, layer, first + a, b)
    decreases a
  {
    if a != 0 {
      FragmentsConcat(xs, alphabet, layer, first + 1, a - 1, b);
    }
  }

  lemma Distrib(s: int, a: int, b: int)
    ensures s * (a + b) == s * a + s * b
  {
  }

  /** `2^depth` consecutive fragments of width `step` form the halving of the interval they cover. */
  lemma {:induction false} FragmentsAreSplit(xs: seq<nat>, alphabet: nat, layer: nat, first: nat, depth: nat, lo: int, hi: int)
    requires lo == alphabet / Pow2(layer) * first
    requires hi == alphabet / Pow2(layer) * (first + Pow2(depth))
    ensures Fragments(xs, alphabet, layer, first, Pow2(depth)) == Split(xs, lo, hi, depth)
    decreases depth
  {
    var step := alphabet / Pow2(layer);
    if depth == 0 {
      assert Fragments(xs, alphabet, layer, first + 1, 0) == [];
    } else {
      var h := Pow2(depth - 1);
      var mid := step * (first + h);
      Distrib(step, first, h);
      Distrib(step, first + h, h);
      assert (lo + hi) / 2 == mid;
      FragmentsConcat(xs, alphabet, layer, first, h, h);
      FragmentsAreSplit(xs, alphabet, layer, first, depth - 1, lo, mid);
      FragmentsAreSplit(xs, alphabet, layer, first + h, depth - 1, mid, hi);
    }
  }

  /** A layer is the halving of the whole alphabet, `layer` times over. */
  lemma LayerIsSplit(xs: seq<nat>, width: nat, layer: nat)
    requires layer <= width
    ensures Layer(xs, width, layer) == Split(xs, 0, Pow2(width), layer)
  {
    Pow2Div(width, layer);
    FragmentsAreSplit(xs, Pow2(width), layer, 0, layer, 0, Pow2(width));
  }

  /** The halving of `[lo, hi)` holds one bit per value in it. */
  lemma {:induction false} SplitLength(xs: seq<nat>, lo: int, hi: int, depth: nat)
    requires lo <= hi
    ensures |Split(xs, lo, hi, depth)| == |Filter(xs, lo, hi)|
    decreases depth
  {
    if depth != 0 {
      var mid := (lo + hi) / 2;
      SplitLength(xs, lo, mid, depth - 1);
      SplitLength(xs, mid, hi, depth - 1);
      FilterSplit(xs, lo, mid, hi);
    }
  }

  lemma ConcatSliceLeft<T>(left: seq<T>, right: seq<T>, off: nat, len: nat)
    requires off + len <= |left|
    ensures (left + right)[off .. off + len] == left[off .. off + len]
  {
    assert (left + right)[off .. off + len] == left[off .. off + len];
  }

  lemma ConcatSliceRight<T>(left: seq<T>, right: seq<T>, off: nat, len: nat)
    requires off + len <= |right|
    ensures (left + right)[|left| + off .. |left| + off + len] == right[off .. off + len]
  {
    assert (left + right)[|left| + off .. |left| + off + len] == right[off .. off + len];
  }

  /**
   * Inside the halving of `[lo, hi)` into `2^more` fragments, the fragment of
   * `[flo, fhi)` starts after one bit per value in `[lo, flo)`.
   */
  ghost predicate FragmentIn(xs: seq<nat>, lo: int, hi: int, more: nat, flo: int, fhi: int)
  {
    var off := |Filter(xs, lo, flo)|;
    var len := |Filter(xs, flo, fhi)|;
    && off + len <= |Split(xs, lo, hi, more)|
    && Split(xs, lo, hi, more)[off .. off + len] == FragmentBits(xs, flo, fhi, (flo + fhi) / 2)
  }

  /** A fragment inside the lower half of `[lo, hi)` keeps its place in the halving of `[lo, hi)`. */
  lemma SplitLeftHalf(xs: seq<nat>, lo: int, hi: int, more: nat, flo: int, fhi: int)
    requires lo <= hi && more > 0
    requires FragmentIn(xs, lo, (lo + hi) / 2, more - 1, flo, fhi)
    ensures FragmentIn(xs, lo, hi, more, flo, fhi)
  {
    var mid := (lo + hi) / 2;
    var left := Split(xs, lo, mid, more - 1);
    var right := Split(xs, mid, hi, more - 1);
    assert Split(xs, lo, hi, more) == left + right;
    ConcatSliceLeft(left, right, |Filter(xs, lo, flo)|, |Filter(xs, flo, fhi)|);
  }

  /** A fragment inside the upper half of `[lo, hi)` comes after the bits of the lower half. */
  lemma SplitRightHalf(xs: seq<nat>, lo: int, hi: int, more: nat, flo: int, fhi: int)
    requires lo <= hi && more > 0 && (lo + hi) / 2 <= flo
    requires FragmentIn(xs, (lo + hi) / 2, hi, more - 1, flo, fhi)
    ensures FragmentIn(xs, lo, hi, more, flo, fhi)
  {
    var mid := (lo + hi) / 2;
    var left := Split(xs, lo, mid, more - 1);
    var right := Split(xs, mid, hi, more - 1);
    assert Split(xs, lo, hi, more) == left + right;
    SplitLength(xs, lo, mid, more - 1);
    FilterSplit(xs, lo, mid, flo);
    ConcatSliceRight(left, right, |Filter(xs, mid, flo)|, |Filter(xs, flo, fhi)|);
  }

  /** The interval reached from `[lo, hi)` by `more` halvings towards `c`. */
  function Toward(c: int, lo: int, hi: int, more: nat): (r: (int, int))
    requires lo <= hi
    ensures lo <= r.0 <= r.1 <= hi
    decreases more
  {
    if more == 0 then (lo, hi)
    else
      var mid := (lo + hi) / 2;
      if c >= mid then Toward(c, mid, hi, more - 1) else Toward(c, lo, mid, more - 1)
  }

  /**
   * Inside the halving of `[lo, hi)`, the fragment reached by `more` halvings
   * towards `c` starts after the values between the two lower bounds.
   */
  lemma {:induction false} SplitToward(xs: seq<nat>, c: int, lo: int, hi: int, more: nat, flo: int, fhi: int)
    requires lo <= hi && (flo, fhi) == Toward(c, lo, hi, more)
    ensures FragmentIn(xs, lo, hi, more, flo, fhi)
    decreases more
  {
    var mid := (lo + hi) / 2;
    if more == 0 {
      FilterEmpty(xs, lo);
      var frag := Split(xs, lo, hi, 0);
      assert frag[0 .. |frag|] == frag;
    } else if c >= mid {
      SplitToward(xs, c, mid, hi, more - 1, flo, fhi);
      SplitRightHalf(xs, lo, hi, more, flo, fhi);
    } else {
      SplitToward(xs, c, lo, mid, more - 1, flo, fhi);
      SplitLeftHalf(xs, lo, hi, more, flo, fhi);
    }
  }

  /** One more halving towards `c` refines the interval reached so far. */
  lemma {:induction false} TowardStep(c: int, lo: int, hi: int, more: nat)
    requires lo <= hi
    ensures var (a, b) := Toward(c, lo, hi, more);
            var mid := (a + b) / 2;
            Toward(c, lo, hi, more + 1) == if c >= mid then (mid, b) else (a, mid)
    decreases more
  {
    if more != 0 {
      var mid := (lo + hi) / 2;
      if c >= mid {
        TowardStep(c, mid, hi, more - 1);
      } else {
        TowardStep(c, lo, mid, more - 1);
      }
    }
  }

  /** The descent of the wavelet tree is the halving of the whole alphabet towards `c`. */
  lemma {:induction false} IntervalToward(c: nat, width: nat, depth: nat)
    requires depth <= width
    ensures Interval(c, width, depth) == Toward(c, 0, Pow2(width), depth)
    decreases depth
  {
    if depth != 0 {
      IntervalToward(c, width, depth - 1);
      TowardStep(c, 0, Pow2(width), depth - 1);
    }
  }

  /** With every value inside the alphabet, each layer holds exactly one bit per value. */
  lemma LayerLength(xs: seq<nat>, width: nat, layer: nat)
    requires layer <= width && AllBelow(xs, Pow2(width))
    ensures |Layer(xs, width, layer)| == |xs|
  {
    LayerIsSplit(xs, width, layer);
    SplitLength(xs, 0, Pow2(width), layer);
    FilterAll(xs, Pow2(width));
  }

  /** `layers` layers of `|xs|` bits each. */
  lemma {:induction false} BuildLayersLength(xs: seq<nat>, width: nat, layers: nat)
    requires layers <= width && AllBelow(xs, Pow2(width))
    ensures |BuildLayers(xs, width, layers)| == LayerStart(layers, |xs|)
    decreases layers
  {
    if layers != 0 {
      BuildLayersLength(xs, width, layers - 1);
      LayerLength(xs, width, layers - 1);
    }
  }

  /** A sequence is its prefix followed by the rest. */
  lemma PrefixRest<T>(a: seq<T>, b: seq<T>)
    requires a <= b
    ensures b == a + b[|a|..]
  {
    assert b[..|a|] == a;
    assert b == b[..|a|] + b[|a|..];
  }

  /** The first layers of a tree are a prefix of its bits. */
  lemma {:induction false} BuildLayersPrefix(xs: seq<nat>, width: nat, layers: nat, more: nat)
    ensures BuildLayers(xs, width, layers) <= BuildLayers(xs, width, layers + more)
    decreases more
  {
    if more != 0 {
      BuildLayersPrefix(xs, width, layers, more - 1);
    }
  }

  lemma SliceOfConcat<T>(a: seq<T>, b: seq<T>, c: seq<T>)
    ensures (a + b + c)[|a| .. |a| + |b|] == b
  {
    assert (a + b + c)[|a| .. |a| + |b|] == b;
  }

  /** Layer `layer` occupies the block of `|xs|` bits that starts after the layers above it. */
  lemma BuildLayerAt(xs: seq<nat>, width: nat, layer: nat)
    requires layer < width && AllBelow(xs, Pow2(width))
    ensures LayerStart(layer, |xs|) + |xs| <= |Build(xs, width)|
    ensures Build(xs, width)[LayerStart(layer, |xs|) .. LayerStart(layer, |xs|) + |xs|] == Layer(xs, width, layer)
  {
    var before := BuildLayers(xs, width, layer);
    var here := Layer(xs, width, layer);
    var upto := BuildLayers(xs, width, layer + 1);
    var all := Build(xs, width);
    BuildLayersLength(xs, width, layer);
    LayerLength(xs, width, layer);
    BuildLayersPrefix(xs, width, layer + 1, width - layer - 1);
    assert upto == before + here;
    PrefixRest(upto, all);
    var rest := all[|upto|..];
    assert all == before + here + rest;
    SliceOfConcat(before, here, rest);
  }

  /** The tree built from `n` values in the alphabet has `n` bits per layer. */
  lemma BuildLength(xs: seq<nat>, width: nat)
    requires AllBelow(xs, Pow2(width))
    ensures |Build(xs, width)| == width * |xs|
  {
    BuildLayersLength(xs, width, width);
    LayerStartIsProduct(width, |xs|);
  }

  lemma SliceOfSlice<T>(s: seq<T>, a: nat, n: nat, i: nat, j: nat)
    requires a + n <= |s| && i <= j <= n
    ensures s[a + i .. a + j] == s[a .. a + n][i .. j]
  {
    var t := s[a .. a + n];
    forall k | 0 <= k < j - i
      ensures s[a + i .. a + j][k] == t[i .. j][k]
    {
      assert t[i .. j][k] == t[i + k] == s[a + i + k];
    }
  }

  lemma PrefixOfSlice<T>(s: seq<T>, a: nat, n: nat, m: nat)
    requires a + n <= |s| && m <= n
    ensures s[a .. a + m] == s[a .. a + n][..m]
  {
  }

  /**
   * The fragment a descent towards `c` visits in layer `layer` sits inside
   * that layer after one bit per value below its interval.
   */
  lemma FragmentInLayer(xs: seq<nat>, width: nat, layer: nat, c: nat, lo: int, hi: int)
    requires layer <= width && (lo, hi) == Interval(c, width, layer)
    ensures CountBelow(xs, lo) + |Filter(xs, lo, hi)| <= |Split(xs, 0, Pow2(width), layer)|
    ensures Split(xs, 0, Pow2(width), layer)[CountBelow(xs, lo) .. CountBelow(xs, lo) + |Filter(xs, lo, hi)|]
            == FragmentBits(xs, lo, hi, (lo + hi) / 2)
  {
    IntervalToward(c, width, layer);
    SplitToward(xs, c, 0, Pow2(width), layer, lo, hi);
    FilterEmpty(xs, 0);
  }

  /** Layer `layer` of the tree, as the halving of the whole alphabet. */
  lemma LayerBlock(xs: seq<nat>, width: nat, layer: nat)
    requires layer < width && AllBelow(xs, Pow2(width))
    ensures LayerStart(layer, |xs|) + |xs| <= |Build(xs, width)|
    ensures Build(xs, width)[LayerStart(layer, |xs|) .. LayerStart(layer, |xs|) + |xs|] == Split(xs, 0, Pow2(width), layer)
  {
    BuildLayerAt(xs, width, layer);
    LayerIsSplit(xs, width, layer);
  }

  /** The values below `lo` and those in `[lo, hi)` are the values below `hi`. */
  lemma FragmentRange(xs: seq<nat>, width: nat, layer: nat, c: nat, lo: int, hi: int)
    requires layer <= width && c < Pow2(width) && AllBelow(xs, Pow2(width))
    requires (lo, hi) == Interval(c, width, layer)
    ensures 0 <= lo < hi <= Pow2(width)
    ensures CountBelow(xs, lo) + |Filter(xs, lo, hi)| == CountBelow(xs, hi) <= |xs|
  {
    IntervalBounds(c, width, layer);
    FilterSplit(xs, 0, lo, hi);
    FilterSplit(xs, 0, hi, Pow2(width));
    FilterAll(xs, Pow2(width));
  }

  /**
   * Within a block of bits holding layer `layer`, the fragment `[lo, hi)` a
   * descent towards `c` visits starts after one bit per value below `lo`.
   */
  lemma FragmentInBlock(bits: seq<bool>, base: nat, xs: seq<nat>, width: nat, layer: nat, c: nat, lo: int, hi: int)
    requires layer <= width && c < Pow2(width) && AllBelow(xs, Pow2(width))
    requires (lo, hi) == Interval(c, width, layer)
    requires base + |xs| <= |bits| && bits[base .. base + |xs|] == Split(xs, 0, Pow2(width), layer)
    ensures CountBelow(xs, lo) + |Filter(xs, lo, hi)| == CountBelow(xs, hi) <= |xs|
    ensures bits[base + CountBelow(xs, lo) .. base + CountBelow(xs, hi)] == FragmentBits(xs, lo, hi, (lo + hi) / 2)
  {
    var i := CountBelow(xs, lo);
    var j := CountBelow(xs, hi);
    FragmentRange(xs, width, layer, c, lo, hi);
    FragmentInLayer(xs, width, layer, c, lo, hi);
    var layerBits := Split(xs, 0, Pow2(width), layer);
    var fragment := FragmentBits(xs, lo, hi, (lo + hi) / 2);
    assert layerBits[i .. j] == fragment;
    SliceOfSlice(bits, base, |xs|, i, j);
  }

  /**
   * `bits[base .. base + |xs|]` holds layer `layer` of the tree of `xs`: the
   * fragments of the halving of the whole alphabet into `2^layer` parts.
   */
  ghost predicate LayerAt(bits: seq<bool>, xs: seq<nat>, width: nat, layer: nat, base: nat)
  {
    layer < width && base + |xs| <= |bits| && bits[base .. base + |xs|] == Split(xs, 0, Pow2(width), layer)
  }

  /** In the tree built from `xs`, layer `layer` starts after the `layer * |xs|` bits of the layers above it. */
  lemma BuiltLayer(bits: seq<bool>, xs: seq<nat>, width: nat, layer: nat)
    requires layer < width && AllBelow(xs, Pow2(width)) && IsBuild(bits, xs, width)
    ensures LayerAt(bits, xs, width, layer, LayerStart(layer, |xs|))
  {
    LayerBlock(xs, width, layer);
  }
}
