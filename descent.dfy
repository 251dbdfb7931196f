/**
 * One layer of a descent through the tree built by `Layout.Build`: where the
 * fragment of the current interval lies, which bit a value finds there, and
 * what the rank and select queries over that fragment answer.
 */
module Descent {
  import opened Outcome
  import opened Alphabet
  import opened BitIndex
  import opened Layout

  /** The values of a prefix that fall into a fragment are a prefix of that fragment's bits. */
  lemma FragmentPrefix(xs: seq<nat>, lo: int, hi: int, mid: int, p: nat)
    requires p <= |xs|
    ensures |Filter(xs[..p], lo, hi)| <= |Filter(xs, lo, hi)|
    ensures FragmentBits(xs, lo, hi, mid)[..|Filter(xs[..p], lo, hi)|] == FragmentBits(xs[..p], lo, hi, mid)
  {
    FragmentBitsPrefix(xs, p, lo, hi, mid);
  }

  /** The value at position `p`, when inside the fragment, owns the bit after those of the values before it. */
  lemma FragmentBitAt(xs: seq<nat>, lo: int, hi: int, mid: int, p: nat)
    requires p < |xs| && lo <= xs[p] < hi
    ensures |Filter(xs[..p + 1], lo, hi)| == |Filter(xs[..p], lo, hi)| + 1 <= |Filter(xs, lo, hi)|
    ensures FragmentBits(xs, lo, hi, mid)[|Filter(xs[..p], lo, hi)|] == (xs[p] >= mid)
  {
    var before := xs[..p];
    assert xs[..p + 1][..p] == before;
    FilterPrefixStep(xs, p, lo, hi);
    FragmentPrefix(xs, lo, hi, mid, p + 1);
    assert FragmentBits(xs[..p + 1], lo, hi, mid) == FragmentBits(before, lo, hi, mid) + [xs[p] >= mid];
  }

  /** The rank over the first `m` bits of a slice counts those bits. */
  lemma RankOfPrefix(bits: seq<bool>, start: nat, n: nat, m: nat, t: seq<bool>, b: bool)
    requires start + n <= |bits| && m <= n && bits[start .. start + n][..m] == t
    ensures Rank(bits, b, start, start + m) == Occ(t, b)
  {
    PrefixOfSlice(bits, start, n, m);
    RankOcc(bits, b, start, start + m);
  }

  /**
   * The rank of either bit over the part of a fragment that belongs to the
   * values of a prefix counts those of them in the matching half.
   */
  lemma FragmentRankFilter(bits: seq<bool>, start: nat, xs: seq<nat>, lo: int, mid: int, hi: int, p: nat)
    requires lo <= mid <= hi && p <= |xs|
    requires start + |Filter(xs, lo, hi)| <= |bits|
    requires bits[start .. start + |Filter(xs, lo, hi)|] == FragmentBits(xs, lo, hi, mid)
    ensures |Filter(xs[..p], lo, hi)| <= |Filter(xs, lo, hi)|
    ensures Rank(bits, true, start, start + |Filter(xs[..p], lo, hi)|) == |Filter(xs[..p], mid, hi)|
    ensures Rank(bits, false, start, start + |Filter(xs[..p], lo, hi)|) == |Filter(xs[..p], lo, mid)|
  {
    var q := xs[..p];
    var n := |Filter(xs, lo, hi)|;
    var m := |Filter(q, lo, hi)|;
    var prefix := FragmentBits(q, lo, hi, mid);
    FragmentPrefix(xs, lo, hi, mid, p);
    FragmentBitsOcc(q, lo, mid, hi);
    RankOfPrefix(bits, start, n, m, prefix, true);
    RankOfPrefix(bits, start, n, m, prefix, false);
  }

  /** `FragmentRankFilter`, counted by position: over the bits of the first `p` values in the fragment. */
  lemma FragmentRank(bits: seq<bool>, start: nat, xs: seq<nat>, lo: int, mid: int, hi: int, p: nat)
    requires lo <= mid <= hi && p <= |xs|
    requires start + |Filter(xs, lo, hi)| <= |bits|
    requires bits[start .. start + |Filter(xs, lo, hi)|] == FragmentBits(xs, lo, hi, mid)
    ensures Before(xs, p, lo, hi) <= |Filter(xs, lo, hi)|
    ensures Rank(bits, true, start, start + Before(xs, p, lo, hi)) == Before(xs, p, mid, hi)
    ensures Rank(bits, false, start, start + Before(xs, p, lo, hi)) == Before(xs, p, lo, mid)
  {
    FragmentRankFilter(bits, start, xs, lo, mid, hi, p);
    BeforeFilter(xs, p, lo, hi);
    BeforeFilter(xs, p, mid, hi);
    BeforeFilter(xs, p, lo, mid);
  }

  /** The bit of the value at position `p` inside the fragment holding it. */
  lemma FragmentBit(bits: seq<bool>, start: nat, xs: seq<nat>, lo: int, hi: int, p: nat)
    requires p < |xs| && lo <= xs[p] < hi
    requires start + |Filter(xs, lo, hi)| <= |bits|
    requires bits[start .. start + |Filter(xs, lo, hi)|] == FragmentBits(xs, lo, hi, (lo + hi) / 2)
    ensures Before(xs, p, lo, hi) < |Filter(xs, lo, hi)|
    ensures bits[start + Before(xs, p, lo, hi)] == (xs[p] >= (lo + hi) / 2)
  {
    var m := |Filter(xs[..p], lo, hi)|;
    BeforeFilter(xs, p, lo, hi);
    FragmentBitAt(xs, lo, hi, (lo + hi) / 2, p);
    assert bits[start + m] == bits[start .. start + |Filter(xs, lo, hi)|][m];
  }

  /**
   * In a layer laid out at `base`, the fragment a descent towards `c` visits
   * spans `[base + CountBelow(xs, lo), base + CountBelow(xs, hi))`.
   */
  lemma TreeFragment(bits: seq<bool>, xs: seq<nat>, width: nat, layer: nat, c: nat, lo: int, hi: int, base: nat)
    requires c < Pow2(width) && AllBelow(xs, Pow2(width)) && layer < width && IsBuild(bits, xs, width) && base == LayerStart(layer, |xs|)
    requires (lo, hi) == Interval(c, width, layer)
    ensures 0 <= lo <= c < hi <= Pow2(width) && lo <= (lo + hi) / 2 <= hi
    ensures CountBelow(xs, lo) + |Filter(xs, lo, hi)| == CountBelow(xs, hi) <= |xs|
    ensures base + |xs| <= |bits|
    ensures bits[base + CountBelow(xs, lo) .. base + CountBelow(xs, lo) + |Filter(xs, lo, hi)|]
            == FragmentBits(xs, lo, hi, (lo + hi) / 2)
  {
    IntervalBounds(c, width, layer);
    BuiltLayer(bits, xs, width, layer);
    FragmentInBlock(bits, base, xs, width, layer, c, lo, hi);
  }

  /**
   * Over the whole fragment of `[lo, hi)` in layer `layer`, the ones count
   * the values in the upper half and the zeros those in the lower half.
   */
  lemma HalfRank(bits: seq<bool>, xs: seq<nat>, width: nat, layer: nat, c: nat, lo: int, hi: int, base: nat)
    requires c < Pow2(width) && AllBelow(xs, Pow2(width)) && layer < width && IsBuild(bits, xs, width) && base == LayerStart(layer, |xs|)
    requires (lo, hi) == Interval(c, width, layer)
    ensures 0 <= lo <= c < hi <= Pow2(width) && lo <= (lo + hi) / 2 <= hi
    ensures CountBelow(xs, lo) <= CountBelow(xs, hi) <= |xs| && base + |xs| <= |bits|
    ensures CountBelow(xs, lo) <= CountBelow(xs, (lo + hi) / 2) <= CountBelow(xs, hi)
    ensures Rank(bits, true, base + CountBelow(xs, lo), base + CountBelow(xs, hi)) == CountBelow(xs, hi) - CountBelow(xs, (lo + hi) / 2)
    ensures Rank(bits, false, base + CountBelow(xs, lo), base + CountBelow(xs, hi)) == CountBelow(xs, (lo + hi) / 2) - CountBelow(xs, lo)
  {
    var mid := (lo + hi) / 2;
    TreeFragment(bits, xs, width, layer, c, lo, hi, base);
    FragmentRankFilter(bits, base + CountBelow(xs, lo), xs, lo, mid, hi, |xs|);
    assert xs[..|xs|] == xs;
    FilterSplit(xs, 0, lo, mid);
    FilterSplit(xs, 0, mid, hi);
  }

  /**
   * The row of the value at position `p` in layer `layer` of the tree built
   * from `xs`: it lies inside the fragment of the interval holding the value,
   * after the rows of the earlier values in that interval; its bit says which
   * half holds the value, and the ranks before it count the earlier values
   * in each half.
   */
  lemma RowInLayer(bits: seq<bool>, xs: seq<nat>, width: nat, layer: nat, p: nat, lo: int, hi: int, base: nat)
    requires AllBelow(xs, Pow2(width)) && p < |xs| && layer < width && IsBuild(bits, xs, width) && base == LayerStart(layer, |xs|)
    requires (lo, hi) == Interval(xs[p], width, layer)
    ensures lo <= xs[p] < hi
    ensures CountBelow(xs, lo) <= CountBelow(xs, hi) <= |xs| && base + |xs| <= |bits|
    ensures base + CountBelow(xs, lo) + Before(xs, p, lo, hi) < base + CountBelow(xs, hi)
    ensures bits[base + CountBelow(xs, lo) + Before(xs, p, lo, hi)] == (xs[p] >= (lo + hi) / 2)
    ensures Rank(bits, true, base + CountBelow(xs, lo), base + CountBelow(xs, lo) + Before(xs, p, lo, hi))
            == Before(xs, p, (lo + hi) / 2, hi)
    ensures Rank(bits, false, base + CountBelow(xs, lo), base + CountBelow(xs, lo) + Before(xs, p, lo, hi))
            == Before(xs, p, lo, (lo + hi) / 2)
  {
    var mid := (lo + hi) / 2;
    var start := base + CountBelow(xs, lo);
    AllBelowAt(xs, Pow2(width), p);
    TreeFragment(bits, xs, width, layer, xs[p], lo, hi, base);
    FragmentBit(bits, start, xs, lo, hi, p);
    FragmentRank(bits, start, xs, lo, mid, hi, p);
  }

  /**
   * One layer of `entry` climbing back up the tree built from `xs` towards
   * position `t`: selecting the `result`-th matching bit in the fragment of
   * layer `layer` lands on the bit of `t`.
   */
  lemma EntryStep(bits: seq<bool>, xs: seq<nat>, width: nat, layer: nat, t: nat, lo: int, hi: int, base: nat, result: nat)
    requires AllBelow(xs, Pow2(width)) && t < |xs| && layer < width && IsBuild(bits, xs, width) && base == LayerStart(layer, |xs|)
    requires (lo, hi) == Interval(xs[t], width, layer)
    requires result == 1 + Before(xs, t, Interval(xs[t], width, layer + 1).0, Interval(xs[t], width, layer + 1).1)
    ensures var start := base + CountBelow(xs, lo);
            var end := base + CountBelow(xs, hi);
            && start <= end <= |bits|
            && Select(bits, xs[t] >= (lo + hi) / 2, result, start, end) == Some(start + Before(xs, t, lo, hi))
  {
    var start := base + CountBelow(xs, lo);
    AllBelowAt(xs, Pow2(width), t);
    RowInLayer(bits, xs, width, layer, t, lo, hi, base);
    IntervalNext(xs[t], width, layer);
    SelectUnique(bits, xs[t] >= (lo + hi) / 2, result, start, base + CountBelow(xs, hi), start + Before(xs, t, lo, hi));
  }

  /** The locals `decode_one` carries from one layer to the next. */
  datatype Cursor = Cursor(offset: nat, alphabetStart: int, alphabetEnd: int, rangeStart: nat, rangeEnd: nat)

  /**
   * The locals after one layer of `decode_one`, whose layer starts at `base`
   * in `bits`: the half of the alphabet named by the bit followed, the rank
   * of that bit among its equals in the row range, and the part of the row
   * range holding those equals.
   */
  function Descend(bits: seq<bool>, base: nat, cur: Cursor): (r: Cursor)
    requires base + cur.rangeStart + cur.offset < |bits| && cur.rangeStart <= cur.rangeEnd && base + cur.rangeEnd <= |bits|
  {
    var from := base + cur.rangeStart;
    var pos := from + cur.offset;
    var to := base + cur.rangeEnd;
    var mid := (cur.alphabetStart + cur.alphabetEnd) / 2;
    if bits[pos]
    then Cursor(Rank(bits, true, from, pos), mid, cur.alphabetEnd, cur.rangeStart + Rank(bits, false, from, to), cur.rangeEnd)
    else Cursor(Rank(bits, false, from, pos), cur.alphabetStart, mid, cur.rangeStart, cur.rangeEnd - Rank(bits, true, from, to))
  }

  /**
   * The state of `decode_one` at position `p` of the tree built from `xs`,
   * before layer `layer`: the interval of values still possible, the rows of
   * the values in it, and the number of those rows before `p`.
   */
  ghost predicate DecodeAt(xs: seq<nat>, width: nat, p: nat, layer: nat, cur: Cursor)
  {
    && layer <= width && p < |xs|
    && (cur.alphabetStart, cur.alphabetEnd) == Interval(xs[p], width, layer)
    && cur.rangeStart == CountBelow(xs, cur.alphabetStart) && cur.rangeEnd == CountBelow(xs, cur.alphabetEnd)
    && cur.offset == Before(xs, p, cur.alphabetStart, cur.alphabetEnd)
  }

  /** `decode_one` starts from the whole alphabet, all rows, and offset `p`. */
  lemma DecodeStart(xs: seq<nat>, width: nat, p: nat)
    requires AllBelow(xs, Pow2(width)) && p < |xs|
    ensures DecodeAt(xs, width, p, 0, Cursor(p, 0, Pow2(width), 0, |xs|))
  {
    FilterEmpty(xs, 0);
    FilterAll(xs, Pow2(width));
    BeforeAll(xs, p, Pow2(width));
  }

  /** One layer of `decode_one` keeps `DecodeAt`, one layer further down. */
  lemma DecodeAdvance(bits: seq<bool>, xs: seq<nat>, width: nat, p: nat, layer: nat, cur: Cursor, base: nat)
    requires AllBelow(xs, Pow2(width)) && layer < width && IsBuild(bits, xs, width) && base == LayerStart(layer, |xs|)
    requires DecodeAt(xs, width, p, layer, cur)
    ensures cur.rangeStart + cur.offset < cur.rangeEnd <= |xs| && base + |xs| <= |bits|
    ensures DecodeAt(xs, width, p, layer + 1, Descend(bits, base, cur))
  {
    var Cursor(offset, lo, hi, rangeStart, rangeEnd) := cur;
    RowInLayer(bits, xs, width, layer, p, lo, hi, base);
    AllBelowAt(xs, Pow2(width), p);
    HalfRank(bits, xs, width, layer, xs[p], lo, hi, base);
    IntervalNext(xs[p], width, layer);
  }
}
