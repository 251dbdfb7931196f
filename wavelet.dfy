/**
 * The wavelet tree of `wavelettree.rs`: `n` values of `numLayers` bits each,
 * stored as `numLayers` layers of `n` bits, with positional decoding, lookup
 * of a value, and the slice listing the positions of a value.
 */
module Wavelet {
  import opened Outcome
  import opened Alphabet
  import opened BitIndex
  import opened Layout
  import opened Descent

  /** One step of a lookup: the side taken in a layer, and the range of tree bits the step looked at. */
  datatype LayerRange = LayerRange(bit: bool, start: nat, end: nat)

  /**
   * The range a lookup of `c` records in layer `layer` of the tree built
   * from `xs`: the fragment of the interval reached so far.
   */
  function RangeOf(xs: seq<nat>, width: nat, c: nat, layer: nat): LayerRange
    requires layer < width
  {
    var (lo, hi) := Interval(c, width, layer);
    LayerRange(Side(c, width, layer), LayerStart(layer, |xs|) + CountBelow(xs, lo), LayerStart(layer, |xs|) + CountBelow(xs, hi))
  }

  /**
   * `from_parts`: a tree over `bits` with `numLayers` layers, provided there
   * is at least one layer and the layers have equal length.
   */
  function FromParts(bits: seq<bool>, numLayers: nat): (r: Result<WaveletTree>)
    ensures numLayers == 0 ==> r == Panic("assertion failed: num_layers != 0")
    ensures numLayers != 0 && |bits| % numLayers != 0 ==> r == Panic("the bitarray length is not a multiple of the number of layers")
    ensures r.Ok? <==> WaveletTree(bits, numLayers).Valid()
    ensures r.Ok? ==> r.value == WaveletTree(bits, numLayers) && r.value.Len() * numLayers == |bits|
  {
    if numLayers == 0 then Panic("assertion failed: num_layers != 0")
    else if |bits| % numLayers != 0 then Panic("the bitarray length is not a multiple of the number of layers")
    else Ok(WaveletTree(bits, numLayers))
  }

  datatype WaveletTree = WaveletTree(bits: seq<bool>, numLayers: nat)
  {
    /** What `from_parts` checks: at least one layer, and layers of equal length. */
    predicate Valid()
    {
      numLayers != 0 && |bits| % numLayers == 0
    }

    /** `num_layers`: the width in bits of every stored value. */
    function NumLayers(): (r: nat)
      ensures r == numLayers
    {
      numLayers
    }

    /** The number of values stored: the length of one layer. */
    function Len(): (r: nat)
      requires numLayers != 0
      ensures Valid() ==> r * numLayers == |bits|
    {
      var r := |bits| / numLayers;
      assert Valid() ==> r * numLayers == |bits| by {
        if Valid() {
          DivExact(|bits|, numLayers);
        }
      }
      r
    }

    /** This tree is the one `build_wavelet_tree` writes for `vs`. */
    ghost predicate Encodes(vs: seq<nat>)
    {
      numLayers != 0 && AllBelow(vs, Pow2(numLayers)) && IsBuild(bits, vs, numLayers)
    }

    /**
     * `decode`: the value at every position, in order; in a tree built from
     * `vs` these are the values of `vs`.
     */
    method Decode(ghost vs: seq<nat>) returns (r: Result<seq<nat>>)
      requires Valid()
      ensures r.Ok? && |r.value| == Len()
      ensures forall k :: 0 <= k < |r.value| ==> r.value[k] < Pow2(numLayers)
      ensures Encodes(vs) ==> r.value == vs
    {
      var n := Len();
      if Encodes(vs) {
        EncodedLen(vs);
      }
      var out: seq<nat> := [];
      var i := 0;
      while i < n
        invariant i <= n && |out| == i
        invariant forall k :: 0 <= k < i ==> out[k] < Pow2(numLayers)
        invariant Encodes(vs) ==> out == vs[..i]
      {
        var v := DecodeOne(i, vs);
        out := out + [v.value];
        i := i + 1;
      }
      assert Encodes(vs) ==> vs[..n] == vs;
      return Ok(out);
    }

    /** A tree built from `vs` is valid and stores `|vs|` values. */
    lemma EncodedLen(vs: seq<nat>)
      requires Encodes(vs)
      ensures Valid() && Len() == |vs|
    {
      BuildLength(vs, numLayers);
      DivUnique(|bits|, numLayers, |vs|);
      assert |bits| % numLayers == |bits| - |bits| / numLayers * numLayers;
    }

    /**
     * What `decode_one` keeps true of its locals before layer `i`: the
     * alphabet interval has been halved `i` times, the row range lies within
     * a layer, and for an index in range the followed row lies inside it.
     */
    ghost predicate CursorOk(i: nat, len: nat, index: nat, cur: Cursor)
    {
      && i <= numLayers && 0 <= cur.alphabetStart
      && cur.alphabetEnd == cur.alphabetStart + Pow2(numLayers - i) <= Pow2(numLayers)
      && cur.rangeStart <= cur.rangeEnd <= len
      && (index < len ==> cur.rangeStart + cur.offset < cur.rangeEnd)
    }

    /** For the tree built from `vs`, the locals before layer `i` follow `vs[index]` down the layout. */
    ghost predicate CursorFollows(i: nat, index: nat, cur: Cursor, vs: seq<nat>)
    {
      Encodes(vs) && index < |vs| ==>
        DecodeAt(vs, numLayers, index, i, cur)
    }

    /**
     * One iteration of the loop of `decode_one`: read the bit of the followed
     * row in layer `i`, take the half of the alphabet it names, and narrow the
     * row range and the offset with rank queries.
     */
    method DecodeLayer(i: nat, len: nat, index: nat, cur: Cursor, ghost vs: seq<nat>) returns (r: Result<Cursor>)
      requires i < numLayers && i * len + len <= |bits|
      requires Encodes(vs) ==> |vs| == len
      requires CursorOk(i, len, index, cur) && CursorFollows(i, index, cur, vs)
      ensures index < len ==> r.Ok?
      ensures r.Ok? ==> CursorOk(i + 1, len, index, r.value) && CursorFollows(i + 1, index, r.value, vs)
    {
      var Cursor(offset, alphabetStart, alphabetEnd, rangeStart, rangeEnd) := cur;
      var base := i * len;
      var pos := base + rangeStart + offset;
      if pos >= |bits| {
        return Panic("inner loop reached an index that is too high");
      }
      var bit := bits[pos];
      var rangeStartIndex := base + rangeStart;
      var rangeEndIndex := base + rangeEnd;
      DescendOk(i, len, index, cur, base);
      FollowLayer(i, len, index, cur, vs, base);
      if bit {
        alphabetStart := (alphabetStart + alphabetEnd) / 2;
        RankStep(bits, true, rangeStartIndex, pos);
        offset := Rank(bits, true, rangeStartIndex, pos + 1) - 1;
        var zerosInRange := Rank(bits, false, rangeStartIndex, rangeEndIndex);
        rangeStart := rangeStart + zerosInRange;
      } else {
        alphabetEnd := (alphabetStart + alphabetEnd) / 2;
        RankStep(bits, false, rangeStartIndex, pos);
        offset := Rank(bits, false, rangeStartIndex, pos + 1) - 1;
        var onesInRange := Rank(bits, true, rangeStartIndex, rangeEndIndex);
        rangeEnd := rangeEnd - onesInRange;
      }
      var next := Cursor(offset, alphabetStart, alphabetEnd, rangeStart, rangeEnd);
      assert next == Descend(bits, base, cur);
      return Ok(next);
    }

    /** One layer of `decode_one` keeps its locals within bounds. */
    lemma DescendOk(i: nat, len: nat, index: nat, cur: Cursor, base: nat)
      requires i < numLayers && CursorOk(i, len, index, cur)
      requires base + cur.rangeStart + cur.offset < |bits| && base + cur.rangeEnd <= |bits|
      ensures CursorOk(i + 1, len, index, Descend(bits, base, cur))
    {
      var from := base + cur.rangeStart;
      var pos := from + cur.offset;
      var to := base + cur.rangeEnd;
      RankAt(bits, from, pos, to);
      RankStep(bits, bits[pos], from, pos);
      Pow2Add(numLayers - i - 1, 1);
    }

    /** One layer of `decode_one` keeps following the decoded value in a built tree. */
    lemma FollowLayer(i: nat, len: nat, index: nat, cur: Cursor, vs: seq<nat>, base: nat)
      requires i < numLayers && base == i * len && (Encodes(vs) ==> |vs| == len)
      requires CursorOk(i, len, index, cur) && CursorFollows(i, index, cur, vs)
      requires base + cur.rangeStart + cur.offset < |bits| && base + cur.rangeEnd <= |bits|
      ensures CursorFollows(i + 1, index, Descend(bits, base, cur), vs)
    {
      if Encodes(vs) && index < |vs| {
        LayerStartIsProduct(i, len);
        DecodeAdvance(bits, vs, numLayers, index, i, cur, base);
      }
    }

    /**
     * `decode_one`: the value at position `index`, read by descending the
     * layers and halving the alphabet interval at each one.
     */
    method DecodeOne(index: nat, ghost vs: seq<nat>) returns (r: Result<nat>)
      requires Valid()
      ensures index < Len() ==> r.Ok?
      ensures r.Ok? ==> r.value < Pow2(numLayers)
      ensures Encodes(vs) && index < |vs| ==> r == Ok(vs[index])
    {
      var len := Len();
      if Encodes(vs) {
        EncodedLen(vs);
      }
      var cur := Cursor(index, 0, Pow2(numLayers), 0, len);
      if Encodes(vs) && index < |vs| {
        DecodeStart(vs, numLayers, index);
      }
      var i: nat := 0;
      while i < numLayers
        invariant CursorOk(i, len, index, cur) && CursorFollows(i, index, cur, vs)
      {
        MulLtStep(i, numLayers, len);
        var next := DecodeLayer(i, len, index, cur, vs);
        if next.Panic? {
          return Panic(next.message);
        }
        cur := next.value;
        i := i + 1;
      }
      if Encodes(vs) && index < |vs| {
        IntervalLeaf(vs[index], numLayers);
      }
      assert cur.alphabetStart == cur.alphabetEnd - 1;
      return Ok(cur.alphabetStart);
    }
  
    /**
     * What `lookup` keeps true of its locals before layer `i`: the alphabet
     * interval is the one a descent towards the clamped entry reaches, and
     * the row range lies within a layer.
     */
    ghost predicate ProbeOk(i: nat, width: nat, entry: nat, probe: Probe)
    {
      && i <= numLayers
      && (probe.alphabetStart, probe.alphabetEnd) == Interval(Clamp(entry, numLayers), numLayers, i)
      && probe.startIndex <= probe.endIndex <= width
    }

    /** For the tree built from `vs`, the row range holds the rows of the values in the alphabet interval. */
    ghost predicate ProbeFollows(entry: nat, probe: Probe, vs: seq<nat>)
    {
      Encodes(vs) ==>
        probe.startIndex == CountBelow(vs, probe.alphabetStart) && probe.endIndex == CountBelow(vs, probe.alphabetEnd)
    }

    /**
     * One iteration of the loop of `lookup`: record the side the entry takes
     * in layer `i` with the row range looked at, then move to that half of
     * the alphabet and keep the rows holding a bit for that side.
     */
    method LookupLayer(i: nat, width: nat, entry: nat, probe: Probe, ghost slices: seq<LayerRange>, ghost vs: seq<nat>)
      returns (slice: LayerRange, next: Probe)
      requires i < numLayers && LayerStart(i, width) + width <= |bits|
      requires Encodes(vs) ==> |vs| == width
      requires LookupInv(i, width, entry, probe, slices, vs)
      ensures next.startIndex == next.endIndex ==> (Encodes(vs) ==> Clamp(entry, numLayers) !in vs)
      ensures next.startIndex != next.endIndex ==> LookupInv(i + 1, width, entry, next, slices + [slice], vs)
    {
      var Probe(alphabetStart, alphabetEnd, startIndex, endIndex) := probe;
      LayerStartIsProduct(i, width);
      var fullStartIndex := i * width + startIndex;
      var fullEndIndex := i * width + endIndex;
      var b := entry >= (alphabetStart + alphabetEnd) / 2;
      slice := LayerRange(b, fullStartIndex, fullEndIndex);
      if b {
        alphabetStart := alphabetStart + Pow2(numLayers - i - 1);
        startIndex := startIndex + Rank(bits, false, fullStartIndex, fullEndIndex);
      } else {
        alphabetEnd := alphabetEnd - Pow2(numLayers - i - 1);
        endIndex := endIndex - Rank(bits, true, fullStartIndex, fullEndIndex);
      }
      next := Probe(alphabetStart, alphabetEnd, startIndex, endIndex);
      LayerStep(i, width, entry, probe, vs, slice, next);
      LookupAdvance(i, width, entry, probe, slices, vs, slice, next);
      if next.startIndex == next.endIndex {
        LookupMissing(i + 1, width, entry, next, vs);
      }
    }

    /**
     * What one iteration of the loop of `lookup` establishes: the step
     * recorded covers the current row range and takes the side of the
     * midpoint the clamped entry lies on; the locals move one layer down,
     * keeping as many rows as that side has in the range; and for a built
     * tree the step is the fragment of the interval reached.
     */
    ghost predicate StepDone(i: nat, width: nat, entry: nat, probe: Probe, vs: seq<nat>, slice: LayerRange, next: Probe)
      requires i < numLayers
    {
      && slice.start == LayerStart(i, width) + probe.startIndex && slice.end == LayerStart(i, width) + probe.endIndex
      && slice.start <= slice.end <= |bits|
      && slice.bit == Side(Clamp(entry, numLayers), numLayers, i)
      && ProbeOk(i + 1, width, entry, next) && ProbeFollows(entry, next, vs)
      && next.endIndex - next.startIndex == Rank(bits, slice.bit, slice.start, slice.end)
      && (Encodes(vs) ==> slice == RangeOf(vs, numLayers, Clamp(entry, numLayers), i))
    }

    /** One iteration of the loop of `lookup` does what `StepDone` says. */
    lemma LayerStep(i: nat, width: nat, entry: nat, probe: Probe, vs: seq<nat>, slice: LayerRange, next: Probe)
      requires i < numLayers && LayerStart(i, width) + width <= |bits|
      requires Encodes(vs) ==> |vs| == width
      requires ProbeOk(i, width, entry, probe) && ProbeFollows(entry, probe, vs)
      requires slice == LayerRange(entry >= (probe.alphabetStart + probe.alphabetEnd) / 2,
                                   LayerStart(i, width) + probe.startIndex, LayerStart(i, width) + probe.endIndex)
      requires next == Narrow(i, width, entry, probe)
      ensures StepDone(i, width, entry, probe, vs, slice, next)
    {
      NarrowOk(i, width, entry, probe);
      if Encodes(vs) {
        NarrowFollows(i, width, entry, probe, vs);
        ClampStep(entry, numLayers, i);
      }
    }

    /** The locals of `lookup` after layer `i`: the half of the alphabet towards `entry`, and the rows of that half. */
    function Narrow(i: nat, width: nat, entry: nat, probe: Probe): (r: Probe)
      requires i < numLayers && LayerStart(i, width) + width <= |bits|
      requires probe.startIndex <= probe.endIndex <= width
    {
      var from := LayerStart(i, width) + probe.startIndex;
      var to := LayerStart(i, width) + probe.endIndex;
      if entry >= (probe.alphabetStart + probe.alphabetEnd) / 2 then
        Probe(probe.alphabetStart + Pow2(numLayers - i - 1), probe.alphabetEnd, probe.startIndex + Rank(bits, false, from, to), probe.endIndex)
      else
        Probe(probe.alphabetStart, probe.alphabetEnd - Pow2(numLayers - i - 1), probe.startIndex, probe.endIndex - Rank(bits, true, from, to))
    }

    /**
     * One layer of `lookup` takes the side of the midpoint the clamped entry
     * lies on and moves to that half of the alphabet interval, keeping as
     * many rows as that side has in the range.
     */
    lemma NarrowOk(i: nat, width: nat, entry: nat, probe: Probe)
      requires i < numLayers && LayerStart(i, width) + width <= |bits|
      requires ProbeOk(i, width, entry, probe)
      ensures (entry >= (probe.alphabetStart + probe.alphabetEnd) / 2) == Side(Clamp(entry, numLayers), numLayers, i)
      ensures ProbeOk(i + 1, width, entry, Narrow(i, width, entry, probe))
      ensures var next := Narrow(i, width, entry, probe);
              next.endIndex - next.startIndex
              == Rank(bits, entry >= (probe.alphabetStart + probe.alphabetEnd) / 2,
                      LayerStart(i, width) + probe.startIndex, LayerStart(i, width) + probe.endIndex)
    {
      ClampHalving(entry, numLayers, i);
      RankComplement(bits, true, LayerStart(i, width) + probe.startIndex, LayerStart(i, width) + probe.endIndex);
    }

    /** For a built tree, one layer of `lookup` keeps the rows of exactly the values in the alphabet interval. */
    lemma NarrowFollows(i: nat, width: nat, entry: nat, probe: Probe, vs: seq<nat>)
      requires i < numLayers && LayerStart(i, width) + width <= |bits|
      requires Encodes(vs) && |vs| == width
      requires ProbeOk(i, width, entry, probe) && ProbeFollows(entry, probe, vs)
      ensures ProbeFollows(entry, Narrow(i, width, entry, probe), vs)
    {
      ClampHalving(entry, numLayers, i);
      HalfRank(bits, vs, numLayers, i, Clamp(entry, numLayers), probe.alphabetStart, probe.alphabetEnd, LayerStart(i, width));
    }

    /**
     * `lookup`: descend towards `entry`, recording in each layer the side it
     * takes and the rows of the interval reached; give up as soon as no row
     * is left. An entry past the alphabet takes the upper side in every layer,
     * so it is looked up as the largest symbol `2^numLayers - 1`.
     */
    method Lookup(entry: nat, ghost vs: seq<nat>) returns (r: Option<WaveletSlice>)
      requires numLayers != 0
      ensures r.Some? ==> r.value.entry == entry && r.value.tree == this && r.value.Valid()
      ensures r.Some? ==> Recorded(bits, numLayers, Len(), Clamp(entry, numLayers), r.value.slices) && r.value.Len() > 0
      ensures Encodes(vs) ==> (r.Some? <==> Clamp(entry, numLayers) in vs)
      ensures Encodes(vs) && r.Some? ==> r.value.Describes(vs)
    {
      var width := Len();
      var slices: seq<LayerRange> := [];
      var probe := Probe(0, Pow2(numLayers), 0, width);
      LookupStart(width, entry, vs);
      var i: nat := 0;
      while i < numLayers
        invariant LookupInv(i, width, entry, probe, slices, vs)
      {
        LayerStartMonotone(i + 1, numLayers, width);
        var slice, next := LookupLayer(i, width, entry, probe, slices, vs);
        slices := slices + [slice];
        probe := next;
        if probe.startIndex == probe.endIndex {
          return None;
        }
        i := i + 1;
      }
      r := Some(WaveletSlice(entry, this, slices));
      LookupFound(entry, width, probe, slices, vs);
    }

    /**
     * `lookup` restricted to the alphabet: an entry of `numLayers` bits or
     * more cannot occur in the tree, so there is no slice for it; any other
     * entry is looked up as `lookup` does.
     */
    method LookupExact(entry: nat, ghost vs: seq<nat>) returns (r: Option<WaveletSlice>)
      requires numLayers != 0
      ensures entry >= Pow2(numLayers) ==> r.None?
      ensures r.Some? ==> r.value.entry == entry && r.value.Symbol() == entry && r.value.Valid() && r.value.Len() > 0
      ensures Encodes(vs) ==> (r.Some? <==> entry in vs)
      ensures Encodes(vs) && r.Some? ==> r.value.Describes(vs)
    {
      if entry >= Pow2(numLayers) {
        return None;
      }
      r := Lookup(entry, vs);
    }

    /** Before the first layer, `lookup` looks at the whole alphabet and every row. */
    lemma LookupStart(width: nat, entry: nat, vs: seq<nat>)
      requires numLayers != 0 && width == Len()
      ensures LayerStart(numLayers, width) <= |bits|
      ensures Encodes(vs) ==> |vs| == width
      ensures LookupInv(0, width, entry, Probe(0, Pow2(numLayers), 0, width), [], vs)
    {
      DivBounds(|bits|, numLayers);
      LayerStartIsProduct(numLayers, width);
      if Encodes(vs) {
        EncodedLen(vs);
        FilterEmpty(vs, 0);
        FilterAll(vs, Pow2(numLayers));
      }
    }

    /**
     * What `lookup` keeps true before layer `i`: the locals are those of a
     * descent towards the clamped entry, a step is recorded per layer passed,
     * and the last step kept at least one row.
     */
    ghost predicate LookupInv(i: nat, width: nat, entry: nat, probe: Probe, slices: seq<LayerRange>, vs: seq<nat>)
    {
      && ProbeOk(i, width, entry, probe) && ProbeFollows(entry, probe, vs)
      && |slices| == i
      && Recorded(bits, numLayers, width, Clamp(entry, numLayers), slices)
      && (i > 0 ==> 0 < probe.endIndex - probe.startIndex == Rank(bits, slices[i - 1].bit, slices[i - 1].start, slices[i - 1].end))
      && (Encodes(vs) ==> Traced(vs, numLayers, Clamp(entry, numLayers), slices))
    }

    /** Recording the step of layer `i` keeps the loop invariant of `lookup` when rows remain. */
    lemma LookupAdvance(i: nat, width: nat, entry: nat, probe: Probe, slices: seq<LayerRange>, vs: seq<nat>, slice: LayerRange, next: Probe)
      requires i < numLayers && LookupInv(i, width, entry, probe, slices, vs)
      requires StepDone(i, width, entry, probe, vs, slice, next)
      ensures ProbeOk(i + 1, width, entry, next) && ProbeFollows(entry, next, vs)
      ensures next.startIndex != next.endIndex ==> LookupInv(i + 1, width, entry, next, slices + [slice], vs)
    {
      RecordedAppend(bits, numLayers, width, Clamp(entry, numLayers), slices, slice);
      if Encodes(vs) {
        TracedAppend(vs, numLayers, Clamp(entry, numLayers), slices, slice);
      }
      assert (slices + [slice])[i] == slice;
    }

    /** An empty row range means the entry's symbol does not occur: its interval holds no value. */
    lemma LookupMissing(i: nat, width: nat, entry: nat, probe: Probe, vs: seq<nat>)
      requires ProbeOk(i, width, entry, probe) && ProbeFollows(entry, probe, vs)
      requires probe.startIndex == probe.endIndex
      ensures Encodes(vs) ==> Clamp(entry, numLayers) !in vs
    {
      if Encodes(vs) {
        var c := Clamp(entry, numLayers);
        IntervalBounds(c, numLayers, i);
        FilterSplit(vs, 0, probe.alphabetStart, probe.alphabetEnd);
        if c in vs {
          FilterHas(vs, probe.alphabetStart, probe.alphabetEnd, c);
        }
      }
    }

    /**
     * A lookup that passes every layer finds the symbol: the steps it records
     * form a valid slice with at least one row, and in a built tree the
     * symbol occurs and the slice is the one its lookup makes.
     */
    lemma LookupFound(entry: nat, width: nat, probe: Probe, slices: seq<LayerRange>, vs: seq<nat>)
      requires numLayers != 0 && LookupInv(numLayers, width, entry, probe, slices, vs)
      requires Encodes(vs) ==> |vs| == width
      ensures WaveletSlice(entry, this, slices).Valid() && WaveletSlice(entry, this, slices).Len() > 0
      ensures Recorded(bits, numLayers, width, Clamp(entry, numLayers), slices)
      ensures Encodes(vs) ==> Clamp(entry, numLayers) in vs && WaveletSlice(entry, this, slices).Describes(vs)
    {
      var c := Clamp(entry, numLayers);
      forall k | 0 <= k < |slices|
        ensures slices[k].start <= slices[k].end <= |bits|
      {
        RecordedAt(bits, numLayers, width, c, slices, k);
      }
      if Encodes(vs) {
        IntervalLeaf(c, numLayers);
        FilterSplit(vs, 0, c, c + 1);
        FilterOccurs(vs, c);
      }
    }
  }

  /**
   * The steps a lookup of symbol `c` has recorded in the first layers of a
   * tree with `width` layers of `rows` bits: each took the side of the
   * midpoint `c` lies on, over a range inside its own layer and inside the
   * tree's bits. Stated step by step, the last step first.
   */
  predicate Recorded(bits: seq<bool>, width: nat, rows: nat, c: nat, slices: seq<LayerRange>)
    decreases |slices|
  {
    && |slices| <= width
    && (slices != [] ==>
          var k := |slices| - 1;
          && Recorded(bits, width, rows, c, slices[..k])
          && LayerStart(k, rows) <= slices[k].start <= slices[k].end <= LayerStart(k, rows) + rows
          && slices[k].end <= |bits|
          && k < width && slices[k].bit == Side(c, width, k))
  }

  lemma RecordedAppend(bits: seq<bool>, width: nat, rows: nat, c: nat, slices: seq<LayerRange>, slice: LayerRange)
    requires Recorded(bits, width, rows, c, slices) && |slices| < width
    requires LayerStart(|slices|, rows) <= slice.start <= slice.end <= LayerStart(|slices|, rows) + rows
    requires slice.end <= |bits| && slice.bit == Side(c, width, |slices|)
    ensures Recorded(bits, width, rows, c, slices + [slice])
  {
    assert (slices + [slice])[..|slices|] == slices;
  }

  /** Every recorded step lies inside the bits and took the side the matching bit of `c` names. */
  lemma {:induction false} RecordedAt(bits: seq<bool>, width: nat, rows: nat, c: nat, slices: seq<LayerRange>, k: nat)
    requires Recorded(bits, width, rows, c, slices) && k < |slices|
    ensures k < width && slices[k].start <= slices[k].end <= |bits| && slices[k].bit == Side(c, width, k)
    ensures LayerStart(k, rows) <= slices[k].start && slices[k].end <= LayerStart(k, rows) + rows
    decreases |slices|
  {
    if k < |slices| - 1 {
      RecordedAt(bits, width, rows, c, slices[..|slices| - 1], k);
    }
  }

  /**
   * Step `k` of a recorded lookup of `c` took the side named by bit
   * `width - 1 - k` of `c`, over rows inside layer `k`, the block
   * `[k * rows, (k + 1) * rows)` of the bits.
   */
  lemma RecordedBit(bits: seq<bool>, width: nat, rows: nat, c: nat, slices: seq<LayerRange>, k: nat)
    requires c < Pow2(width) && Recorded(bits, width, rows, c, slices) && k < |slices|
    ensures k < width && slices[k].bit == Bit(c, width - 1 - k)
    ensures k * rows <= slices[k].start <= slices[k].end <= k * rows + rows
  {
    RecordedAt(bits, width, rows, c, slices, k);
    SideIsBit(c, width, k);
    LayerStartIsProduct(k, rows);
  }

  /** The steps recorded are those a lookup of `c` makes in the tree built from `xs`, stated step by step. */
  ghost predicate Traced(xs: seq<nat>, width: nat, c: nat, slices: seq<LayerRange>)
    decreases |slices|
  {
    && |slices| <= width
    && (slices != [] ==>
          var k := |slices| - 1;
          Traced(xs, width, c, slices[..k]) && slices[k] == RangeOf(xs, width, c, k))
  }

  lemma TracedAppend(xs: seq<nat>, width: nat, c: nat, slices: seq<LayerRange>, slice: LayerRange)
    requires Traced(xs, width, c, slices) && |slices| < width
    requires slice == RangeOf(xs, width, c, |slices|)
    ensures Traced(xs, width, c, slices + [slice])
  {
    assert (slices + [slice])[..|slices|] == slices;
  }

  /** Every traced step is the range the lookup of `c` looks at in its layer. */
  lemma {:induction false} TracedAt(xs: seq<nat>, width: nat, c: nat, slices: seq<LayerRange>, k: nat)
    requires Traced(xs, width, c, slices) && k < |slices|
    ensures k < width && slices[k] == RangeOf(xs, width, c, k)
    decreases |slices|
  {
    if k < |slices| - 1 {
      TracedAt(xs, width, c, slices[..|slices| - 1], k);
    }
  }

  /** In the last layer, the rows on the side a lookup of `c` takes are the occurrences of `c`. */
  lemma LastRange(bits: seq<bool>, xs: seq<nat>, width: nat, c: nat)
    requires width != 0 && c < Pow2(width) && AllBelow(xs, Pow2(width)) && IsBuild(bits, xs, width)
    ensures var s := RangeOf(xs, width, c, width - 1);
            s.start <= s.end <= |bits| && Rank(bits, s.bit, s.start, s.end) == |Filter(xs, c, c + 1)|
  {
    var (lo, hi) := Interval(c, width, width - 1);
    var mid := (lo + hi) / 2;
    HalfRank(bits, xs, width, width - 1, c, lo, hi, LayerStart(width - 1, |xs|));
    IntervalNext(c, width, width - 1);
    IntervalLeaf(c, width);
    FilterSplit(xs, 0, c, c + 1);
    if c >= mid {
      assert (mid, hi) == (c, c + 1);
    } else {
      assert (lo, mid) == (c, c + 1);
    }
  }

  /** The one-layer tree of the single value `1` is the single bit `true`. */
  lemma BuildOfOne()
    ensures IsBuild([true], [1], 1)
  {
    assert FragmentBits([1], 0, 2, 1) == [true] by {
      assert [1][..0] == [];
    }
    assert BuildFragment([1], 2, 0, 0) == [true];
    assert Build([1], 1) == [true];
  }

  /**
   * `lookup` past the alphabet: in the one-layer tree built from `[1]`, the
   * entry `2` does not occur, yet `lookup(2)` returns a slice, the slice of
   * the symbol `1`.
   */
  method LookupPastAlphabet() returns (r: Option<WaveletSlice>)
    ensures r.Some? && r.value.entry == 2 && r.value.Symbol() == 1
  {
    var tree := WaveletTree([true], 1);
    BuildOfOne();
    r := tree.Lookup(2, [1]);
  }

  /** The locals `lookup` updates from one layer to the next. */
  datatype Probe = Probe(alphabetStart: int, alphabetEnd: int, startIndex: nat, endIndex: nat)

  /**
   * A `WaveletSlice`: the entry looked up, the tree, and the range of tree
   * bits each layer's step of the lookup looked at, with the side it took.
   */
  datatype WaveletSlice = WaveletSlice(entry: nat, tree: WaveletTree, slices: seq<LayerRange>)
  {
    /** What `lookup` produces: a step per layer of a valid tree, each inside the tree's bits. */
    predicate Valid()
    {
      && |slices| == tree.numLayers != 0
      && forall k :: 0 <= k < |slices| ==> slices[k].start <= slices[k].end <= |tree.bits|
    }

    /** The symbol the slice lists the positions of. */
    function Symbol(): (c: nat)
      ensures c < Pow2(tree.numLayers)
    {
      Clamp(entry, tree.numLayers)
    }

    /** The slice is the one a lookup of `entry` makes in the tree built from `vs`. */
    ghost predicate Describes(vs: seq<nat>)
    {
      tree.Encodes(vs) && |slices| == tree.numLayers && Traced(vs, tree.numLayers, Symbol(), slices)
    }

    /** `len`: the rows of the last step that took its side, one per occurrence of the symbol. */
    function Len(): nat
      requires Valid()
    {
      var last := slices[|slices| - 1];
      Rank(tree.bits, last.bit, last.start, last.end)
    }

    /** A slice a lookup made in a built tree has one row per occurrence of its symbol. */
    lemma LenCounts(vs: seq<nat>)
      requires Valid() && Describes(vs)
      ensures Len() == |Positions(vs, Symbol())|
    {
      TracedAt(vs, tree.numLayers, Symbol(), slices, tree.numLayers - 1);
      LastRange(tree.bits, vs, tree.numLayers, Symbol());
    }

    /**
     * What `entry` keeps true of `result` before the step of layer `k - 1`
     * for the occurrence at position `t`: it is one more than the number of
     * earlier values in the interval reached below that layer.
     */
    ghost predicate EntryAt(vs: seq<nat>, t: nat, k: nat, result: nat)
    {
      && k <= tree.numLayers && t < |vs| && vs[t] == Symbol()
      && var (lo, hi) := Interval(Symbol(), tree.numLayers, k);
         result == 1 + Before(vs, t, lo, hi)
    }

    /** The `index`-th occurrence is where `entry` starts: one more than its rank among the rows of the symbol. */
    lemma EntryStart(index: nat, vs: seq<nat>)
      requires Valid() && Describes(vs) && index < Len()
      ensures index < |Positions(vs, Symbol())|
      ensures EntryAt(vs, Positions(vs, Symbol())[index], tree.numLayers, index + 1)
    {
      LenCounts(vs);
      PositionBefore(vs, Symbol(), index);
      IntervalLeaf(Symbol(), tree.numLayers);
    }

    /** Selecting in the step of layer `k - 1` finds the row of the occurrence, one layer up. */
    lemma EntryBack(vs: seq<nat>, t: nat, k: nat, result: nat)
      requires Valid() && Describes(vs) && 0 < k && EntryAt(vs, t, k, result)
      ensures var s := slices[k - 1];
              && s.start <= s.end <= |tree.bits|
              && Select(tree.bits, s.bit, result, s.start, s.end).Some?
              && EntryAt(vs, t, k - 1, Select(tree.bits, s.bit, result, s.start, s.end).value - s.start + 1)
    {
      var L := tree.numLayers;
      var c := Symbol();
      var (lo, hi) := Interval(c, L, k - 1);
      TracedAt(vs, L, c, slices, k - 1);
      EntryStep(tree.bits, vs, L, k - 1, t, lo, hi, LayerStart(k - 1, |vs|), result);
    }

    /** At the top layer the interval is the whole alphabet, so `result - 1` is the position itself. */
    lemma EntryEnd(vs: seq<nat>, t: nat, result: nat)
      requires Describes(vs) && EntryAt(vs, t, 0, result)
      ensures result - 1 == t
    {
      BeforeAll(vs, t, Pow2(tree.numLayers));
    }

    /**
     * `entry`: the position of the `index`-th occurrence of the symbol,
     * found by climbing from the last step to the first, each time selecting
     * the row among those of the side that step took.
     */
    method Entry(index: nat, ghost vs: seq<nat>) returns (r: Result<nat>)
      requires Valid()
      ensures index >= Len() ==> r == Panic("entry is out of bounds")
      ensures Describes(vs) && index < Len() ==> index < |Positions(vs, Symbol())| && r == Ok(Positions(vs, Symbol())[index])
    {
      if index >= Len() {
        return Panic("entry is out of bounds");
      }
      ghost var t: nat := 0;
      if Describes(vs) {
        EntryStart(index, vs);
        t := Positions(vs, Symbol())[index];
      }
      var result: nat := index + 1;
      var k: nat := |slices|;
      while k > 0
        invariant k <= |slices| && result >= 1
        invariant Describes(vs) ==> EntryAt(vs, t, k, result)
      {
        var LayerRange(b, startIndex, endIndex) := slices[k - 1];
        if Describes(vs) {
          EntryBack(vs, t, k, result);
        }
        var found := Select(tree.bits, b, result, startIndex, endIndex);
        if found.None? {
          return Panic("called `Option::unwrap()` on a `None` value");
        }
        result := found.value - startIndex + 1;
        k := k - 1;
      }
      if Describes(vs) {
        EntryEnd(vs, t, result);
      }
      return Ok(result - 1);
    }

    /** `iter`: the entries `0 .. len` in order, which in a built tree are the positions of the symbol. */
    method Iter(ghost vs: seq<nat>) returns (r: Result<seq<nat>>)
      requires Valid()
      ensures r.Ok? ==> |r.value| == Len()
      ensures Describes(vs) ==> r == Ok(Positions(vs, Symbol()))
    {
      var n := Len();
      if Describes(vs) {
        LenCounts(vs);
      }
      var out: seq<nat> := [];
      var i := 0;
      while i < n
        invariant i <= n && |out| == i
        invariant Describes(vs) ==> out == Positions(vs, Symbol())[..i]
      {
        var e := Entry(i, vs);
        if e.Panic? {
          return Panic(e.message);
        }
        out := out + [e.value];
        i := i + 1;
      }
      assert Describes(vs) ==> Positions(vs, Symbol())[..n] == Positions(vs, Symbol());
      return Ok(out);
    }
  }
}
