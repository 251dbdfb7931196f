/**
 * Writing a wavelet tree: `build_wavelet_tree` makes one pass over the
 * values per fragment of every layer, pushing one bit per value that lies
 * in the fragment's part of the alphabet.
 */
module Builder {
  import opened Outcome
  import opened Alphabet
  import opened Layout
  import opened Wavelet

  /** The bit array being written: the bits pushed so far. */
  class BitArrayBuilder {
    var bits: seq<bool>

    constructor ()
      ensures bits == []
    {
      bits := [];
    }

    /** `push`: append one bit. */
    method Push(b: bool)
      modifies this
      ensures bits == old(bits) + [b]
    {
      bits := bits + [b];
    }
  }

  /**
   * `build_wavelet_fragment`: fragment `fragment` of layer `layer` covers
   * `[step * fragment, step * (fragment + 1))` with `step = alphabet / 2^layer`;
   * scan `xs` in order and push, for each value in it, whether the value
   * lies in the upper half.
   */
  method BuildWaveletFragment(xs: seq<nat>, w: BitArrayBuilder, alphabet: nat, layer: nat, fragment: nat)
    modifies w
    ensures w.bits == old(w.bits) + BuildFragment(xs, alphabet, layer, fragment)
  {
    var step := alphabet / Pow2(layer);
    var alphabetStart := step * fragment;
    var alphabetEnd := step * (fragment + 1);
    var alphabetMid := (alphabetStart + alphabetEnd) / 2;
    var i := 0;
    while i < |xs|
      invariant i <= |xs|
      invariant w.bits == old(w.bits) + FragmentBits(xs[..i], alphabetStart, alphabetEnd, alphabetMid)
    {
      var num := xs[i];
      assert xs[..i + 1][..i] == xs[..i];
      if num >= alphabetStart && num < alphabetEnd {
        w.Push(num >= alphabetMid);
      }
      i := i + 1;
    }
    assert xs[..|xs|] == xs;
  }

  /** The fragments of a layer written so far grow by one fragment at a time. */
  lemma FragmentsStep(xs: seq<nat>, alphabet: nat, layer: nat, count: nat)
    ensures Fragments(xs, alphabet, layer, 0, count + 1)
            == Fragments(xs, alphabet, layer, 0, count) + BuildFragment(xs, alphabet, layer, count)
  {
    FragmentsConcat(xs, alphabet, layer, 0, count, 1);
    assert Fragments(xs, alphabet, layer, count, 1) == BuildFragment(xs, alphabet, layer, count) + [];
  }

  /** The fragment passes of one layer of `build_wavelet_tree`: fragments `0 .. 2^layer`, in order. */
  method BuildWaveletLayer(xs: seq<nat>, w: BitArrayBuilder, alphabetSize: nat, layer: nat)
    modifies w
    ensures w.bits == old(w.bits) + Fragments(xs, alphabetSize, layer, 0, Pow2(layer))
  {
    var fragment := 0;
    while fragment < Pow2(layer)
      invariant fragment <= Pow2(layer)
      invariant w.bits == old(w.bits) + Fragments(xs, alphabetSize, layer, 0, fragment)
    {
      BuildWaveletFragment(xs, w, alphabetSize, layer, fragment);
      FragmentsStep(xs, alphabetSize, layer, fragment);
      fragment := fragment + 1;
    }
  }

  /**
   * `build_wavelet_tree` for values `xs` of `width` bits: for every layer,
   * every fragment of that layer in order, the bits of one fragment pass.
   */
  method BuildWaveletTree(xs: seq<nat>, width: nat) returns (bits: seq<bool>)
    ensures bits == Build(xs, width)
  {
    var w := new BitArrayBuilder();
    var numLayers := width;
    var alphabetSize := Pow2(width);
    var layer := 0;
    while layer < numLayers
      invariant layer <= numLayers && w.bits == BuildLayers(xs, width, layer)
    {
      BuildWaveletLayer(xs, w, alphabetSize, layer);
      layer := layer + 1;
    }
    bits := w.bits;
  }

  /**
   * The bits written for values of `width` bits, with `width` layers, make a
   * valid tree: it stores `|xs|` values and encodes `xs`.
   */
  lemma BuiltTree(xs: seq<nat>, width: nat)
    requires width != 0 && AllBelow(xs, Pow2(width))
    ensures FromParts(Build(xs, width), width).Ok?
    ensures FromParts(Build(xs, width), width).value.Encodes(xs)
    ensures FromParts(Build(xs, width), width).value.Len() == |xs|
  {
    var tree := WaveletTree(Build(xs, width), width);
    assert IsBuild(tree.bits, xs, width);
    tree.EncodedLen(xs);
  }

  /**
   * Writing a tree for `xs` and decoding it gives `xs` back; the tree has
   * one position per value.
   */
  method BuildThenDecode(xs: seq<nat>, width: nat) returns (r: Result<seq<nat>>)
    requires width != 0 && AllBelow(xs, Pow2(width))
    ensures r == Ok(xs)
  {
    var bits := BuildWaveletTree(xs, width);
    BuiltTree(xs, width);
    var tree := FromParts(bits, width).value;
    r := tree.Decode(xs);
  }

  /**
   * Writing a tree for `xs`, looking up `entry` with `lookup` as written and
   * listing the slice: the positions of the symbol the descent for `entry`
   * reaches, which is `entry` itself inside the alphabet and the largest
   * symbol above it; nothing when that symbol does not occur.
   */
  method BuildThenFind(xs: seq<nat>, width: nat, entry: nat) returns (r: Result<seq<nat>>)
    requires width != 0 && AllBelow(xs, Pow2(width))
    ensures Clamp(entry, width) in xs ==> r == Ok(Positions(xs, Clamp(entry, width)))
    ensures Clamp(entry, width) !in xs ==> r == Ok([])
  {
    var bits := BuildWaveletTree(xs, width);
    BuiltTree(xs, width);
    var tree := FromParts(bits, width).value;
    var slice := tree.Lookup(entry, xs);
    if slice.None? {
      return Ok([]);
    }
    r := slice.value.Iter(xs);
  }

  /**
   * Writing a tree for `xs`, looking up `entry` with the corrected lookup and
   * listing the slice: exactly the positions of `entry`, or nothing when
   * `entry` does not occur, whatever its width.
   */
  method BuildThenFindExact(xs: seq<nat>, width: nat, entry: nat) returns (r: Result<seq<nat>>)
    requires width != 0 && AllBelow(xs, Pow2(width))
    ensures entry in xs ==> r == Ok(Positions(xs, entry))
    ensures entry !in xs ==> r == Ok([])
  {
    var bits := BuildWaveletTree(xs, width);
    BuiltTree(xs, width);
    var tree := FromParts(bits, width).value;
    var slice := tree.LookupExact(entry, xs);
    if slice.None? {
      return Ok([]);
    }
    r := slice.value.Iter(xs);
  }
}
