# Wavelet tree and integer conversions of terminus-store

This project models two files of the `structure` module of terminus-store.

- `src/structure/wavelettree.rs` holds the wavelet tree. It stores `n` values of
  `num_layers` bits each as `num_layers` layers of `n` bits. Layer `l` is written
  fragment by fragment. Fragment `f` covers the alphabet interval
  `[step * f, step * (f + 1))` with `step = 2^num_layers / 2^l`. It holds one bit
  per value in that interval, in input order, and the bit is `value >= mid`.
  `decode_one` reads a value back by descending the layers with rank queries.
  `lookup` descends towards a value and records one `(bit, start, end)` range
  per layer. `WaveletSlice::entry` climbs back up from the last range with
  select queries to find the position of the k-th occurrence.
- `src/structure/convert.rs` holds the conversion helpers of the 64-bit target:
  `into_usize`, `from_usize`, `u8::truncate` and `bitmask`.

The project has these modules:

- `Outcome`: `Option`, and `Result`, whose `Panic(message)` stands for a Rust panic.
- `BitIndex`: rank and select over a `seq<bool>`, the queries the bit index answers.
- `Alphabet`: powers of two, and the interval a descent towards a symbol reaches at each depth.
- `Layout`: the bits `build_wavelet_tree` writes, as pure functions (`Build`), and the same layout seen as repeated halving of the alphabet (`Split`).
- `Descent`: what one layer of a descent reads in a built tree.
- `Wavelet`: `WaveletTree` and `WaveletSlice`.
  - The loops of `decode_one`, `lookup` and `entry` are methods with loop invariants.
  - Each method takes a ghost sequence `vs`. When the tree is the one built from `vs`, the method's contract says what the result is in terms of `vs`.
- `Builder`: the writer `BitArrayBuilder` as a class with a `push` method, and the fragment, layer and tree loops of `build_wavelet_tree`. The fragment loop is proved to write `BuildFragment`, the layer loop `Fragments` over all fragments of the layer, and the tree loop `Build(xs, width)`.
- `Convert`: the conversions over newtypes `u8`, `u16`, `u32`, `u64` and `usize`, with `&` modelled bit by bit (`And`).

## Model

| member | source | states |
|---|---|---|
| Wavelet.FromParts | src/structure/wavelettree.rs:58-65 | Panics with the assertion message when `num_layers == 0`, and with the "not a multiple" message when the length is not a multiple of it; otherwise gives the tree, whose `len() * num_layers` is the bit length |
| Wavelet.WaveletTree.Valid | src/structure/wavelettree.rs:59-62 | The check `from_parts` makes: at least one layer and a length that is a multiple of the layer count; `FromParts` is `Ok` exactly when it holds |
| Wavelet.WaveletTree.Narrow | src/structure/wavelettree.rs:129-136 | The locals after one layer of `lookup`; `NarrowOk` and `NarrowFollows` state that it moves to the half holding the clamped entry and keeps the rows of that half |
| Descent.Descend | src/structure/wavelettree.rs:94-109 | The locals after one layer of `decode_one`; `DescendOk`, `FollowLayer` and `DecodeAdvance` state that it halves the interval, keeps the offset in the row range, and follows the decoded value in a built tree |
| Wavelet.WaveletSlice.Len | src/structure/wavelettree.rs:22-31 | The rank of the side taken over the last recorded range; `LenCounts` states it is the number of occurrences of the symbol |
| Layout.BuildFragment | src/structure/wavelettree.rs:151-155 | The bits of fragment `f` of layer `l`, over `[step * f, step * (f + 1))` split at its midpoint; `BuildWaveletFragment` is proved to write it |
| Layout.Fragments | src/structure/wavelettree.rs:175-182 | Fragments `first .. first + count` of a layer in order; `FragmentsConcat` and `FragmentsAreSplit` state how they concatenate and that they are the halving of the interval they cover |
| Layout.Layer | src/structure/wavelettree.rs:175-178 | All `2^l` fragments of layer `l`; `LayerIsSplit` states it is the `l`-fold halving of the alphabet |
| Layout.BuildLayers | src/structure/wavelettree.rs:175-182 | Layers `0 .. k` one after another; `BuiltLayer` states where each layer sits |
| Layout.Build | src/structure/wavelettree.rs:170-186 | The bits `build_wavelet_tree` writes; `BuildWaveletTree` is proved to write it, and `BuildLength` states it has `width * n` bits |
| Wavelet.WaveletTree.Len | src/structure/wavelettree.rs:67-69 | For a tree `from_parts` accepts, `len() * num_layers == bits.len()`: `len()` is the exact number of rows |
| Wavelet.WaveletTree.NumLayers | src/structure/wavelettree.rs:71-73 | The layer count the tree was made with |
| Wavelet.WaveletTree.EncodedLen | src/structure/wavelettree.rs:67-69 | The tree built from `vs` is accepted by `from_parts` and its `len()` is the length of `vs` |
| Wavelet.WaveletTree.Decode | src/structure/wavelettree.rs:75-78 | Never panics, yields `len()` values each below `2^num_layers`, and on the tree built from `vs` yields exactly `vs` |
| Wavelet.WaveletTree.DecodeOne | src/structure/wavelettree.rs:80-115 | Does not panic for `index < len()`; any value returned is below `2^num_layers`; on the tree built from `vs` it returns `vs[index]` |
| Wavelet.WaveletTree.DecodeLayer | src/structure/wavelettree.rs:88-109 | One loop iteration: the "index too high" panic cannot happen for an index in range, and the alphabet interval halves while the row range stays inside the layer and, for a built tree, follows the decoded value |
| Wavelet.WaveletTree.DescendOk | src/structure/wavelettree.rs:94-109 | The rank updates keep the offset inside the narrowed row range and the interval one power of two narrower |
| Wavelet.WaveletTree.FollowLayer | src/structure/wavelettree.rs:94-109 | In a built tree the rank updates give the interval, row range and offset of the decoded value one layer down |
| Descent.DecodeStart | src/structure/wavelettree.rs:81-86 | The initial locals (offset `index`, whole alphabet, all rows) are the state of the descent for position `index` |
| Descent.DecodeAdvance | src/structure/wavelettree.rs:87-110 | One layer of `decode_one` on a built tree turns the state for layer `l` into the state for layer `l + 1` |
| Wavelet.WaveletTree.Lookup | src/structure/wavelettree.rs:117-148 | On the tree built from `vs`, gives a slice exactly when the clamped entry occurs in `vs`, and that slice is the lookup's trace; any slice has one range per layer with the side the clamped entry takes and a positive length |
| Wavelet.WaveletTree.LookupLayer | src/structure/wavelettree.rs:125-140 | One loop iteration: an emptied row range means the symbol does not occur; otherwise the recorded step and narrowed locals keep the loop invariant |
| Wavelet.WaveletTree.LayerStep | src/structure/wavelettree.rs:125-136 | The recorded range is the current row range of layer `i`, its bit is the side of the midpoint the clamped entry lies on, and for a built tree it is the fragment of the interval reached |
| Wavelet.WaveletTree.NarrowOk | src/structure/wavelettree.rs:127-136 | Adding or removing `2^(num_layers - i - 1)` moves to the half holding the clamped entry, and the rows kept are the rank of the side taken |
| Wavelet.WaveletTree.NarrowFollows | src/structure/wavelettree.rs:129-136 | In a built tree the new row range holds exactly the values of the new interval |
| Wavelet.WaveletTree.LookupStart | src/structure/wavelettree.rs:118-123 | The initial locals cover the whole alphabet and all rows, and all layers fit in the bits |
| Wavelet.WaveletTree.LookupAdvance | src/structure/wavelettree.rs:128 | Pushing the step of layer `i` keeps the recorded steps valid and, for a built tree, traced |
| Wavelet.WaveletTree.LookupMissing | src/structure/wavelettree.rs:138-140 | An empty row range means no value of the interval, so not the clamped entry, occurs |
| Wavelet.WaveletTree.LookupFound | src/structure/wavelettree.rs:143-147 | After every layer the slice is valid with a positive length and, in a built tree, the clamped entry occurs |
| Wavelet.WaveletTree.LookupExact | src/structure/wavelettree.rs:117-148 | Corrected `lookup`: `None` for an entry of more than `num_layers` bits; on the tree built from `vs`, a slice exactly when `entry` occurs, whose symbol is `entry` |
| Wavelet.LookupPastAlphabet | src/structure/wavelettree.rs:127-130 | `lookup(2)` in the one-layer tree of `[1]` returns a slice, the slice of symbol `1` |
| Wavelet.BuildOfOne | src/structure/wavelettree.rs:151-186 | The tree written for `[1]` with one layer is the single bit `true` |
| Wavelet.RecordedAt | src/structure/wavelettree.rs:124-136 | Every recorded step lies in its own layer and inside the bits, and took the side of the symbol |
| Wavelet.RecordedBit | src/structure/wavelettree.rs:124-136 | Step `i` of a lookup of a symbol below `2^num_layers` carries bit `num_layers - 1 - i` of it, over a range inside `[i * len, (i + 1) * len)` |
| Wavelet.TracedAt | src/structure/wavelettree.rs:124-136 | Every traced step is the range the lookup looks at in its layer of the built tree |
| Wavelet.LastRange | src/structure/wavelettree.rs:22-31 | In the last layer the rows of the side taken count the occurrences of the symbol |
| Wavelet.WaveletSlice.Symbol | src/structure/wavelettree.rs:117-130 | The symbol a slice describes lies in the alphabet |
| Wavelet.WaveletSlice.LenCounts | src/structure/wavelettree.rs:22-31 | `len()` (the function `Wavelet.WaveletSlice.Len`) of a slice made in the tree built from `vs` is the number of positions of `vs` holding the symbol |
| Wavelet.WaveletSlice.EntryStart | src/structure/wavelettree.rs:34-38 | For `index < len()`, `index + 1` counts the k-th occurrence and those before it among the rows of the symbol |
| Wavelet.WaveletSlice.EntryBack | src/structure/wavelettree.rs:39-46 | Each select succeeds and, after `- start + 1`, counts the occurrence among the rows of the interval one layer up |
| Wavelet.WaveletSlice.EntryEnd | src/structure/wavelettree.rs:48 | At the top layer `result - 1` is the position itself |
| Wavelet.WaveletSlice.Entry | src/structure/wavelettree.rs:33-49 | Panics "entry is out of bounds" when `index >= len()`; otherwise, for a slice of the tree built from `vs`, returns the `index`-th position of `vs` holding the symbol |
| Wavelet.WaveletSlice.Iter | src/structure/wavelettree.rs:51-54 | Yields `len()` entries; for a slice of the tree built from `vs` these are all the positions holding the symbol, in order |
| Layout.Positions | src/structure/wavelettree.rs:51-54 | Lists one position per occurrence of `c`, each holding `c` |
| Layout.PositionsIncreasing | src/structure/wavelettree.rs:51-54 | The positions are strictly increasing |
| Layout.PositionsComplete | src/structure/wavelettree.rs:51-54 | Every position holding `c` is listed |
| Layout.PositionBefore | src/structure/wavelettree.rs:33-49 | The k-th listed position holds `c` and has exactly `k` occurrences of `c` before it |
| Layout.FragmentBits | src/structure/wavelettree.rs:157-167 | A fragment scan emits one bit per value inside the fragment's interval |
| Layout.FragmentBitsOcc | src/structure/wavelettree.rs:157-167 | A fragment holds one `true` per value in its upper half and one `false` per value in its lower half |
| Layout.FragmentsConcat | src/structure/wavelettree.rs:175-182 | The fragments of a layer written in order concatenate |
| Layout.FragmentsAreSplit | src/structure/wavelettree.rs:152-155 | `2^d` consecutive fragments of width `step` are the `d`-fold halving of the interval they cover |
| Layout.LayerIsSplit | src/structure/wavelettree.rs:174-182 | Layer `l` is the `l`-fold halving of the alphabet `[0, 2^num_layers)` |
| Layout.SplitLength | src/structure/wavelettree.rs:151-168 | A halving holds one bit per value in its interval |
| Layout.BuildLength | src/structure/wavelettree.rs:170-186 | The tree written for `n` values in the alphabet has `num_layers * n` bits |
| Layout.LayerStartIsProduct | src/structure/wavelettree.rs:88 | Layer `i` starts at bit `i * len` |
| Layout.BuiltLayer | src/structure/wavelettree.rs:88-95 | In a built tree, the `len` bits from `i * len` are layer `i` |
| Layout.FragmentInLayer | src/structure/wavelettree.rs:125-126 | The fragment of the interval reached sits in its layer after one bit per value below the interval |
| Layout.FragmentInBlock | src/structure/wavelettree.rs:125-126 | The same, for a layer held inside a larger bit sequence |
| Layout.BeforeFilter | src/structure/wavelettree.rs:98 | The values of an interval before position `p` are those of the prefix `xs[..p]` |
| Descent.FragmentRankFilter | src/structure/wavelettree.rs:98-107 | Over the rows of a prefix, rank1 counts its values in the upper half and rank0 those in the lower half |
| Descent.FragmentRank | src/structure/wavelettree.rs:98-105 | The same, counted by position |
| Descent.FragmentBit | src/structure/wavelettree.rs:92 | The bit read for the value at `p` says which half of the interval holds it |
| Descent.TreeFragment | src/structure/wavelettree.rs:94-95 | The rows of the interval reached are the fragment written for it |
| Descent.HalfRank | src/structure/wavelettree.rs:100-107 | Over the rows of an interval, the ones count the values of its upper half and the zeros those of its lower half |
| Descent.RowInLayer | src/structure/wavelettree.rs:88-105 | The row followed lies inside its interval's rows, its bit names its half, and the ranks before it count the earlier values of each half |
| Descent.EntryStep | src/structure/wavelettree.rs:41-44 | Selecting the `result`-th matching bit of the interval's rows lands on the row of the occurrence |
| BitIndex.Rank | src/structure/wavelettree.rs:26-29 | A rank over `[start, end)` is at most `end - start` |
| BitIndex.RankOcc | src/structure/wavelettree.rs:26-29 | A rank counts the matching bits of the slice |
| BitIndex.RankSplit | src/structure/wavelettree.rs:98-107 | Rank is additive over adjacent ranges |
| BitIndex.RankComplement | src/structure/wavelettree.rs:100-107 | rank0 and rank1 of a range add up to its length |
| BitIndex.RankAt | src/structure/wavelettree.rs:98-105 | Counting up to and including the bit read counts it, and no more than the range |
| BitIndex.Select | src/structure/wavelettree.rs:41-44 | A select that succeeds lands inside the range on a matching bit |
| BitIndex.SelectRank | src/structure/wavelettree.rs:41-44 | Select succeeds exactly when `1 <= k <= rank`, and `k - 1` matches lie before the position found |
| BitIndex.SelectUnique | src/structure/wavelettree.rs:41-44 | A matching bit with `k - 1` matches before it is what select finds |
| Alphabet.Clamp | src/structure/wavelettree.rs:127-130 | The symbol a descent for `e` reaches is below `2^num_layers`, and is `e` for an `e` in the alphabet |
| Alphabet.IntervalHalving | src/structure/wavelettree.rs:97-104 | Each layer moves to the half holding the symbol, whose midpoint is `2^(num_layers - i - 1)` from either end |
| Alphabet.IntervalLeaf | src/structure/wavelettree.rs:112 | After `num_layers` halvings the interval is `[c, c + 1)` |
| Alphabet.SideIsBit | src/structure/wavelettree.rs:127 | The side taken in layer `i` is bit `num_layers - 1 - i` of the symbol |
| Alphabet.ClampHalving | src/structure/wavelettree.rs:127-136 | `lookup`'s side test and interval update follow the clamped entry |
| Builder.BitArrayBuilder.constructor | src/structure/wavelettree.rs:171 | A new writer holds no bits |
| Builder.BitArrayBuilder.Push | src/structure/wavelettree.rs:160 | `push` appends one bit |
| Builder.BuildWaveletFragment | src/structure/wavelettree.rs:151-168 | The fragment pass appends exactly the fragment's bits |
| Builder.FragmentsStep | src/structure/wavelettree.rs:175-182 | One more fragment pass extends a layer by that fragment |
| Builder.BuildWaveletLayer | src/structure/wavelettree.rs:175-182 | The passes over fragments `0 .. 2^l` append layer `l` |
| Builder.BuildWaveletTree | src/structure/wavelettree.rs:170-186 | The passes over all layers write `Build(xs, width)` |
| Builder.BuiltTree | src/structure/wavelettree.rs:205-216 | The written bits pass `from_parts` with `width` layers, the tree encodes `xs`, and its `len()` is the length of `xs` |
| Builder.BuildThenDecode | src/structure/wavelettree.rs:192-219 | Building and decoding gives `xs` back |
| Builder.BuildThenFind | src/structure/wavelettree.rs:222-253 | Building and looking up `entry` with `lookup` as written lists exactly the positions of the symbol its descent reaches: `entry` itself below `2^width`, the largest symbol `2^width - 1` at or above it; nothing when that symbol does not occur |
| Builder.BuildThenFindExact | src/structure/wavelettree.rs:222-253 | Building and looking up `entry` with the corrected lookup lists exactly the positions of `entry`, or nothing when it does not occur, for every `entry` |
| Convert.U8IntoUsize | src/structure/convert.rs:34-38 | `into_usize` on `u8` keeps the value |
| Convert.U16IntoUsize | src/structure/convert.rs:34-38 | `into_usize` on `u16` keeps the value |
| Convert.U32IntoUsize | src/structure/convert.rs:34-38 | `into_usize` on `u32` keeps the value |
| Convert.U64IntoUsize | src/structure/convert.rs:34-38 | `into_usize` on `u64` keeps the value on a 64-bit target |
| Convert.U64FromUsize | src/structure/convert.rs:43-47 | `from_usize` into `u64` keeps the value |
| Convert.UsizeRoundTrip | src/structure/convert.rs:54-55 | `u64` to `usize` and back, and the other order, are identities |
| Convert.And | src/structure/convert.rs:80 | `x & y` is at most `x` and at most `y` |
| Convert.AndLowOnes | src/structure/convert.rs:80 | Masking with `k` low ones keeps `x mod 2^k` |
| Convert.AndIdempotent | src/structure/convert.rs:80 | Masking twice with the same mask is masking once |
| Convert.Truncate | src/structure/convert.rs:62-67 | `truncate` never increases the value |
| Convert.TruncateIsLowByte | src/structure/convert.rs:62-67 | `truncate(v)` is `v & 0xFF`, the low eight bits |
| Convert.TruncateKeepsByte | src/structure/convert.rs:62-67 | A value below 256 is kept, and truncating again changes nothing |
| Convert.UsizeBitMask | src/structure/convert.rs:77-82 | `bitmask` on `usize` is at most the mask and at most the value |
| Convert.U32BitMask | src/structure/convert.rs:84-89 | `bitmask` on `u32` is at most the mask and at most the value |
| Convert.BitMaskAllOnes | src/structure/convert.rs:77-82 | Masking `usize::MAX` gives the mask back |
| Convert.BitMaskIdempotent | src/structure/convert.rs:77-82 | Masking a masked value again changes nothing |
| Convert.BitMaskAgree | src/structure/convert.rs:77-89 | The `u32` and `usize` versions agree on values that fit in 32 bits |
| Convert.ConversionExamples | src/structure/convert.rs:96-120 | `1` converts to `1` both ways, and `truncate(0xaaaa) == 0xaa` |
| Convert.BitMaskExample | src/structure/convert.rs:124 | `usize::MAX.bitmask(0x0f) == 0x0f` |

## Left out

- Asynchronous I/O is not modelled: the futures and streams, `AsyncWrite`, the file load and store traits, the memory-backed stores and the log array file format. `build_wavelet_tree` is modelled only through the bits it writes, from the values of its input as a `seq<nat>`.
- The bit index's block and superblock files, and `build_bitindex`, are not part of this model. Rank, select and `get` are functions on `seq<bool>`.
- `BitArrayFileBuilder::finalize` is not modelled. The writer is the sequence of bits pushed.
- The log array width is a parameter, `width`. Every input value is required to be below `2^width`, which the log array guarantees.
- Builder.BuildWaveletTree: does not model the `usize` overflow of `2_usize.pow(width)` for a width of 64 or more, nor of `step * (fragment + 1)`. A debug build panics there and a release build wraps the alphabet size to 0 and writes no bits. The model writes `width * n` bits for every width, so `Layout.Build`, `Builder.BuiltTree`, `Builder.BuildThenDecode`, `Builder.BuildThenFind` and `Builder.BuildThenFindExact` match the source only for widths below 64.
- Wavelet.WaveletTree.DecodeOne: does not model `u64` overflow of `2_u64.pow(num_layers)` when there are 64 or more layers, nor of `i * len + range_start + offset`. Integers are unbounded here.
- Wavelet.WaveletTree.Lookup: does not model `u64` overflow of `alphabet_start + alphabet_end`, nor of `2_u64.pow(num_layers)`, when there are 64 or more layers.
- Wavelet.WaveletTree.Decode: `decode` clones the tree and maps `decode_one` lazily over `0 .. len()` before collecting; the model builds the vector with a loop.
- Wavelet.WaveletSlice.Iter: `iter` is a lazy iterator; the model collects all entries into a `Result<seq<nat>>`. A panic in one entry becomes a `Panic` result for the whole iteration.
- Only the 64-bit instantiation of `convert.rs` is modelled. The 32-bit `impls!` expansion, the compile-time assertion that `usize` has at least 32 bits, and `u32::from_usize` are compiler and target concerns.
- `src/structure/mod.rs` has only module declarations and is not part of this model.

## Findings

| source | as written | input that shows it | evidently intended | confidence | as-written member | corrected member |
|---|---|---|---|---|---|---|
| src/structure/wavelettree.rs:127-130 | `lookup` takes the upper side in every layer for an entry of `2^num_layers` or more, so it describes the largest symbol instead | the one-layer tree built from `[1]`: `lookup(2)` returns `Some`, a slice of the positions of `1` | `None` for an entry outside the alphabet, which cannot occur in the tree | not executed | Wavelet.LookupPastAlphabet | Wavelet.WaveletTree.LookupExact |
