/**
From routing records to training samples in scripts/train_predictor.py: per-token blocks of records are shuffled, each
token contributes cross-layer pairs, and the train/test split is made by token.
*/
module RoutingPairs {
  import opened Arith
  import opened RoutingRecords
  import Seqs

  // ---- load_multiple_routing_files

  /** The number of whole tokens among n records. */
  function Tokens(n: nat, layers: nat): (t: nat)
    requires layers > 0
    ensures t == n / layers && t * layers <= n < t * layers + layers
  {
    DivMod(n, layers);
    n / layers
  }

  lemma BlockEnd(t: nat, layers: nat, n: nat)
    requires layers > 0 && t < Tokens(n, layers)
    ensures t * layers + layers <= n
  {
    MulMonotone(t + 1, Tokens(n, layers), layers);
    assert (t + 1) * layers == t * layers + layers;
  }

  /** The records of token t. */
  function Block<T>(records: seq<T>, layers: nat, t: nat): (b: seq<T>)
    requires layers > 0 && t < Tokens(|records|, layers)
    ensures |b| == layers
  {
    BlockEnd(t, layers, |records|);
    records[t * layers..t * layers + layers]
  }

  /** The per-token blocks of one file; records beyond the last whole token are dropped. */
  function Blocks<T>(records: seq<T>, layers: nat): (bs: seq<seq<T>>)
    requires layers > 0
    ensures |bs| == Tokens(|records|, layers)
    ensures forall t :: 0 <= t < |bs| ==> |bs[t]| == layers
  {
    seq(Tokens(|records|, layers), t requires 0 <= t < Tokens(|records|, layers) => Block(records, layers, t))
  }

  function AllBlocks<T>(files: seq<seq<T>>, layers: nat): (bs: seq<seq<T>>)
    requires layers > 0
    ensures forall t :: 0 <= t < |bs| ==> |bs[t]| == layers
  {
    if files == [] then [] else Blocks(files[0], layers) + AllBlocks(files[1..], layers)
  }

  ghost predicate IsShuffle(perm: seq<nat>, n: nat) {
    && |perm| == n && (forall i :: 0 <= i < n ==> perm[i] < n)
    && forall i, j :: 0 <= i < j < n ==> perm[i] != perm[j]
  }

  function Join<T>(bs: seq<seq<T>>): seq<T> { if bs == [] then [] else bs[0] + Join(bs[1..]) }

  function Reorder<T>(bs: seq<T>, perm: seq<nat>): (r: seq<T>)
    requires forall i :: 0 <= i < |perm| ==> perm[i] < |bs|
    ensures |r| == |perm|
  {
    seq(|perm|, i requires 0 <= i < |perm| => bs[perm[i]])
  }

  lemma {:induction false} JoinIndex<T>(bs: seq<seq<T>>, layers: nat, t: nat, l: nat)
    requires (forall i :: 0 <= i < |bs| ==> |bs[i]| == layers) && t < |bs| && l < layers
    ensures |Join(bs)| == |bs| * layers && t * layers + l < |Join(bs)|
    ensures Join(bs)[t * layers + l] == bs[t][l]
  {
    JoinLength(bs, layers);
    MulMonotone(t + 1, |bs|, layers);
    assert (t + 1) * layers == t * layers + layers;
    if t > 0 {
      JoinIndex(bs[1..], layers, t - 1, l);
      assert (t - 1) * layers + l == t * layers + l - layers;
    }
  }

  lemma {:induction false} JoinLength<T>(bs: seq<seq<T>>, layers: nat)
    requires forall i :: 0 <= i < |bs| ==> |bs[i]| == layers
    ensures |Join(bs)| == |bs| * layers
  {
    if bs != [] {
      JoinLength(bs[1..], layers);
      assert |bs| * layers == layers + (|bs| - 1) * layers;
    }
  }

  datatype Result<T> = Ok(value: T) | Failed

  /** The loader with the shuffle given as a parameter: all files' blocks, in shuffled order, end to end. */
  method LoadShuffled<T>(files: seq<seq<T>>, layers: nat, perm: seq<nat>) returns (r: Result<seq<T>>)
    requires layers > 0 && IsShuffle(perm, |AllBlocks(files, layers)|)
    ensures r == if AllBlocks(files, layers) == [] then Failed else Ok(Join(Reorder(AllBlocks(files, layers), perm)))
  {
    var blocks := CollectBlocks(files, layers);
    if blocks == [] {
      return Failed;
    }
    var out := Concatenate(blocks, perm);
    return Ok(out);
  }

  method CollectBlocks<T>(files: seq<seq<T>>, layers: nat) returns (blocks: seq<seq<T>>)
    requires layers > 0
    ensures blocks == AllBlocks(files, layers)
  {
    hide Blocks;
    blocks := [];
    for f := 0 to |files|
      invariant AllBlocks(files, layers) == blocks + AllBlocks(files[f..], layers)
    {
      assert files[f..][0] == files[f] && files[f..][1..] == files[f + 1..];
      var mine := Chop(files[f], layers);
      Seqs.Assoc(blocks, mine, AllBlocks(files[f + 1..], layers));
      blocks := blocks + mine;
    }
    assert blocks + [] == blocks;
  }

  method Concatenate<T>(blocks: seq<seq<T>>, perm: seq<nat>) returns (out: seq<T>)
    requires forall i :: 0 <= i < |perm| ==> perm[i] < |blocks|
    ensures out == Join(Reorder(blocks, perm))
  {
    out := [];
    ghost var order := Reorder(blocks, perm);
    for i := 0 to |perm|
      invariant Join(order) == out + Join(order[i..])
    {
      assert order[i..][0] == order[i] && order[i..][1..] == order[i + 1..];
      Seqs.Assoc(out, blocks[perm[i]], Join(order[i + 1..]));
      out := out + blocks[perm[i]];
    }
    assert out + [] == out;
  }

  // ---- the expert rows, padded to one width

  /** The padded expert rows of one file, all of the file's own width. */
  datatype ExpertFile = ExpertFile(rows: seq<seq<int>>, width: nat)

  ghost predicate OwnWidth(f: ExpertFile) { forall i :: 0 <= i < |f.rows| ==> |f.rows[i]| == f.width }

  function RowsOf(files: seq<ExpertFile>): (r: seq<seq<seq<int>>>)
    ensures |r| == |files|
  {
    seq(|files|, i requires 0 <= i < |files| => files[i].rows)
  }

  /** max_K_global: the widest file that contributes a whole token. */
  function GlobalWidth(files: seq<ExpertFile>, layers: nat): nat
    requires layers > 0
  {
    if files == [] then 0 else
      var rest := GlobalWidth(files[1..], layers);
      if Tokens(|files[0].rows|, layers) > 0 && files[0].width > rest then files[0].width else rest
  }

  ghost predicate RowsWithin(block: seq<seq<int>>, w: nat) { forall l :: 0 <= l < |block| ==> |block[l]| <= w }

  ghost predicate AllWithin(blocks: seq<seq<seq<int>>>, w: nat) {
    forall t :: 0 <= t < |blocks| ==> RowsWithin(blocks[t], w)
  }

  /** No row of a contributing file is wider. */
  lemma {:induction false} RowsFit(files: seq<ExpertFile>, layers: nat)
    requires layers > 0 && forall i :: 0 <= i < |files| ==> OwnWidth(files[i])
    ensures AllWithin(AllBlocks(RowsOf(files), layers), GlobalWidth(files, layers))
  {
    hide Tokens, Blocks, AllWithin, OwnWidth;
    if files == [] {
      NothingWithin(0);
    } else {
      RowsFit(files[1..], layers);
      assert RowsOf(files)[1..] == RowsOf(files[1..]);
      var w := GlobalWidth(files, layers);
      Wider(AllBlocks(RowsOf(files[1..]), layers), GlobalWidth(files[1..], layers), w);
      OwnBlocks(files[0], layers, w);
      BothWithin(Blocks(files[0].rows, layers), AllBlocks(RowsOf(files[1..]), layers), w);
    }
  }

  /** And the width is that of some contributing file, or 0 without one. */
  lemma {:induction false} WidthUsed(files: seq<ExpertFile>, layers: nat)
    requires layers > 0
    ensures GlobalWidth(files, layers) == 0 ||
      exists i :: 0 <= i < |files| && |files[i].rows| >= layers && files[i].width == GlobalWidth(files, layers)
  {
    if files != [] {
      WidthUsed(files[1..], layers);
      var w := GlobalWidth(files[1..], layers);
      if Tokens(|files[0].rows|, layers) > 0 {
        WholeToken(|files[0].rows|, layers);
      }
      if w != 0 {
        var i :| 0 <= i < |files[1..]| && |files[1..][i].rows| >= layers && files[1..][i].width == w;
        assert files[i + 1] == files[1..][i];
      }
    }
  }

  lemma WholeToken(n: nat, layers: nat)
    requires layers > 0 && Tokens(n, layers) > 0
    ensures n >= layers
  {
    MulMonotone(1, Tokens(n, layers), layers);
  }

  lemma NothingWithin(w: nat)
    ensures AllWithin([], w)
  {}

  lemma Wider(blocks: seq<seq<seq<int>>>, v: nat, w: nat)
    requires AllWithin(blocks, v) && v <= w
    ensures AllWithin(blocks, w)
  {
    forall t | 0 <= t < |blocks| ensures RowsWithin(blocks[t], w) { assert RowsWithin(blocks[t], v); }
  }

  lemma BothWithin(a: seq<seq<seq<int>>>, b: seq<seq<seq<int>>>, w: nat)
    requires AllWithin(a, w) && AllWithin(b, w)
    ensures AllWithin(a + b, w)
  {
    hide RowsWithin;
  }

  lemma OwnBlocks(f: ExpertFile, layers: nat, w: nat)
    requires layers > 0 && OwnWidth(f) && (Tokens(|f.rows|, layers) > 0 ==> f.width <= w)
    ensures AllWithin(Blocks(f.rows, layers), w)
  {
    var bs := Blocks(f.rows, layers);
    hide Blocks, Tokens;
    forall t | 0 <= t < |bs| ensures RowsWithin(bs[t], w) {
      forall l | 0 <= l < |bs[t]| ensures |bs[t][l]| <= w { BlockRow(f.rows, layers, t, l); }
    }
  }

  lemma BlockRow<T>(records: seq<T>, layers: nat, t: nat, l: nat)
    requires layers > 0 && t < Tokens(|records|, layers) && l < layers
    ensures 0 <= t * layers + l < |records| && Blocks(records, layers)[t][l] == records[t * layers + l]
  {
    BlockEnd(t, layers, |records|);
    MulNonNegative(t, layers);
  }

  /** Every block's rows padded with -1. */
  ghost predicate PaddedTo(blocks: seq<seq<seq<int>>>, out: seq<seq<seq<int>>>, width: nat) {
    |out| == |blocks| && forall t :: 0 <= t < |blocks| ==> PaddedBlock(blocks[t], out[t], width)
  }

  ghost predicate PaddedBlock(block: seq<seq<int>>, out: seq<seq<int>>, width: nat) {
    |out| == |block| && forall l :: 0 <= l < |block| ==> |block[l]| <= width && out[l] == PadTo(block[l], width)
  }

  method PadBlock(block: seq<seq<int>>, width: nat) returns (out: seq<seq<int>>)
    requires RowsWithin(block, width)
    ensures PaddedBlock(block, out, width)
  {
    out := [];
    for l := 0 to |block|
      invariant |out| == l && forall k :: 0 <= k < l ==> out[k] == PadTo(block[k], width)
    {
      var row := if |block[l]| < width then block[l] + seq(width - |block[l]|, i => -1) else block[l];
      assert row == PadTo(block[l], width);
      out := out + [row];
    }
  }

  /** The expert rows of the loader: blocks of all files, padded to the global width, shuffled and concatenated. */
  method LoadExperts(files: seq<ExpertFile>, layers: nat, perm: seq<nat>) returns (r: Result<seq<seq<int>>>, width: nat)
    requires layers > 0 && (forall i :: 0 <= i < |files| ==> OwnWidth(files[i]))
    requires IsShuffle(perm, |AllBlocks(RowsOf(files), layers)|)
    ensures width == GlobalWidth(files, layers) && (r.Failed? <==> AllBlocks(RowsOf(files), layers) == [])
    ensures r.Ok? ==>
      exists padded :: PaddedTo(AllBlocks(RowsOf(files), layers), padded, width) && IndexedBy(r.value, padded, perm)
  {
    hide AllBlocks, PaddedBlock, RowsWithin;
    width := 0;
    for f := 0 to |files|
      invariant GlobalWidth(files, layers) == Larger(GlobalWidth(files[f..], layers), width)
    {
      assert files[f..][0] == files[f] && files[f..][1..] == files[f + 1..];
      if Tokens(|files[f].rows|, layers) > 0 && files[f].width > width { width := files[f].width; }
    }
    RowsFit(files, layers);
    var blocks := CollectBlocks(RowsOf(files), layers);
    var padded: seq<seq<seq<int>>> := [];
    for t := 0 to |blocks|
      invariant |padded| == t && forall k :: 0 <= k < t ==> PaddedBlock(blocks[k], padded[k], width)
    {
      var b := PadBlock(blocks[t], width);
      padded := padded + [b];
    }
    if padded == [] {
      return Failed, width;
    }
    var out := Concatenate(padded, perm);
    assert IndexedBy(out, padded, perm);
    return Ok(out), width;
  }

  ghost predicate IndexedBy<T>(out: seq<T>, blocks: seq<seq<T>>, perm: seq<nat>) {
    (forall i :: 0 <= i < |perm| ==> perm[i] < |blocks|) && out == Join(Reorder(blocks, perm))
  }

  function Larger(a: nat, b: nat): nat { if a > b then a else b }

  /** Padding is invisible to consumers, who skip negative entries, and gives all rows one width. */
  lemma PaddingInvisible(block: seq<seq<int>>, out: seq<seq<int>>, width: nat, l: nat)
    requires PaddedBlock(block, out, width) && l < |block|
    ensures |out[l]| == width && DropPadding(out[l]) == DropPadding(block[l])
  {
    hide DropPadding;
    var e := block[l];
    DropPaddingAppend(e, seq(width - |e|, i => -1));
    DropPaddingNone(width - |e|);
    assert DropPadding(e) + [] == DropPadding(e);
  }

  method Chop<T>(records: seq<T>, layers: nat) returns (bs: seq<seq<T>>)
    requires layers > 0
    ensures bs == Blocks(records, layers)
  {
    bs := [];
    for t := 0 to Tokens(|records|, layers)
      invariant bs == Blocks(records, layers)[..t]
    {
      BlockEnd(t, layers, |records|);
      var base := t * layers;
      bs := bs + [records[base..base + layers]];
    }
  }

  // ---- build_cross_layer_pairs

  /** A sample: the input record's hidden state is paired with the target record's layer and experts. */
  datatype Pair<T> = Pair(input: T, target: T)

  function PairCount(n: nat, layers: nat): nat
    requires layers > 0
  {
    MulNonNegative(Tokens(n, layers), layers - 1);
    Tokens(n, layers) * (layers - 1)
  }

  /** The pair that belongs at sample index k. */
  function PairAt<T>(records: seq<T>, layers: nat, k: nat): Pair<T>
    requires layers > 1 && k < PairCount(|records|, layers)
  {
    var t, l := k / (layers - 1), k % (layers - 1);
    PairInRange(|records|, layers, k);
    Pair(records[t * layers + l], records[t * layers + l + 1])
  }

  lemma PairInRange(n: nat, layers: nat, k: nat)
    requires layers > 1 && k < PairCount(n, layers)
    ensures var t, l := k / (layers - 1), k % (layers - 1);
      0 <= t < Tokens(n, layers) && 0 <= l < layers - 1 && t * layers + l + 1 < n
  {
    var m := layers - 1;
    var t, l := k / m, k % m;
    DivMod(k, m);
    if t >= Tokens(n, layers) { MulMonotone(Tokens(n, layers), t, m); }
    BlockEnd(t, layers, n);
  }

  /** The two nested loops. Failure is the divisibility assert, or np.stack on no samples. */
  method BuildCrossLayerPairs<T>(records: seq<T>, layers: nat) returns (r: Result<seq<Pair<T>>>)
    requires layers > 0
    ensures r.Failed? <==> |records| % layers != 0 || PairCount(|records|, layers) == 0
    ensures r.Ok? ==> |r.value| == PairCount(|records|, layers)
    ensures r.Ok? ==> layers > 1 && forall k :: 0 <= k < |r.value| ==> r.value[k] == PairAt(records, layers, k)
  {
    if |records| % layers != 0 {
      return Failed;
    }
    var m := layers - 1;
    var pairs: seq<Pair<T>> := [];
    for t := 0 to Tokens(|records|, layers)
      invariant |pairs| == t * m && t * m <= PairCount(|records|, layers)
      invariant layers > 1 ==> forall k :: 0 <= k < |pairs| ==> pairs[k] == PairAt(records, layers, k)
    {
      BlockEnd(t, layers, |records|);
      NextRow(t, m, Tokens(|records|, layers));
      for l := 0 to m
        invariant |pairs| == t * m + l
        invariant layers > 1 ==> forall k :: 0 <= k < |pairs| ==> pairs[k] == PairAt(records, layers, k)
      {
        DivUnique(t * m + l, m, t, l);
        pairs := pairs + [Pair(records[t * layers + l], records[t * layers + l + 1])];
      }
    }
    if pairs == [] {
      return Failed;
    }
    return Ok(pairs);
  }

  lemma NextRow(t: nat, m: nat, n: nat)
    requires t < n
    ensures (t + 1) * m == t * m + m <= n * m
  {
    MulMonotone(t + 1, n, m);
  }

  // ---- the split

  /** np.arange(lo, hi) without the samples whose target layer is skipped. */
  function Kept(lo: nat, hi: nat, skipped: nat -> bool): (r: seq<nat>)
    requires lo <= hi
    ensures forall i :: 0 <= i < |r| ==> lo <= r[i] < hi && !skipped(r[i])
    ensures forall i, j :: 0 <= i < j < |r| ==> r[i] < r[j]
    decreases hi - lo
  {
    if lo == hi then [] else (if skipped(lo) then [] else [lo]) + Kept(lo + 1, hi, skipped)
  }

  lemma {:induction false} KeptAll(lo: nat, hi: nat, skipped: nat -> bool, k: nat)
    requires lo <= k < hi && !skipped(k)
    ensures k in Kept(lo, hi, skipped)
    decreases hi - lo
  {
    if lo < k { KeptAll(lo + 1, hi, skipped, k); }
  }

  /** The position in the shuffled order of the token a sample comes from. */
  function TokenOf(k: nat, layers: nat): nat
    requires layers > 1
  {
    k / (layers - 1)
  }

  /** After any shuffle, every sample joins layer l and layer l + 1 of one and the same original token. */
  lemma PairsStayInToken<T>(blocks: seq<seq<T>>, layers: nat, perm: seq<nat>, k: nat)
    requires layers > 1 && (forall i :: 0 <= i < |blocks| ==> |blocks[i]| == layers) && IsShuffle(perm, |blocks|)
    requires k < |blocks| * (layers - 1)
    ensures var records := Join(Reorder(blocks, perm));
      var t, l := TokenOf(k, layers), k % (layers - 1);
      && |records| / layers == |blocks| && |records| % layers == 0
      && 0 <= t < |perm| && 0 <= l < layers - 1
      && PairAt(records, layers, k) == Pair(blocks[perm[t]][l], blocks[perm[t]][l + 1])
  {
    hide PairAt;
    var order := Reorder(blocks, perm);
    var records := Join(order);
    JoinLength(order, layers);
    DivUnique(|records|, layers, |blocks|, 0);
    PairInRange(|records|, layers, k);
    var t, l := k / (layers - 1), k % (layers - 1);
    JoinIndex(order, layers, t, l);
    JoinIndex(order, layers, t, l + 1);
    PairAtIs(records, layers, k);
  }

  lemma PairAtIs<T>(records: seq<T>, layers: nat, k: nat)
    requires layers > 1 && k < PairCount(|records|, layers)
    ensures var t, l := k / (layers - 1), k % (layers - 1);
      && 0 <= t * layers + l && t * layers + l + 1 < |records|
      && PairAt(records, layers, k) == Pair(records[t * layers + l], records[t * layers + l + 1])
  {
    PairInRange(|records|, layers, k);
  }

  /** No original token has samples on both sides of the split, with or without skipped layers. */
  lemma NoTokenOnBothSides(layers: nat, tokens: nat, split: nat, perm: seq<nat>, skipped: nat -> bool, i: nat, j: nat)
    requires layers > 1 && split <= tokens && IsShuffle(perm, tokens)
    requires split * (layers - 1) <= tokens * (layers - 1)
    requires i < |Kept(0, split * (layers - 1), skipped)|
    requires j < |Kept(split * (layers - 1), tokens * (layers - 1), skipped)|
    ensures var a := Kept(0, split * (layers - 1), skipped)[i];
      var b := Kept(split * (layers - 1), tokens * (layers - 1), skipped)[j];
      && TokenOf(a, layers) < split <= TokenOf(b, layers) < tokens
      && perm[TokenOf(a, layers)] != perm[TokenOf(b, layers)]
  {
    hide Kept;
    var m := layers - 1;
    var a := Kept(0, split * m, skipped)[i];
    var b := Kept(split * m, tokens * m, skipped)[j];
    DivMod(a, m);
    DivMod(b, m);
    if TokenOf(a, layers) >= split { MulMonotone(split, a / m, m); }
    if TokenOf(b, layers) >= tokens { MulMonotone(tokens, b / m, m); }
    if TokenOf(b, layers) < split { NextRow(b / m, m, split); }
  }
}
