/**
The target's key/value cache during verification, server/src/laguna/laguna_dflash_target.cpp:172-510 and
server/src/laguna/laguna_target_graph.cpp:1435-1470: one row per position, rows computed from the rows a token may see,
the rows of a tree pass, and their compaction to the accepted path.
*/
module KvRows {
  import opened DraftTree
  import opened TreeMask
  import Seqs

  /**
  A target model. `compute` is one token's forward pass: from the rows seen by full-attention layers, the rows seen by
  sliding-window layers, the position and the token it gives the token's own row (all layers) and the argmax that
  follows.
  */
  datatype Model<!R> = Model(compute: (seq<R>, seq<R>, nat, nat) -> (R, nat), window: nat, blank: R)

  /** max(0, p - W + 1). */
  function SlidingStart(p: nat, w: nat): nat { if p + 1 > w then p + 1 - w else 0 }

  /** The earlier rows inside the sliding window of the next position. */
  function Sliding<R>(rows: seq<R>, w: nat): seq<R> {
    var lo := SlidingStart(|rows|, w);
    if lo <= |rows| then rows[lo..] else []
  }

  /** A window of w positions counts the token itself, so it shows the w - 1 rows before it, or all when there are
      fewer. */
  lemma SlidingShows<R>(rows: seq<R>, w: nat)
    ensures var k := if w == 0 then 0 else if |rows| < w - 1 then |rows| else w - 1;
      Sliding(rows, w) == rows[|rows| - k..]
  {}

  /** One token's forward pass. */
  function Forward<R>(m: Model<R>, full: seq<R>, sliding: seq<R>, position: nat, token: nat): (R, nat) {
    m.compute(full, sliding, position, token)
  }

  /** One plain decode step on a cache. */
  function Step<R>(m: Model<R>, rows: seq<R>, token: nat): (R, nat) {
    Forward(m, rows, Sliding(rows, m.window), |rows|, token)
  }

  /** The cache after a context, one token at a time. */
  function Rows<R>(m: Model<R>, ctx: seq<nat>): (r: seq<R>)
    ensures |r| == |ctx|
  {
    if ctx == [] then [] else
      var before := Rows(m, ctx[..|ctx| - 1]);
      before + [Step(m, before, ctx[|ctx| - 1]).0]
  }

  /** The target's token after a context. */
  function Answer<R>(m: Model<R>, ctx: seq<nat>): nat {
    if ctx == [] then 0 else Step(m, Rows(m, ctx[..|ctx| - 1]), ctx[|ctx| - 1]).1
  }

  /** A target model as a function of the context. */
  type Target = seq<nat> -> nat

  function Answers<R>(m: Model<R>): Target { (ctx: seq<nat>) => Answer(m, ctx) }

  lemma RowsSnoc<R>(m: Model<R>, ctx: seq<nat>, x: nat)
    ensures Rows(m, ctx + [x]) == Rows(m, ctx) + [Step(m, Rows(m, ctx), x).0]
    ensures Answer(m, ctx + [x]) == Step(m, Rows(m, ctx), x).1
  {
    assert (ctx + [x])[..|ctx|] == ctx;
  }

  lemma {:induction false} RowsPrefix<R>(m: Model<R>, ctx: seq<nat>, k: nat)
    requires k <= |ctx|
    ensures Rows(m, ctx)[..k] == Rows(m, ctx[..k])
    decreases |ctx|
  {
    hide Step;
    if k == |ctx| {
      assert ctx[..k] == ctx;
    } else {
      RowsPrefix(m, ctx[..|ctx| - 1], k);
      assert ctx[..|ctx| - 1][..k] == ctx[..k];
    }
  }

  /** The row of the last token of a context. */
  function RowOf<R>(m: Model<R>, ctx: seq<nat>): R
    requires ctx != []
  {
    Rows(m, ctx)[|ctx| - 1]
  }

  /** The cache holds a context's rows. */
  ghost predicate Holds<R>(m: Model<R>, cache: seq<R>, ctx: seq<nat>) {
    |ctx| <= |cache| && cache[..|ctx|] == Rows(m, ctx)
  }

  // ---- one token and one batch

  /** laguna_step on one token: its row goes to the end of the cache. */
  method WriteStep<R>(m: Model<R>, cache: array<R>, committed: nat, token: nat, ghost ctx: seq<nat>) returns (next: nat)
    requires committed < cache.Length && |ctx| == committed && Holds(m, cache[..], ctx)
    modifies cache
    ensures Holds(m, cache[..], ctx + [token]) && next == Answer(m, ctx + [token])
  {
    hide Rows, Answer, Step;
    RowsSnoc(m, ctx, token);
    var rows := cache[..committed];
    assert rows == cache[..][..committed];
    var (row, argmax) := Step(m, rows, token);
    cache[committed] := row;
    assert cache[..][..committed + 1] == rows + [row];
    next := argmax;
  }

  /** verify_batch: causal rows for the whole batch, and the argmax after each of its tokens. */
  method VerifyBatch<R>(m: Model<R>, cache: array<R>, committed: nat, batch: seq<nat>, ghost ctx: seq<nat>)
    returns (said: seq<nat>)
    requires committed + |batch| <= cache.Length && |ctx| == committed && Holds(m, cache[..], ctx)
    modifies cache
    ensures Holds(m, cache[..], ctx + batch)
    ensures |said| == |batch| && forall i :: 0 <= i < |batch| ==> said[i] == Answer(m, ctx + batch[..i + 1])
  {
    hide Rows, Answer, Holds;
    said := [];
    assert ctx + batch[..0] == ctx;
    for i := 0 to |batch|
      invariant |said| == i && Holds(m, cache[..], ctx + batch[..i])
      invariant forall k :: 0 <= k < i ==> said[k] == Answer(m, ctx + batch[..k + 1])
    {
      assert ctx + batch[..i] + [batch[i]] == ctx + batch[..i + 1];
      var next := WriteStep(m, cache, committed + i, batch[i], ctx + batch[..i]);
      said := said + [next];
    }
    assert batch[..|batch|] == batch;
  }

  lemma HoldsPrefix<R>(m: Model<R>, cache: seq<R>, ctx: seq<nat>, k: nat)
    requires Holds(m, cache, ctx) && k <= |ctx|
    ensures Holds(m, cache, ctx[..k])
  {
    hide Rows;
    RowsPrefix(m, ctx, k);
    assert cache[..|ctx|][..k] == cache[..k];
  }

  // ---- a tree pass

  /** The context of slot i: committed tokens, pending token, the slot's own path. */
  ghost function SlotContext(ctx: seq<nat>, t: Tree, last: nat, i: nat): (c: seq<nat>)
    requires WellFormed(t) && i < |t.parents|
    ensures |c| == |ctx| + 1 + Depth(t, i)
  {
    ctx + ([last] + TokenPath(t, i))
  }

  lemma SlotContextStep(ctx: seq<nat>, t: Tree, last: nat, i: nat)
    requires WellFormed(t) && i < |t.parents|
    ensures |t.parents| == |t.tokens| + 1
    ensures i == 0 ==> SlotContext(ctx, t, last, i) == ctx + [Flat(t, last)[i]]
    ensures i > 0 ==>
      0 <= t.parents[i] < i &&
        SlotContext(ctx, t, last, i) == SlotContext(ctx, t, last, t.parents[i]) + [Flat(t, last)[i]]
  {
    hide WellFormed, TokenPath;
    TreeShape(t);
    if i == 0 {
      RootPath(t);
    } else {
      PathStep(t, i);
      var p := TokenPath(t, t.parents[i]);
      assert ctx + ([last] + (p + [t.tokens[i - 1]])) == ctx + ([last] + p) + [t.tokens[i - 1]];
    }
  }

  /** Slot i was computed as plain decoding would compute it after its own path. */
  ghost predicate SlotOk<R>(m: Model<R>, ctx: seq<nat>, t: Tree, last: nat, i: nat, row: R, said: nat)
    requires WellFormed(t) && i < |t.parents|
  {
    row == RowOf(m, SlotContext(ctx, t, last, i)) && said == Answer(m, SlotContext(ctx, t, last, i))
  }

  /** The rows the sliding-window mask of a tree pass shows: committed rows inside the window and all visible slots. */
  function TreeSliding<R>(prefix: seq<R>, seen: seq<R>, w: nat): seq<R> {
    var lo := SlidingStart(|prefix| + |seen|, w);
    (if lo <= |prefix| then prefix[lo..] else []) + seen
  }

  /** That mask is the window of plain decoding exactly for slots whose depth is below the window. */
  lemma SlidingMaskExact<R>(prefix: seq<R>, seen: seq<R>, w: nat)
    ensures TreeSliding(prefix, seen, w) == Sliding(prefix + seen, w) <==> |seen| < w || seen == []
  {
    var lo := SlidingStart(|prefix| + |seen|, w);
    if lo <= |prefix| {
      assert (prefix + seen)[lo..] == prefix[lo..] + seen;
    }
  }

  /** Slots inside the window have the rows of their own contexts. */
  ghost predicate Exact<R>(m: Model<R>, ctx: seq<nat>, t: Tree, last: nat, rows: seq<R>)
    requires WellFormed(t)
  {
    |rows| <= |t.parents| && forall j :: 0 <= j < |rows| && Depth(t, j) < m.window ==>
      rows[j] == RowOf(m, SlotContext(ctx, t, last, j))
  }

  lemma ExactAt<R>(m: Model<R>, ctx: seq<nat>, t: Tree, last: nat, rows: seq<R>, i: nat)
    requires WellFormed(t) && Exact(m, ctx, t, last, rows) && i < |rows| && i <= |t.depths| && Depth(t, i) < m.window
    ensures i < |t.parents| && rows[i] == RowOf(m, SlotContext(ctx, t, last, i))
  {
    hide WellFormed, SlotContext, RowOf;
  }

  /** The rows along a path of exact slots continue the committed rows. */
  lemma {:induction false} PathRows<R>(m: Model<R>, ctx: seq<nat>, t: Tree, last: nat, rows: seq<R>, i: nat)
    requires WellFormed(t) && i < |t.parents| && i < |rows| && i <= |t.depths| && Exact(m, ctx, t, last, rows)
    requires Depth(t, i) < m.window
    ensures Rows(m, ctx) + Along(t, rows, i) == Rows(m, SlotContext(ctx, t, last, i))
    decreases i
  {
    hide WellFormed, Along, Rows, TokenPath, Step, SlotContext, Depth, Exact;
    SlotContextStep(ctx, t, last, i);
    ExactAt(m, ctx, t, last, rows, i);
    if i == 0 {
      AlongRoot(t, rows);
      RowsSnoc(m, ctx, Flat(t, last)[0]);
    } else {
      AlongStep(t, rows, i);
      var p := t.parents[i];
      PathRows(m, ctx, t, last, rows, p);
      RowsSnoc(m, SlotContext(ctx, t, last, p), Flat(t, last)[i]);
      Seqs.Assoc(Rows(m, ctx), Along(t, rows, p), [rows[i]]);
    }
  }

  /** What the pass computes for a token that sees the committed rows and some slots. */
  function Computed<R>(m: Model<R>, prefix: seq<R>, seen: seq<R>, position: nat, token: nat): (R, nat) {
    Forward(m, prefix + seen, TreeSliding(prefix, seen, m.window), position, token)
  }

  /** One slot: with exact slots before it and its depth inside the window, the pass computes it exactly. */
  lemma SlotComputed<R>(m: Model<R>, ctx: seq<nat>, t: Tree, vis: seq<bool>, last: nat, rows: seq<R>, i: nat)
    requires WellFormed(t) && MaskIs(t, vis) && i < |t.parents| && |rows| == i && |vis| == |t.parents| * |t.parents|
    requires Exact(m, ctx, t, last, rows) && i <= |t.depths| && Depth(t, i) < m.window && |t.parents| == |t.tokens| + 1
    ensures var seen := Visible(rows, vis, |t.parents|, i, i);
      var r := Computed(m, Rows(m, ctx), seen, |ctx| + Depth(t, i), Flat(t, last)[i]);
      SlotOk(m, ctx, t, last, i, r.0, r.1)
  {
    hide WellFormed, MaskIs, Rows, Visible, SlotContext, Along, TokenPath, Depth, Computed, Exact, SlotOk;
    VisibleBefore(t, vis, rows, i);
    if i == 0 {
      RootComputed(m, ctx, t, last);
    } else {
      ChildComputed(m, ctx, t, last, rows, i);
    }
  }

  lemma RootComputed<R>(m: Model<R>, ctx: seq<nat>, t: Tree, last: nat)
    requires WellFormed(t) && |t.parents| == |t.tokens| + 1
    ensures var r := Computed(m, Rows(m, ctx), [], |ctx| + Depth(t, 0), Flat(t, last)[0]);
      SlotOk(m, ctx, t, last, 0, r.0, r.1)
  {
    hide WellFormed, Rows, SlotContext, TokenPath, RowOf, Answer, Forward;
    SlotContextStep(ctx, t, last, 0);
    assert Rows(m, ctx) + [] == Rows(m, ctx);
    NextSlot(m, Rows(m, ctx), ctx, [], Flat(t, last)[0]);
  }

  lemma ChildComputed<R>(m: Model<R>, ctx: seq<nat>, t: Tree, last: nat, rows: seq<R>, i: nat)
    requires WellFormed(t) && 0 < i < |t.parents| && |rows| == i && 0 <= t.parents[i] < i
    requires Exact(m, ctx, t, last, rows) && i <= |t.depths| && Depth(t, i) < m.window && |t.parents| == |t.tokens| + 1
    ensures var r := Computed(m, Rows(m, ctx), Along(t, rows, t.parents[i]), |ctx| + Depth(t, i), Flat(t, last)[i]);
      SlotOk(m, ctx, t, last, i, r.0, r.1)
  {
    hide WellFormed, Rows, SlotContext, Along, TokenPath, RowOf, Answer, Depth, Forward, Exact, TreeSliding;
    SlotContextStep(ctx, t, last, i);
    ParentAbove(t, i);
    var p := t.parents[i];
    PathRows(m, ctx, t, last, rows, p);
    NextSlot(m, Rows(m, ctx), SlotContext(ctx, t, last, p), Along(t, rows, p), Flat(t, last)[i]);
  }

  /** A token that sees the committed rows and its path's rows is computed as the next token of that path's context. */
  lemma NextSlot<R>(m: Model<R>, prefix: seq<R>, c: seq<nat>, seen: seq<R>, token: nat)
    requires prefix + seen == Rows(m, c) && (|seen| < m.window || seen == [])
    ensures Computed(m, prefix, seen, |prefix| + |seen|, token) == (RowOf(m, c + [token]), Answer(m, c + [token]))
  {
    hide Rows, Answer, Computed, Step, RowOf;
    SameStep(m, prefix, seen, token);
    StepIs(m, c, token);
  }

  lemma StepIs<R>(m: Model<R>, ctx: seq<nat>, x: nat)
    ensures Step(m, Rows(m, ctx), x) == (RowOf(m, ctx + [x]), Answer(m, ctx + [x]))
  {
    hide Step, Rows, Answer;
    RowsSnoc(m, ctx, x);
  }

  /** Inside the window, the tree's masks show what plain decoding would. */
  lemma SameStep<R>(m: Model<R>, prefix: seq<R>, seen: seq<R>, token: nat)
    requires |seen| < m.window || seen == []
    ensures Computed(m, prefix, seen, |prefix| + |seen|, token) == Step(m, prefix + seen, token)
  {
    hide TreeSliding, Sliding, Forward;
    SlidingMaskExact(prefix, seen, m.window);
  }

  lemma ShapeDepths(t: Tree)
    requires WellFormed(t)
    ensures |t.parents| == |t.depths| + 1
  {}

  lemma ParentAbove(t: Tree, i: nat)
    requires WellFormed(t) && 0 < i < |t.parents|
    ensures 0 <= t.parents[i] < i && Depth(t, i) == Depth(t, t.parents[i]) + 1 && |t.parents| == |t.depths| + 1
  {
    assert Below(t, i);
  }

  /** A model that tells how many rows its sliding-window layers see. */
  function Counting(w: nat): Model<int> {
    Model((full: seq<int>, sliding: seq<int>, position: nat, token: nat) => (|sliding|, |sliding|), w, 0)
  }

  /** The window is needed: a slot whose depth reaches it gets a wrong row and a wrong answer from some model. */
  lemma DeepSlotDiffers(w: nat, ctx: seq<nat>, t: Tree, vis: seq<bool>, last: nat, rows: seq<int>, i: nat)
    requires WellFormed(t) && MaskIs(t, vis) && 0 < i < |t.parents| && |rows| == i && |vis| == |t.parents| * |t.parents|
    requires i <= |t.depths| && Depth(t, i) >= w && |t.parents| == |t.tokens| + 1
    ensures var m := Counting(w);
      var r := Computed(m, Rows(m, ctx), Visible(rows, vis, |t.parents|, i, i), |ctx| + Depth(t, i), Flat(t, last)[i]);
      r.0 != RowOf(m, SlotContext(ctx, t, last, i)) && r.1 != Answer(m, SlotContext(ctx, t, last, i))
  {
    hide WellFormed, MaskIs, Rows, Visible, SlotContext, Along, TokenPath, Depth, Counting, Answer, RowOf, Step,
      Computed;
    VisibleBefore(t, vis, rows, i);
    ParentAbove(t, i);
    SlotContextStep(ctx, t, last, i);
    var c, seen := SlotContext(ctx, t, last, t.parents[i]), Along(t, rows, t.parents[i]);
    DeepTokenDiffers(w, Rows(Counting(w), ctx), c, seen, |ctx| + Depth(t, i), Flat(t, last)[i]);
  }

  lemma DeepTokenDiffers(w: nat, prefix: seq<int>, c: seq<nat>, seen: seq<int>, position: nat, token: nat)
    requires |seen| >= w && |seen| > 0 && |c| == |prefix| + |seen|
    ensures var r := Computed(Counting(w), prefix, seen, position, token);
      r.0 != RowOf(Counting(w), c + [token]) && r.1 != Answer(Counting(w), c + [token])
  {
    hide Rows, Counting, Answer, RowOf, Step, Computed, Sliding, TreeSliding;
    StepIs(Counting(w), c, token);
    CountingSteps(w, prefix, seen, position, Rows(Counting(w), c), token);
    SlidingSizes(prefix, seen, Rows(Counting(w), c), w);
  }

  lemma CountingSteps(w: nat, prefix: seq<int>, seen: seq<int>, position: nat, rows: seq<int>, token: nat)
    ensures var n := |TreeSliding(prefix, seen, w)|;
      Computed(Counting(w), prefix, seen, position, token) == (n, n)
    ensures Step(Counting(w), rows, token) == (|Sliding(rows, w)|, |Sliding(rows, w)|)
  {
    hide TreeSliding, Sliding;
    var m := Counting(w);
    assert Forward(m, prefix + seen, TreeSliding(prefix, seen, w), position, token) ==
      m.compute(prefix + seen, TreeSliding(prefix, seen, w), position, token);
    assert Forward(m, rows, Sliding(rows, w), |rows|, token) == m.compute(rows, Sliding(rows, w), |rows|, token);
  }

  lemma SlidingSizes(prefix: seq<int>, seen: seq<int>, rows: seq<int>, w: nat)
    requires |seen| >= w && |seen| > 0 && |rows| == |prefix| + |seen|
    ensures |TreeSliding(prefix, seen, w)| == |seen| > |Sliding(rows, w)|
  {}

  /** Every slot inside the window has its exact row and answer. */
  ghost predicate PassOk<R>(m: Model<R>, ctx: seq<nat>, t: Tree, last: nat, rows: seq<R>, posterior: seq<nat>)
    requires WellFormed(t)
  {
    |rows| == |posterior| <= |t.parents| &&
    forall i :: 0 <= i < |rows| && Depth(t, i) < m.window ==> SlotOk(m, ctx, t, last, i, rows[i], posterior[i])
  }

  /**
  verify_tree: slot i goes to row committed + i at position committed + depth, sees the committed rows and the earlier
  slots its mask row shows, and padding rows are left behind the tree. False is the failure of the span check.
  */
  method VerifyTree<R>(m: Model<R>, cache: array<R>, committed: nat, t: Tree, vis: seq<bool>, last: nat, alloc: int,
                       ghost ctx: seq<nat>)
    returns (ok: bool, posterior: seq<nat>)
    requires WellFormed(t) && MaskIs(t, vis) && |ctx| == committed && Holds(m, cache[..], ctx)
    modifies cache
    ensures ok <==> |t.parents| <= alloc && committed + alloc <= cache.Length
    ensures cache[..committed] == old(cache[..committed]) && Holds(m, cache[..], ctx)
    ensures ok ==>
      |posterior| == |t.parents| && PassOk(m, ctx, t, last, cache[committed..committed + |t.parents|], posterior)
  {
    hide WellFormed, MaskIs, Rows, Visible, SlotOk, TokenPath, Computed;
    TreeShape(t);
    MaskSize(t, vis);
    var n := |t.parents|;
    posterior := [];
    if n > alloc || committed + alloc > cache.Length {
      return false, posterior;
    }
    var flat := Flat(t, last);
    for i := 0 to n
      invariant |posterior| == i && cache[..committed] == old(cache[..committed])
      invariant PassOk(m, ctx, t, last, cache[committed..committed + i], posterior)
    {
      ghost var before := cache[committed..committed + i];
      var prefix, rows := cache[..committed], cache[committed..committed + i];
      assert prefix == Rows(m, ctx);
      var depth := SlotDepth(t, i);
      var seen := Visible(rows, vis, n, i, i);
      var (row, said) := Computed(m, prefix, seen, committed + depth, flat[i]);
      if depth < m.window {
        ExactRows(m, ctx, t, last, rows, posterior);
        SlotComputed(m, ctx, t, vis, last, rows, i);
      }
      cache[committed + i] := row;
      posterior := posterior + [said];
      assert cache[committed..committed + i + 1] == before + [row];
      assert cache[..committed] == prefix;
    }
    PadRows(m, cache, committed + n, committed + alloc);
    return true, posterior;
  }

  lemma ExactRows<R>(m: Model<R>, ctx: seq<nat>, t: Tree, last: nat, rows: seq<R>, posterior: seq<nat>)
    requires WellFormed(t) && PassOk(m, ctx, t, last, rows, posterior)
    ensures Exact(m, ctx, t, last, rows)
  {
    ShapeDepths(t);
    hide WellFormed, SlotContext, RowOf, Answer;
    forall j | 0 <= j < |rows| && Depth(t, j) < m.window ensures rows[j] == RowOf(m, SlotContext(ctx, t, last, j)) {
      assert SlotOk(m, ctx, t, last, j, rows[j], posterior[j]);
    }
  }

  method SlotDepth(t: Tree, i: nat) returns (d: nat)
    requires WellFormed(t) && i < |t.parents|
    ensures i <= |t.depths| && d == Depth(t, i)
  {
    TreeShape(t);
    d := if i == 0 then 0 else t.depths[i - 1];
  }

  /** Padding slots leave rows without meaning. */
  method PadRows<R>(m: Model<R>, cache: array<R>, from: nat, to: nat)
    requires from <= to <= cache.Length
    modifies cache
    ensures cache[..from] == old(cache[..from])
  {
    for i := from to to
      invariant cache[..from] == old(cache[..from])
    {
      cache[i] := m.blank;
    }
  }

  // ---- compaction

  predicate Contiguous(accepted: seq<nat>) { forall d :: 0 <= d < |accepted| ==> accepted[d] == d }

  /** The rows of the given slots, one after the other. */
  function Gathered<R>(rows: seq<R>, slots: seq<nat>): seq<R>
    requires forall d :: 0 <= d < |slots| ==> slots[d] < |rows|
  {
    seq(|slots|, d requires 0 <= d < |slots| => rows[slots[d]])
  }

  /** rollback_to_tree: the rows of the accepted slots move to consecutive positions; nothing to do for a chain. */
  method RollbackToTree<R>(cache: array<R>, committed: nat, n: nat, accepted: seq<nat>) returns (ok: bool)
    requires committed + n <= cache.Length && |accepted| <= n && forall d :: 0 <= d < |accepted| ==> accepted[d] < n
    modifies cache
    ensures ok <==> accepted != []
    ensures cache[..committed + |accepted|] ==
            old(cache[..committed]) + Gathered(old(cache[committed..committed + n]), accepted)
  {
    var prefix, rows := cache[..committed], cache[committed..committed + n];
    var gathered := Gathered(rows, accepted);
    if accepted == [] {
      assert cache[..committed + |accepted|] == prefix + gathered;
      return false;
    }
    if Contiguous(accepted) {
      assert gathered == rows[..|accepted|];
      assert cache[..committed + |accepted|] == prefix + gathered;
      return true;
    }
    for d := 0 to |accepted|
      invariant cache[..committed + d] == prefix + gathered[..d]
    {
      cache[committed + d] := gathered[d];
      assert cache[..committed + d + 1] == prefix + gathered[..d] + [gathered[d]];
    }
    assert gathered[..|accepted|] == gathered;
    return true;
  }
}
