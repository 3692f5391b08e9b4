/**
The greedy decode loop with tree and chain verification, server/src/laguna/laguna_backend.cpp:600-1218 with
server/src/common/ddtree.cpp:356-387. The target model is an uninterpreted forward pass over cache rows.
*/
module SpeculativeDecoding {
  import opened DraftTree
  import opened TreeMask
  import opened KvRows
  import Seqs

  // ---- plain autoregressive decoding

  /** Up to n greedy tokens after ctx, ending before the first stop token. */
  function Greedy(target: Target, stop: nat -> bool, ctx: seq<nat>, n: nat): seq<nat>
    decreases n
  {
    if n == 0 || stop(target(ctx)) then [] else [target(ctx)] + Greedy(target, stop, ctx + [target(ctx)], n - 1)
  }

  /** The tokens are what the target itself would say, one after the other. */
  ghost predicate Agrees(target: Target, ctx: seq<nat>, ts: seq<nat>) {
    forall i :: 0 <= i < |ts| ==> ts[i] == target(ctx + ts[..i])
  }

  lemma AgreesSnoc(target: Target, ctx: seq<nat>, ts: seq<nat>, t: nat)
    requires Agrees(target, ctx, ts) && t == target(ctx + ts)
    ensures Agrees(target, ctx, ts + [t])
  {
    var us := ts + [t];
    forall i | 0 <= i < |us| ensures us[i] == target(ctx + us[..i]) {
      assert us[..i] == ts[..i];
      assert i == |ts| ==> ts[..i] == ts;
    }
  }

  lemma AgreesPrefix(target: Target, ctx: seq<nat>, ts: seq<nat>, k: nat)
    requires Agrees(target, ctx, ts) && k <= |ts|
    ensures Agrees(target, ctx, ts[..k])
  {
    forall i | 0 <= i < k ensures ts[..k][i] == target(ctx + ts[..k][..i]) { assert ts[..k][..i] == ts[..i]; }
  }

  /** Agreeing tokens without a stop are the next tokens of greedy decoding. */
  lemma {:induction false} GreedySplit(target: Target, stop: nat -> bool, ctx: seq<nat>, ts: seq<nat>, n: nat)
    requires Agrees(target, ctx, ts) && |ts| <= n && forall i :: 0 <= i < |ts| ==> !stop(ts[i])
    ensures Greedy(target, stop, ctx, n) == ts + Greedy(target, stop, ctx + ts, n - |ts|)
    decreases |ts|
  {
    if ts == [] {
      assert ctx + ts == ctx;
    } else {
      assert ctx + ts[..0] == ctx;
      assert ts == [ts[0]] + ts[1..];
      Seqs.Assoc(ctx, [ts[0]], ts[1..]);
      forall i | 0 <= i < |ts| - 1 ensures ts[1..][i] == target(ctx + [ts[0]] + ts[1..][..i]) {
        Seqs.Assoc(ctx, [ts[0]], ts[1..][..i]);
        assert [ts[0]] + ts[1..][..i] == ts[..i + 1];
      }
      GreedySplit(target, stop, ctx + [ts[0]], ts[1..], n - 1);
      Seqs.Assoc([ts[0]], ts[1..], Greedy(target, stop, ctx + ts, n - |ts|));
    }
  }

  // ---- following the verified tree

  /** The accepted slots form a path from the root along the posterior's own tokens. */
  ghost predicate Follows(t: Tree, posterior: seq<nat>, accepted: seq<nat>) {
    && accepted != [] && accepted[0] == 0 && |posterior| == |t.children|
    && (forall k :: 0 <= k < |accepted| ==> accepted[k] < |t.children|)
    && forall k :: 0 < k < |accepted| ==> StepsTo(t, posterior, accepted[k - 1], accepted[k])
  }

  predicate StepsTo(t: Tree, posterior: seq<nat>, a: nat, b: nat)
    requires a < |t.children| && |posterior| == |t.children|
  {
    posterior[a] in t.children[a] && t.children[a][posterior[a]] == b
  }

  /** follow_verified_tree. */
  method FollowVerifiedTree(t: Tree, posterior: seq<nat>) returns (accepted: seq<nat>, next: nat)
    requires WellFormed(t) && |posterior| == |t.children|
    ensures Follows(t, posterior, accepted)
    ensures next == posterior[accepted[|accepted| - 1]] && next !in t.children[accepted[|accepted| - 1]]
  {
    accepted := [0];
    TreeShape(t);
    var current := 0;
    next := posterior[0];
    while next in t.children[current]
      invariant current < |t.children| && Follows(t, posterior, accepted) && accepted[|accepted| - 1] == current
      invariant next == posterior[current]
      decreases |t.children| - current
    {
      assert Edge(t, current, next) && Below(t, t.children[current][next]);
      current := t.children[current][next];
      accepted := accepted + [current];
      next := posterior[current];
    }
  }

  /** The values at the accepted slots are the values along the last one's root path. */
  lemma {:induction false} FollowedAlong<T>(t: Tree, posterior: seq<nat>, accepted: seq<nat>, vals: seq<T>, k: nat)
    requires WellFormed(t) && Follows(t, posterior, accepted) && k < |accepted| && |vals| == |t.parents|
    ensures forall i :: 0 <= i < |accepted| ==> accepted[i] < |vals|
    ensures Gathered(vals, accepted[..k + 1]) == Along(t, vals, accepted[k]) && Depth(t, accepted[k]) == k
    decreases k
  {
    hide Along;
    TreeShape(t);
    ShapeDepths(t);
    if k == 0 {
      AlongRoot(t, vals);
    } else {
      FollowedAlong(t, posterior, accepted, vals, k - 1);
      var a, b := accepted[k - 1], accepted[k];
      assert StepsTo(t, posterior, a, b) && Edge(t, a, posterior[a]);
      AlongStep(t, vals, b);
      hide WellFormed, Follows;
      assert accepted[..k + 1] == accepted[..k] + [b];
      assert Gathered(vals, accepted[..k + 1]) == Gathered(vals, accepted[..k]) + [vals[b]];
    }
  }

  /** The tokens emitted for accepted slots. */
  function Tokens(t: Tree, last: nat, slots: seq<nat>): (r: seq<nat>)
    requires forall k :: 0 <= k < |slots| ==> slots[k] < |Flat(t, last)|
    ensures |r| == |slots|
  {
    Gathered(Flat(t, last), slots)
  }

  /** Accepted tokens extend the context to the last slot's own context. */
  lemma FollowedContext(t: Tree, posterior: seq<nat>, accepted: seq<nat>, ctx: seq<nat>, last: nat, k: nat)
    requires WellFormed(t) && Follows(t, posterior, accepted) && k < |accepted|
    ensures |Flat(t, last)| == |t.parents| && (forall i :: 0 <= i < |accepted| ==> accepted[i] < |t.parents|)
    ensures ctx + Tokens(t, last, accepted[..k + 1]) == SlotContext(ctx, t, last, accepted[k])
  {
    TreeShape(t);
    hide WellFormed, Along, TokenPath, Gathered;
    FollowedAlong(t, posterior, accepted, Flat(t, last), k);
    FlatAlong(t, last, accepted[k]);
  }

  /** At every slot the posterior is the target's answer to the slot's own context. */
  ghost predicate PosteriorOk(target: Target, ctx: seq<nat>, t: Tree, last: nat, posterior: seq<nat>)
    requires WellFormed(t)
  {
    |posterior| == |t.parents| && forall i :: 0 <= i < |posterior| ==>
      posterior[i] == target(SlotContext(ctx, t, last, i))
  }

  /** The accepted tokens are the target's own greedy continuation, and so is the pending token, at every cut. */
  lemma {:induction false} AcceptedAgrees(target: Target, ctx: seq<nat>, t: Tree, last: nat, posterior: seq<nat>,
                                          accepted: seq<nat>, k: nat)
    requires WellFormed(t) && last == target(ctx) && PosteriorOk(target, ctx, t, last, posterior)
    requires Follows(t, posterior, accepted) && k < |accepted|
    ensures forall i :: 0 <= i < |accepted| ==> accepted[i] < |Flat(t, last)|
    ensures Agrees(target, ctx, Tokens(t, last, accepted[..k + 1]))
    ensures accepted[k] < |posterior| && posterior[accepted[k]] == target(ctx + Tokens(t, last, accepted[..k + 1]))
    decreases k
  {
    TreeShape(t);
    FollowedContext(t, posterior, accepted, ctx, last, k);
    var ts := Tokens(t, last, accepted[..k + 1]);
    if k == 0 {
      assert ts == [last] && ts[..0] == [] && ctx + [] == ctx;
    } else {
      AcceptedAgrees(target, ctx, t, last, posterior, accepted, k - 1);
      var a := accepted[k - 1];
      assert StepsTo(t, posterior, a, accepted[k]) && Edge(t, a, posterior[a]);
      hide WellFormed, Follows, TokenPath, Agrees, PosteriorOk, SlotContext;
      var before := Tokens(t, last, accepted[..k]);
      assert accepted[..k + 1] == accepted[..k] + [accepted[k]];
      assert ts == before + [posterior[a]];
      AgreesSnoc(target, ctx, before, posterior[a]);
    }
  }

  /** Every child is reachable through its parent's map. */
  ghost predicate Unambiguous(t: Tree) {
    WellFormed(t) && forall i :: 0 < i < |t.parents| ==> 0 <= t.parents[i] < i && Reached(t, i)
  }

  ghost predicate Reached(t: Tree, i: nat)
    requires Sized(t) && 0 < i < |t.parents| && 0 <= t.parents[i] < i
  {
    t.tokens[i - 1] in t.children[t.parents[i]] && t.children[t.parents[i]][t.tokens[i - 1]] == i
  }

  /** Top-K rows never repeat a token. */
  ghost predicate DistinctTokens(draft: Draft) {
    forall d, r, s :: 0 <= d < |draft| && 0 <= r < s < |draft[d]| ==> draft[d][r].token != draft[d][s].token
  }

  lemma BuiltUnambiguous(draft: Draft, budget: int, w: Window, t: Tree, paths: seq<Path>, seeded: nat)
    requires Promised(draft, budget, w, t, paths, seeded) && DistinctTokens(draft)
    ensures Unambiguous(t)
  {
    hide Closed, AllInside, Chain, Ranked, Optimal;
    forall i | 0 < i < |t.parents| ensures 0 <= t.parents[i] < i && Reached(t, i) {
      assert Below(t, i);
      var p, x := t.parents[i], t.tokens[i - 1];
      assert Edge(t, p, x);
      SameNode(draft, t, paths, i, t.children[p][x]);
    }
  }

  lemma SameNode(draft: Draft, t: Tree, paths: seq<Path>, i: nat, j: nat)
    requires Linked(draft, t, paths) && NoDup(paths) && DistinctTokens(draft)
    requires 0 < i < |t.parents| && 0 < j < |t.parents| && i <= |t.tokens| && j <= |t.tokens|
    requires t.parents[i] == t.parents[j] && t.tokens[i - 1] == t.tokens[j - 1]
    ensures i == j
  {
    hide WellFormed;
    SizedWhenWellFormed(t);
    assert NodeIs(draft, t, paths, i) && NodeIs(draft, t, paths, j);
    var a, b := paths[i], paths[j];
    assert a == Front(a) + [Last(a)] && b == Front(b) + [Last(b)];
    assert |a| == |Front(a)| + 1 == |b|;
    assert a == b;
  }

  /** No drafted path that the target agrees with is longer than the accepted one: such a path lies on it. */
  lemma {:induction false} LongestAccepted(target: Target, ctx: seq<nat>, t: Tree, last: nat, posterior: seq<nat>,
                                           accepted: seq<nat>, i: nat)
    requires Unambiguous(t) && PosteriorOk(target, ctx, t, last, posterior) && i < |t.parents|
    requires Follows(t, posterior, accepted)
    requires posterior[accepted[|accepted| - 1]] !in t.children[accepted[|accepted| - 1]]
    requires Agrees(target, ctx, [last] + TokenPath(t, i))
    ensures Depth(t, i) < |accepted| && accepted[Depth(t, i)] == i
    decreases i
  {
    TreeShape(t);
    hide TokenPath;
    if i > 0 {
      var p := t.parents[i];
      PathStep(t, i);
      assert Below(t, i) && Reached(t, i);
      var ts := [last] + TokenPath(t, i);
      Seqs.Assoc([last], TokenPath(t, p), [t.tokens[i - 1]]);
      assert ts[..|ts| - 1] == [last] + TokenPath(t, p);
      AgreesPrefix(target, ctx, ts, |ts| - 1);
      LongestAccepted(target, ctx, t, last, posterior, accepted, p);
      assert ts[|ts| - 1] == target(ctx + ts[..|ts| - 1]);
      assert posterior[p] == target(SlotContext(ctx, t, last, p));
      var d := Depth(t, p);
      if d + 1 < |accepted| {
        assert StepsTo(t, posterior, accepted[d + 1 - 1], accepted[d + 1]);
      }
    }
  }

  /** truncate_verified_path: cutting the path recomputes the pending token at the new tip; -1 stands for none. */
  method TruncateVerifiedPath(ghost target: Target, ghost ctx: seq<nat>, t: Tree, last: nat, posterior: seq<nat>,
                              accepted: seq<nat>, next: nat, maxCommitted: nat)
    returns (cut: bool, kept: seq<nat>, pending: int)
    requires WellFormed(t) && last == target(ctx) && PosteriorOk(target, ctx, t, last, posterior)
    requires Follows(t, posterior, accepted) && next == posterior[accepted[|accepted| - 1]]
    ensures kept <= accepted && |kept| == if |accepted| <= maxCommitted then |accepted| else maxCommitted
    ensures cut <==> |accepted| > maxCommitted
    ensures forall i :: 0 <= i < |kept| ==> kept[i] < |Flat(t, last)|
    ensures Agrees(target, ctx, Tokens(t, last, kept))
    ensures kept != [] ==> pending == target(ctx + Tokens(t, last, kept))
    ensures kept == [] ==> pending == -1
  {
    hide PosteriorOk;
    if |accepted| <= maxCommitted {
      AcceptedAgrees(target, ctx, t, last, posterior, accepted, |accepted| - 1);
      assert accepted[..|accepted|] == accepted;
      return false, accepted, next;
    }
    kept := accepted[..maxCommitted];
    if kept == [] {
      return true, kept, -1;
    }
    AcceptedAgrees(target, ctx, t, last, posterior, accepted, maxCommitted - 1);
    return true, kept, posterior[kept[|kept| - 1]];
  }

  // ---- the cache after a tree round

  ghost predicate AllInWindow(t: Tree, w: nat) {
    |t.depths| + 1 == |t.parents| && forall i :: 0 <= i < |t.parents| ==> Depth(t, i) < w
  }

  lemma PassPosterior<R>(m: Model<R>, ctx: seq<nat>, t: Tree, last: nat, rows: seq<R>, posterior: seq<nat>)
    requires WellFormed(t) && AllInWindow(t, m.window) && PassOk(m, ctx, t, last, rows, posterior)
    requires |rows| == |t.parents|
    ensures PosteriorOk(Answers(m), ctx, t, last, posterior)
  {
    hide WellFormed, SlotContext, Answer, RowOf;
    forall i | 0 <= i < |posterior| ensures posterior[i] == Answers(m)(SlotContext(ctx, t, last, i)) {
      assert SlotOk(m, ctx, t, last, i, rows[i], posterior[i]);
    }
  }

  /** The rows of the first accepted slots, moved behind the committed rows, are the cache of plain decoding. */
  lemma CompactedHolds<R>(m: Model<R>, ctx: seq<nat>, t: Tree, last: nat, rows: seq<R>, posterior: seq<nat>,
                          accepted: seq<nat>, k: nat)
    requires WellFormed(t) && AllInWindow(t, m.window) && PassOk(m, ctx, t, last, rows, posterior)
    requires |rows| == |t.parents|
    requires Follows(t, posterior, accepted) && 0 < k <= |accepted|
    ensures forall i :: 0 <= i < |accepted| ==> accepted[i] < |rows| && accepted[i] < |Flat(t, last)|
    ensures Rows(m, ctx) + Gathered(rows, accepted[..k]) == Rows(m, ctx + Tokens(t, last, accepted[..k]))
  {
    hide WellFormed, Along, Rows, PassOk, SlotContext, Gathered, Exact;
    FollowedAlong(t, posterior, accepted, rows, k - 1);
    FollowedContext(t, posterior, accepted, ctx, last, k - 1);
    ExactRows(m, ctx, t, last, rows, posterior);
    PathRows(m, ctx, t, last, rows, accepted[k - 1]);
  }

  /** Without compaction the rows are right if the accepted slots are the first ones. */
  lemma ContiguousHolds<R>(m: Model<R>, ctx: seq<nat>, t: Tree, last: nat, rows: seq<R>, posterior: seq<nat>,
                           accepted: seq<nat>, k: nat)
    requires WellFormed(t) && AllInWindow(t, m.window) && PassOk(m, ctx, t, last, rows, posterior)
    requires |rows| == |t.parents|
    requires Follows(t, posterior, accepted) && k <= |accepted| && k <= |rows| && Contiguous(accepted[..k])
    ensures forall i :: 0 <= i < |accepted| ==> accepted[i] < |Flat(t, last)|
    ensures Rows(m, ctx) + rows[..k] == Rows(m, ctx + Tokens(t, last, accepted[..k]))
  {
    hide WellFormed, Rows, PassOk;
    TreeShape(t);
    if k == 0 {
      assert ctx + Tokens(t, last, accepted[..0]) == ctx && Rows(m, ctx) + rows[..0] == Rows(m, ctx);
    } else {
      CompactedHolds(m, ctx, t, last, rows, posterior, accepted, k);
      assert Gathered(rows, accepted[..k]) == rows[..k];
    }
  }

  lemma TokensPrefix(t: Tree, last: nat, accepted: seq<nat>, k: nat, j: nat)
    requires j <= k <= |accepted| && forall i :: 0 <= i < |accepted| ==> accepted[i] < |Flat(t, last)|
    ensures Tokens(t, last, accepted[..k])[..j] == Tokens(t, last, accepted[..j])
  {}

  // ---- decode rounds

  /** The emit loop: tokens go out until one is a stop token. If they are the target's own, they are greedy
      decoding's. */
  method Emit(ghost target: Target, stop: nat -> bool, ghost ctx: seq<nat>, ts: seq<nat>, ghost need: nat)
    returns (emitted: seq<nat>, hitStop: bool)
    requires |ts| <= need
    ensures |emitted| <= |ts| && emitted == ts[..|emitted|] && (hitStop ==> |emitted| < |ts| && stop(ts[|emitted|]))
    ensures !hitStop ==> emitted == ts && forall k :: 0 <= k < |ts| ==> !stop(ts[k])
    ensures Agrees(target, ctx, ts) ==>
      Greedy(target, stop, ctx, need) == emitted + Greedy(target, stop, ctx + emitted, need - |emitted|)
    ensures Agrees(target, ctx, ts) && hitStop ==> Greedy(target, stop, ctx + emitted, need - |emitted|) == []
  {
    hide Agrees;
    emitted, hitStop := [], false;
    for i := 0 to |ts|
      invariant emitted == ts[..i] && forall k :: 0 <= k < i ==> !stop(ts[k])
    {
      if stop(ts[i]) {
        hitStop := true;
        if Agrees(target, ctx, ts) {
          AgreesPrefix(target, ctx, ts, i);
          AgreesAt(target, ctx, ts, i);
          GreedySplit(target, stop, ctx, emitted, need);
        }
        return;
      }
      emitted := emitted + [ts[i]];
    }
    assert emitted == ts;
    if Agrees(target, ctx, ts) { GreedySplit(target, stop, ctx, ts, need); }
  }

  lemma AgreesAt(target: Target, ctx: seq<nat>, ts: seq<nat>, i: nat)
    requires Agrees(target, ctx, ts) && i < |ts|
    ensures ts[i] == target(ctx + ts[..i])
  {}

  /** What a round owes the loop: the next greedy tokens, and unless it ends the loop a cache that holds them. */
  ghost predicate RoundOk<R>(m: Model<R>, stop: nat -> bool, ctx: seq<nat>, need: nat, cache: seq<R>, emitted: seq<nat>,
                             next: nat, done: bool) {
    var target := Answers(m);
    && |emitted| <= need &&
      Greedy(target, stop, ctx, need) == emitted + Greedy(target, stop, ctx + emitted, need - |emitted|)
    && (done ==> Greedy(target, stop, ctx + emitted, need - |emitted|) == [])
    && (!done ==> emitted != [] && (next == target(ctx + emitted) || |emitted| == need))
    && (!done ==> Holds(m, cache, ctx + emitted))
  }

  lemma GreedyStep(target: Target, stop: nat -> bool, ctx: seq<nat>, n: nat)
    requires n > 0
    ensures Greedy(target, stop, ctx, n) ==
      if stop(target(ctx)) then [] else [target(ctx)] + Greedy(target, stop, ctx + [target(ctx)], n - 1)
  {}

  lemma NothingLeft(target: Target, stop: nat -> bool, ctx: seq<nat>, n: nat)
    requires n == 0 || stop(target(ctx))
    ensures Greedy(target, stop, ctx, n) == []
  {}


  /** run_ar_tail: one token per forward pass. False is a pass that does not fit the cache. */
  method AutoregressiveTail<R>(m: Model<R>, cache: array<R>, committed: nat, stop: nat -> bool, last: nat, n: nat,
                               ghost ctx: seq<nat>)
    returns (ok: bool, out: seq<nat>)
    requires |ctx| == committed && Holds(m, cache[..], ctx) && last == Answer(m, ctx)
    modifies cache
    ensures committed + n <= cache.Length ==> ok
    ensures ok ==> out == Greedy(Answers(m), stop, ctx, n) && Holds(m, cache[..], ctx + out)
    ensures out <= Greedy(Answers(m), stop, ctx, n)
  {
    hide Rows, Answer, Holds, Greedy;
    ghost var target := Answers(m);
    out := [];
    assert ctx + out == ctx;
    assert [] + Greedy(target, stop, ctx, n) == Greedy(target, stop, ctx, n);
    var tok := last;
    for s := 0 to n
      invariant |out| == s && tok == target(ctx + out) && Holds(m, cache[..], ctx + out)
      invariant out + Greedy(target, stop, ctx + out, n - s) == Greedy(target, stop, ctx, n)
    {
      GreedyStep(target, stop, ctx + out, n - s);
      if stop(tok) {
        assert out + [] == out;
        return true, out;
      }
      Seqs.Assoc(out, [tok], Greedy(target, stop, ctx + out + [tok], n - s - 1));
      Seqs.Assoc(ctx, out, [tok]);
      if committed + s >= cache.Length {
        return false, out + [tok];
      }
      var next := WriteStep(m, cache, committed + s, tok, ctx + out);
      out := out + [tok];
      tok := next;
    }
    NothingLeft(target, stop, ctx + out, 0);
    assert out + [] == out;
    return true, out;
  }

  /** A tree built from L rows is no deeper than L. */
  lemma ShallowTree(draft: Draft, budget: int, w: Window, tree: Tree, paths: seq<Path>, seeded: nat, window: nat)
    requires Promised(draft, budget, w, tree, paths, seeded)
    ensures WellFormed(tree) && (|draft| < window ==> AllInWindow(tree, window))
    ensures (tree.tokens == [] || |tree.tokens| <= budget)
  {
    hide Closed, NoDup, AllInside, Chain, Ranked, Optimal;
    ShapeDepths(tree);
    forall i | 0 <= i < |tree.parents| ensures Depth(tree, i) <= |draft| {
      if i > 0 { assert NodeIs(draft, tree, paths, i); }
    }
  }

  /** The tree was verified and followed. */
  ghost predicate Walked<R>(m: Model<R>, ctx: seq<nat>, t: Tree, last: nat, rows: seq<R>, posterior: seq<nat>,
                            accepted: seq<nat>, next: nat) {
    && WellFormed(t) && |rows| == |posterior| == |t.parents|
    && PassOk(m, ctx, t, last, rows, posterior) && Follows(t, posterior, accepted)
    && next == posterior[accepted[|accepted| - 1]] && next !in t.children[accepted[|accepted| - 1]]
  }

  /** The tree is what build_ddtree promises for the draft. */
  ghost predicate DraftedTree(draft: Draft, K: nat, budget: int, chainSeed: bool, window: Window, tree: Tree) {
    exists paths, seeded ::
      Promised(draft, budget, window, tree, paths, seeded) &&
        RightlySeeded(draft, K, budget, chainSeed, window, seeded)
  }

  /** Draft tree, mask, one target pass, accepted path. */
  method WalkTree<R>(m: Model<R>, cache: array<R>, committed: nat, last: nat,
                     draft: Draft, K: nat, budget: int, chainSeed: bool, window: Window, ghost ctx: seq<nat>)
    returns (ok: bool, tree: Tree, ghost posterior: seq<nat>, accepted: seq<nat>, next: nat)
    requires |ctx| == committed && Holds(m, cache[..], ctx) && Rectangular(draft, K)
    modifies cache
    ensures 0 <= budget && committed + budget + 1 <= cache.Length ==> ok
    ensures ok ==> committed + |tree.parents| <= cache.Length && cache[..committed] == Rows(m, ctx)
    ensures ok ==> Walked(m, ctx, tree, last, cache[committed..committed + |tree.parents|], posterior, accepted, next)
    ensures |draft| < m.window ==> AllInWindow(tree, m.window)
    ensures WellFormed(tree) && DraftedTree(draft, K, budget, chainSeed, window, tree)
  {
    hide MaskIs, Follows, Promised, RightlySeeded, WellFormed, PassOk, Rows, AllInWindow;
    accepted, next := [], 0;
    tree := BuildTree(draft, K, budget, chainSeed, window);
    ghost var paths, seeded :|
      && Promised(draft, budget, window, tree, paths, seeded)
      && RightlySeeded(draft, K, budget, chainSeed, window, seeded);
    ShallowTree(draft, budget, window, tree, paths, seeded, m.window);
    TreeShape(tree);
    var vis := BuildVisibility(tree);
    var answers;
    ok, answers := VerifyTree(m, cache, committed, tree, vis, last, budget + 1, ctx);
    posterior := answers;
    if ok {
      accepted, next := FollowVerifiedTree(tree, answers);
    }
  }

  /** The accepted slots are slots of the tree, at most as many as it has. */
  lemma WalkedSlots<R>(m: Model<R>, ctx: seq<nat>, t: Tree, last: nat, rows: seq<R>, posterior: seq<nat>,
                       accepted: seq<nat>, next: nat)
    requires Walked(m, ctx, t, last, rows, posterior, accepted, next)
    ensures 0 < |accepted| <= |t.parents| == |rows|
    ensures forall i :: 0 <= i < |accepted| ==> accepted[i] < |Flat(t, last)| && accepted[i] < |t.parents|
  {
    hide PassOk;
    TreeShape(t);
    PathFits(t, posterior, accepted, |accepted|);
  }

  /** The first k accepted tokens are greedy, and the answer behind all of them is the pending token. */
  lemma WalkedAgrees<R>(m: Model<R>, ctx: seq<nat>, t: Tree, last: nat, rows: seq<R>, posterior: seq<nat>,
                        accepted: seq<nat>, next: nat, k: nat)
    requires Walked(m, ctx, t, last, rows, posterior, accepted, next) && AllInWindow(t, m.window)
    requires last == Answer(m, ctx) && 0 < k <= |accepted|
    ensures forall i :: 0 <= i < |accepted| ==> accepted[i] < |Flat(t, last)|
    ensures Agrees(Answers(m), ctx, Tokens(t, last, accepted[..k]))
    ensures k == |accepted| ==> next == Answers(m)(ctx + Tokens(t, last, accepted[..k]))
  {
    hide Agrees, Follows, WellFormed, PassOk, PosteriorOk, Rows, Answer, AllInWindow, Gathered, Tokens;
    PassPosterior(m, ctx, t, last, rows, posterior);
    AcceptedAgrees(Answers(m), ctx, t, last, posterior, accepted, k - 1);
  }

  lemma WalkedRows<R>(m: Model<R>, ctx: seq<nat>, t: Tree, last: nat, rows: seq<R>, posterior: seq<nat>,
                      accepted: seq<nat>, next: nat, k: nat)
    requires Walked(m, ctx, t, last, rows, posterior, accepted, next) && AllInWindow(t, m.window)
    requires k <= |accepted| <= |t.parents| == |rows|
    requires forall i :: 0 <= i < |accepted| ==> accepted[i] < |Flat(t, last)| && accepted[i] < |t.parents|
    ensures k > 0 ==> Rows(m, ctx) + Gathered(rows, accepted[..k]) == Rows(m, ctx + Tokens(t, last, accepted[..k]))
    ensures Contiguous(accepted[..k]) ==> Rows(m, ctx) + rows[..k] == Rows(m, ctx + Tokens(t, last, accepted[..k]))
  {
    hide Follows, WellFormed, PassOk, Rows, AllInWindow, Gathered, Tokens, Contiguous;
    if k > 0 { CompactedHolds(m, ctx, t, last, rows, posterior, accepted, k); }
    if Contiguous(accepted[..k]) { ContiguousHolds(m, ctx, t, last, rows, posterior, accepted, k); }
  }

  /**
  A tree round: draft tree, one masked target pass, accepted path, and unless the loop ends here the compaction of its
  rows. `slots` are the accepted slots whose tokens were emitted. False is the failure of the span check. The promises
  need drafts shallower than the sliding window, beyond which KvRows.DeepSlotDiffers shows the pass itself to be wrong.
  */
  method TreeRound<R>(m: Model<R>, cache: array<R>, committed: nat, stop: nat -> bool, last: nat, need: nat,
                      draft: Draft, K: nat, budget: int, chainSeed: bool, window: Window, ghost ctx: seq<nat>)
    returns (ok: bool, emitted: seq<nat>, next: nat, done: bool, slots: seq<nat>, tree: Tree)
    requires |ctx| == committed && Holds(m, cache[..], ctx) && last == Answer(m, ctx) && need > 0
    requires Rectangular(draft, K)
    modifies cache
    ensures 0 <= budget && committed + budget + 1 <= cache.Length ==> ok
    ensures WellFormed(tree) && DraftedTree(draft, K, budget, chainSeed, window, tree)
    ensures ok ==> emitted == [] || OnSomePath(tree, last, emitted)
    ensures ok && |draft| < m.window && DistinctTokens(draft) ==> TakesAll(m, stop, ctx, tree, last, need, emitted)
    ensures ok && |draft| < m.window ==> RoundOk(m, stop, ctx, need, cache[..], emitted, next, done)
    ensures ok && |draft| < m.window && Contiguous(slots) ==> Holds(m, cache[..], ctx + emitted)
  {
    hide Greedy, Agrees, Walked, Rows, Answer, Gathered, Contiguous, Tokens, AllInWindow, RoundOk, OnSomePath, TakesAll,
      DraftedTree, WellFormed, DistinctTokens, Holds;
    emitted, done, slots := [], false, [];
    var accepted;
    ghost var posterior;
    ok, tree, posterior, accepted, next :=
      WalkTree(m, cache, committed, last, draft, K, budget, chainSeed, window, ctx);
    if !ok {
      return;
    }
    var n := |tree.parents|;
    ghost var rows := cache[committed..committed + n];
    WalkedSlots(m, ctx, tree, last, rows, posterior, accepted, next);
    var commit := if |accepted| > need then need else |accepted|;
    var hitStop;
    emitted, hitStop := Emit(Answers(m), stop, ctx, Tokens(tree, last, accepted[..commit]), need);
    slots := accepted[..|emitted|];
    done := hitStop || |emitted| == 0 || stop(next);
    if !done {
      var moved := RollbackToTree(cache, committed, n, slots);
      assert cache[..][..committed + |emitted|] == cache[..committed + |emitted|];
    } else {
      Seqs.Slices(cache[..], committed, committed + n, |emitted|);
      assert cache[..][..committed] == cache[..committed] && cache[..][committed..committed + n] == rows;
    }
    RoundFacts(m, stop, ctx, need, tree, last, rows, posterior, accepted, next, commit, emitted, hitStop, cache[..]);
    if |draft| < m.window && DistinctTokens(draft) {
      DraftedUnambiguous(draft, K, budget, chainSeed, window, tree);
      TakesLongest(m, stop, ctx, tree, last, need, rows, posterior, accepted, next, commit, emitted, hitStop);
    }
  }

  /** What the emit loop did with the first `commit` accepted slots. */
  ghost predicate Sent(stop: nat -> bool, t: Tree, last: nat, need: nat, accepted: seq<nat>, commit: nat,
                       emitted: seq<nat>, hitStop: bool) {
    && commit == (if |accepted| > need then need else |accepted|)
    && (forall i :: 0 <= i < |accepted| ==> accepted[i] < |Flat(t, last)|)
    && var ts := Tokens(t, last, accepted[..commit]);
    && |emitted| <= |ts| && emitted == ts[..|emitted|]
    && (hitStop ==> |emitted| < |ts| && stop(ts[|emitted|])) && (!hitStop ==> emitted == ts)
  }

  lemma RoundFacts<R>(m: Model<R>, stop: nat -> bool, ctx: seq<nat>, need: nat, t: Tree, last: nat, rows: seq<R>,
                      posterior: seq<nat>, accepted: seq<nat>, next: nat, commit: nat, emitted: seq<nat>, hitStop: bool,
                      cache: seq<R>)
    requires Walked(m, ctx, t, last, rows, posterior, accepted, next) && WellFormed(t)
    requires last == Answer(m, ctx) && need > 0
    requires |accepted| <= |t.parents| == |rows| && forall i :: 0 <= i < |accepted| ==> accepted[i] < |t.parents|
    requires Sent(stop, t, last, need, accepted, commit, emitted, hitStop)
    requires Agrees(Answers(m), ctx, Tokens(t, last, accepted[..commit])) ==>
      Greedy(Answers(m), stop, ctx, need) == emitted + Greedy(Answers(m), stop, ctx + emitted, need - |emitted|)
    requires Agrees(Answers(m), ctx, Tokens(t, last, accepted[..commit])) && hitStop ==>
      Greedy(Answers(m), stop, ctx + emitted, need - |emitted|) == []
    requires Left(m, ctx, rows, accepted[..|emitted|], hitStop || |emitted| == 0 || stop(next), cache)
    ensures emitted == [] || OnSomePath(t, last, emitted)
    ensures AllInWindow(t, m.window) ==>
      RoundOk(m, stop, ctx, need, cache, emitted, next, hitStop || |emitted| == 0 || stop(next))
    ensures AllInWindow(t, m.window) && Contiguous(accepted[..|emitted|]) ==> Holds(m, cache, ctx + emitted)
  {
    hide Greedy, Walked, Rows, Answer, Gathered, Contiguous, AllInWindow, Agrees, RoundOk, OnSomePath, WellFormed, Left,
      Tokens;
    WalkedNonempty(m, ctx, t, last, rows, posterior, accepted, next);
    TokensPrefix(t, last, accepted, commit, |emitted|);
    if emitted != [] { WalkedPath(m, ctx, t, last, rows, posterior, accepted, next, |emitted|); }
    if AllInWindow(t, m.window) {
      WalkedAgrees(m, ctx, t, last, rows, posterior, accepted, next, commit);
      FinishRound(m, stop, ctx, need, t, last, rows, posterior, accepted, next, commit, emitted, hitStop, cache);
    }
  }

  lemma WalkedNonempty<R>(m: Model<R>, ctx: seq<nat>, t: Tree, last: nat, rows: seq<R>, posterior: seq<nat>,
                          accepted: seq<nat>, next: nat)
    requires Walked(m, ctx, t, last, rows, posterior, accepted, next)
    ensures accepted != []
  {
    hide PassOk, WellFormed;
  }

  /** The tokens are the pending one and those of some slot's path. */
  ghost predicate OnSomePath(t: Tree, last: nat, ts: seq<nat>)
    requires WellFormed(t)
  {
    exists j :: 0 <= j < |t.parents| && ts == [last] + TokenPath(t, j)
  }

  /** The tokens of slot i may all be committed: the target says the same, none is a stop, and the budget allows
      them. */
  ghost predicate Committable<R>(m: Model<R>, stop: nat -> bool, ctx: seq<nat>, t: Tree, last: nat, need: nat, i: nat)
    requires WellFormed(t) && i < |t.parents|
  {
    var ts := [last] + TokenPath(t, i);
    |ts| <= need && Agrees(Answers(m), ctx, ts) && forall k :: 0 <= k < |ts| ==> !stop(ts[k])
  }

  /** The round emits at least the tokens of every slot that could be committed. */
  ghost predicate TakesAll<R>(m: Model<R>, stop: nat -> bool, ctx: seq<nat>, t: Tree, last: nat, need: nat,
                              emitted: seq<nat>)
    requires WellFormed(t)
  {
    forall i :: 0 <= i < |t.parents| && Committable(m, stop, ctx, t, last, need, i) ==>
      [last] + TokenPath(t, i) <= emitted
  }

  lemma DraftedUnambiguous(draft: Draft, K: nat, budget: int, chainSeed: bool, window: Window, tree: Tree)
    requires DraftedTree(draft, K, budget, chainSeed, window, tree) && DistinctTokens(draft)
    ensures Unambiguous(tree)
  {
    hide Promised, RightlySeeded, Unambiguous, DistinctTokens;
    var paths, seeded :| Promised(draft, budget, window, tree, paths, seeded);
    BuiltUnambiguous(draft, budget, window, tree, paths, seeded);
  }

  /** The first k accepted tokens spell the path of the k-th accepted slot. */
  lemma WalkedPath<R>(m: Model<R>, ctx: seq<nat>, t: Tree, last: nat, rows: seq<R>, posterior: seq<nat>,
                      accepted: seq<nat>, next: nat, k: nat)
    requires Walked(m, ctx, t, last, rows, posterior, accepted, next) && 0 < k <= |accepted|
    ensures WellFormed(t) && forall i :: 0 <= i < |accepted| ==> accepted[i] < |Flat(t, last)|
    ensures accepted[k - 1] < |t.parents| && Tokens(t, last, accepted[..k]) == [last] + TokenPath(t, accepted[k - 1])
    ensures OnSomePath(t, last, Tokens(t, last, accepted[..k]))
  {
    hide PassOk, WellFormed, Follows, Tokens, TokenPath;
    FollowedContext(t, posterior, accepted, [], last, k - 1);
    assert [] + Tokens(t, last, accepted[..k]) == Tokens(t, last, accepted[..k]);
    assert [] + ([last] + TokenPath(t, accepted[k - 1])) == [last] + TokenPath(t, accepted[k - 1]);
  }

  lemma TakesLongest<R>(m: Model<R>, stop: nat -> bool, ctx: seq<nat>, t: Tree, last: nat, need: nat, rows: seq<R>,
                        posterior: seq<nat>, accepted: seq<nat>, next: nat, commit: nat, emitted: seq<nat>,
                        hitStop: bool)
    requires Walked(m, ctx, t, last, rows, posterior, accepted, next) && AllInWindow(t, m.window) && Unambiguous(t)
    requires Sent(stop, t, last, need, accepted, commit, emitted, hitStop)
    ensures TakesAll(m, stop, ctx, t, last, need, emitted)
  {
    hide PassOk, Follows, Tokens, TokenPath, AllInWindow, PosteriorOk, Agrees, Rows, Answer, WellFormed;
    PassPosterior(m, ctx, t, last, rows, posterior);
    ShapeDepths(t);
    forall i | 0 <= i < |t.parents| && Committable(m, stop, ctx, t, last, need, i)
      ensures [last] + TokenPath(t, i) <= emitted
    {
      var path := [last] + TokenPath(t, i);
      LongestAccepted(Answers(m), ctx, t, last, posterior, accepted, i);
      var k := Depth(t, i) + 1;
      WalkedPath(m, ctx, t, last, rows, posterior, accepted, next, k);
      TokensPrefix(t, last, accepted, commit, k);
      StopsLater(stop, Tokens(t, last, accepted[..commit]), path, emitted, hitStop);
    }
  }

  /** Emission does not end inside a stop-free prefix. */
  lemma StopsLater(stop: nat -> bool, ts: seq<nat>, path: seq<nat>, emitted: seq<nat>, hitStop: bool)
    requires |path| <= |ts| && ts[..|path|] == path && forall k :: 0 <= k < |path| ==> !stop(path[k])
    requires |emitted| <= |ts| && emitted == ts[..|emitted|]
    requires (hitStop ==> |emitted| < |ts| && stop(ts[|emitted|])) && (!hitStop ==> emitted == ts)
    ensures path <= emitted
  {
    forall k | 0 <= k < |path| ensures !stop(ts[k]) { assert ts[k] == ts[..|path|][k]; }
  }

  /** What the round leaves: compacted rows when it goes on, the pass's own rows when it ends the loop. */
  ghost predicate Left<R>(m: Model<R>, ctx: seq<nat>, rows: seq<R>, slots: seq<nat>, done: bool, cache: seq<R>)
    requires forall i :: 0 <= i < |slots| ==> slots[i] < |rows|
  {
    |slots| <= |rows| && |ctx| + |slots| <= |cache| &&
    cache[..|ctx| + |slots|] == Rows(m, ctx) + (if done then rows[..|slots|] else Gathered(rows, slots))
  }

  lemma FinishRound<R>(m: Model<R>, stop: nat -> bool, ctx: seq<nat>, need: nat, t: Tree, last: nat, rows: seq<R>,
                       posterior: seq<nat>, accepted: seq<nat>, next: nat, commit: nat, emitted: seq<nat>,
                       hitStop: bool, cache: seq<R>)
    requires Walked(m, ctx, t, last, rows, posterior, accepted, next) && AllInWindow(t, m.window)
    requires |accepted| <= |t.parents| == |rows| && 0 < commit == (if |accepted| > need then need else |accepted|)
    requires forall i :: 0 <= i < |accepted| ==> accepted[i] < |Flat(t, last)| && accepted[i] < |t.parents|
    requires |emitted| <= commit && emitted == Tokens(t, last, accepted[..commit])[..|emitted|]
    requires !hitStop ==> |emitted| == commit
    requires Greedy(Answers(m), stop, ctx, need) == emitted + Greedy(Answers(m), stop, ctx + emitted, need - |emitted|)
    requires hitStop ==> Greedy(Answers(m), stop, ctx + emitted, need - |emitted|) == []
    requires commit == |accepted| ==> next == Answers(m)(ctx + Tokens(t, last, accepted[..commit]))
    requires Left(m, ctx, rows, accepted[..|emitted|], hitStop || |emitted| == 0 || stop(next), cache)
    ensures RoundOk(m, stop, ctx, need, cache, emitted, next, hitStop || |emitted| == 0 || stop(next))
    ensures Contiguous(accepted[..|emitted|]) ==> Holds(m, cache, ctx + emitted)
  {
    hide Greedy, Walked, Rows, Answer, Gathered, Contiguous, Tokens, AllInWindow;
    var k := |emitted|;
    TokensPrefix(t, last, accepted, commit, k);
    WalkedRows(m, ctx, t, last, rows, posterior, accepted, next, k);
    if !hitStop && stop(next) { NothingLeft(Answers(m), stop, ctx + emitted, need - k); }
  }

  lemma SlotsInTree(t: Tree, posterior: seq<nat>, accepted: seq<nat>)
    requires Follows(t, posterior, accepted) && WellFormed(t)
    ensures forall i :: 0 <= i < |accepted| ==> accepted[i] < |t.parents|
  {
    TreeShape(t);
  }

  /** A path has at most as many slots as the tree. */
  lemma {:induction false} PathFits(t: Tree, posterior: seq<nat>, accepted: seq<nat>, k: nat)
    requires WellFormed(t) && Follows(t, posterior, accepted) && k <= |accepted|
    ensures k > 0 ==> k - 1 <= accepted[k - 1]
    ensures k <= |t.parents|
    decreases k
  {
    TreeShape(t);
    if k > 1 {
      PathFits(t, posterior, accepted, k - 1);
      var a, b := accepted[k - 2], accepted[k - 1];
      assert StepsTo(t, posterior, accepted[k - 1 - 1], accepted[k - 1]) && Edge(t, a, posterior[a]) && Below(t, b);
    }
  }

  /** A chain round: leading matches are accepted, the first mismatch is replaced by the target's token. */
  method ChainRound<R>(m: Model<R>, cache: array<R>, committed: nat, stop: nat -> bool, last: nat, need: nat,
                       drafted: seq<nat>, ghost ctx: seq<nat>)
    returns (ok: bool, emitted: seq<nat>, next: nat, done: bool)
    requires |ctx| == committed && Holds(m, cache[..], ctx) && last == Answer(m, ctx) && need > 0
    modifies cache
    ensures ok <==> committed + 1 + |drafted| <= cache.Length
    ensures ok ==> emitted <= [last] + drafted && ChainTakesAll(Answers(m), stop, ctx, [last] + drafted, need, emitted)
    ensures ok ==> RoundOk(m, stop, ctx, need, cache[..], emitted, next, done) && Holds(m, cache[..], ctx + emitted)
  {
    hide Greedy, Rows, Answer, Holds, Agrees, Replayed;
    ghost var target := Answers(m);
    emitted, next, done := [], 0, false;
    var batch := [last] + drafted;
    if committed + |batch| > cache.Length {
      return false, emitted, next, done;
    }
    ok := true;
    var said := VerifyBatch(m, cache, committed, batch, ctx);
    var replay;
    assert Said(target, ctx, batch, said);
    replay, next := MatchChain(target, stop, ctx, batch, said, need);
    emitted, done := Emit(target, stop, ctx, replay, need);
    ChainLongest(target, stop, ctx, batch, need, replay, emitted, done);
    ChainEmitted(stop, batch, replay, next, emitted, done);
    HoldsPrefix(m, cache[..], ctx + batch, committed + |emitted|);
    assert (ctx + batch)[..committed + |emitted|] == ctx + batch[..|emitted|];
  }

  /** The round emits at least every prefix of the batch that the target agrees with, holds no stop and is within
      need. */
  ghost predicate ChainTakesAll(target: Target, stop: nat -> bool, ctx: seq<nat>, batch: seq<nat>, need: nat,
                                emitted: seq<nat>) {
    forall k :: 0 <= k <= |batch| && k <= need && Agrees(target, ctx, batch[..k]) && StopFree(stop, batch, k) ==>
      k <= |emitted|
  }

  predicate StopFree(stop: nat -> bool, batch: seq<nat>, k: nat)
    requires k <= |batch|
  {
    forall i :: 0 <= i < k ==> !stop(batch[i])
  }

  lemma ChainLongest(target: Target, stop: nat -> bool, ctx: seq<nat>, batch: seq<nat>, need: nat, replay: seq<nat>,
                     emitted: seq<nat>, hitStop: bool)
    requires Reaches(target, ctx, batch, need, replay) && |emitted| <= |replay| && emitted == replay[..|emitted|]
    requires (hitStop ==> |emitted| < |replay| && stop(replay[|emitted|])) && (!hitStop ==> emitted == replay)
    ensures ChainTakesAll(target, stop, ctx, batch, need, emitted)
  {
    hide Agrees;
    forall k | 0 <= k <= |batch| && k <= need && Agrees(target, ctx, batch[..k]) && StopFree(stop, batch, k)
      ensures k <= |emitted|
    {
      assert k <= |replay| && replay[..k] == batch[..k];
      StopsLater(stop, replay, batch[..k], emitted, hitStop);
    }
  }

  /** What is handed to the emit loop starts with every prefix of the batch that may be committed. */
  ghost predicate Reaches(target: Target, ctx: seq<nat>, batch: seq<nat>, need: nat, replay: seq<nat>) {
    forall k :: 0 <= k <= |batch| && k <= need && Agrees(target, ctx, batch[..k]) ==>
      k <= |replay| && replay[..k] == batch[..k]
  }

  /** What the emit loop gets: accepted batch tokens, and the bonus token only when it is a stop. */
  ghost predicate Replayed(stop: nat -> bool, batch: seq<nat>, replay: seq<nat>, next: nat) {
    replay != [] && (replay <= batch || (stop(next) && replay[|replay| - 1] == next && replay[..|replay| - 1] <= batch))
  }

  lemma ChainEmitted(stop: nat -> bool, batch: seq<nat>, replay: seq<nat>, next: nat, emitted: seq<nat>, done: bool)
    requires Replayed(stop, batch, replay, next) && |emitted| <= |replay| && emitted == replay[..|emitted|]
    requires !done ==> emitted == replay && forall k :: 0 <= k < |replay| ==> !stop(replay[k])
    requires done ==> |emitted| < |replay|
    ensures |emitted| <= |batch| && emitted == batch[..|emitted|] && (!done ==> emitted != [])
  {
    if !done { assert !stop(replay[|replay| - 1]); }
  }

  /** What verify_batch answers after every prefix of the batch. */
  ghost predicate Said(target: Target, ctx: seq<nat>, batch: seq<nat>, said: seq<nat>) {
    |said| == |batch| && forall i :: 0 <= i < |batch| ==> said[i] == target(ctx + batch[..i + 1])
  }

  lemma SaidAt(target: Target, ctx: seq<nat>, batch: seq<nat>, said: seq<nat>, k: nat)
    requires Said(target, ctx, batch, said) && 0 < k <= |batch|
    ensures said[k - 1] == target(ctx + batch[..k])
  {}

  /** The accept loop. */
  method AcceptChain(ghost target: Target, ghost ctx: seq<nat>, batch: seq<nat>, said: seq<nat>) returns (accept: nat)
    requires batch != [] && batch[0] == target(ctx) && Said(target, ctx, batch, said)
    ensures 1 <= accept <= |batch| && Agrees(target, ctx, batch[..accept])
    ensures accept < |batch| ==> batch[accept] != said[accept - 1]
    ensures forall k :: 0 <= k <= |batch| && Agrees(target, ctx, batch[..k]) ==> k <= accept
  {
    hide Said;
    assert |said| == |batch| by { SaidSize(target, ctx, batch, said); }
    accept := 1;
    assert ctx + batch[..1][..0] == ctx;
    while accept < |batch| && batch[accept] == said[accept - 1]
      invariant 1 <= accept <= |batch| && Agrees(target, ctx, batch[..accept])
    {
      hide Agrees;
      SaidAt(target, ctx, batch, said, accept);
      AgreesSnoc(target, ctx, batch[..accept], batch[accept]);
      assert batch[..accept] + [batch[accept]] == batch[..accept + 1];
      accept := accept + 1;
    }
    hide Agrees;
    forall k | 0 <= k <= |batch| && Agrees(target, ctx, batch[..k]) ensures k <= accept {
      if k > accept { AgreesMeansSaid(target, ctx, batch, said, accept, k); }
    }
  }

  /** A batch prefix that agrees with the target repeats its answers. */
  lemma AgreesMeansSaid(target: Target, ctx: seq<nat>, batch: seq<nat>, said: seq<nat>, a: nat, k: nat)
    requires Said(target, ctx, batch, said) && 0 < a < k <= |batch| && Agrees(target, ctx, batch[..k])
    ensures batch[a] == said[a - 1]
  {
    AgreesAt(target, ctx, batch[..k], a);
    SaidAt(target, ctx, batch, said, a);
    assert batch[..k][..a] == batch[..a];
  }

  lemma SaidSize(target: Target, ctx: seq<nat>, batch: seq<nat>, said: seq<nat>)
    requires Said(target, ctx, batch, said)
    ensures |said| == |batch|
  {}

  /** The accepted tokens and the rules for the bonus token. */
  method MatchChain(ghost target: Target, stop: nat -> bool, ghost ctx: seq<nat>, batch: seq<nat>, said: seq<nat>,
                    need: nat)
    returns (replay: seq<nat>, next: nat)
    requires batch != [] && batch[0] == target(ctx) && need > 0 && Said(target, ctx, batch, said)
    ensures Agrees(target, ctx, replay) && 0 < |replay| <= need && Replayed(stop, batch, replay, next)
    ensures replay <= batch ==> next == target(ctx + replay) || |replay| == need
    ensures Reaches(target, ctx, batch, need, replay)
  {
    hide Said, Agrees, Reaches;
    SaidSize(target, ctx, batch, said);
    var accept := AcceptChain(target, ctx, batch, said);
    SaidAt(target, ctx, batch, said, accept);
    var bonus: int := if accept < |batch| then said[accept - 1] else -1;
    var commit := accept + (if bonus >= 0 then 1 else 0);
    if commit > need {
      commit := need;
      if commit <= accept { bonus := -1; }
    }
    next := said[|batch| - 1];
    if bonus >= 0 {
      next := bonus;
      AgreesSnoc(target, ctx, batch[..accept], next);
      replay := if stop(next) then batch[..accept] + [next] else batch[..accept];
      assert stop(next) ==> replay[..|replay| - 1] == batch[..accept];
    } else {
      replay := batch[..commit];
      AgreesPrefix(target, ctx, batch[..accept], commit);
      assert batch[..accept][..commit] == replay;
    }
    assert replay[..if commit < accept then commit else accept] == batch[..if commit < accept then commit else accept];
    ReachesTo(target, ctx, batch, need, replay, if commit < accept then commit else accept);
  }

  lemma ReachesTo(target: Target, ctx: seq<nat>, batch: seq<nat>, need: nat, replay: seq<nat>, n: nat)
    requires n <= |batch| && n <= |replay| && replay[..n] == batch[..n]
    requires forall k :: 0 <= k <= |batch| && k <= need && Agrees(target, ctx, batch[..k]) ==> k <= n
    ensures Reaches(target, ctx, batch, need, replay)
  {
    hide Agrees;
    forall k | 0 <= k <= |batch| && k <= need && Agrees(target, ctx, batch[..k])
      ensures k <= |replay| && replay[..k] == batch[..k]
    {
      assert replay[..k] == replay[..n][..k] && batch[..k] == batch[..n][..k];
    }
  }

  datatype Round =
    | ByTree(draft: Draft, K: nat, budget: int, chainSeed: bool, window: Window)
    | ByChain(drafted: seq<nat>)

  /** The draft is rectangular and its depth inside the target's sliding window. */
  ghost predicate Usable<R>(m: Model<R>, r: Round) { r.ByTree? ==> Rectangular(r.draft, r.K) && |r.draft| < m.window }

  /** The rows the round writes behind the committed ones. */
  predicate NeedsAtMost(r: Round, slack: nat) {
    match r case ByTree(_, _, budget, _, _) => 0 <= budget < slack case ByChain(drafted) => |drafted| < slack
  }

  /** A round commits everything that its draft and the target agree on. */
  ghost predicate Took<R>(m: Model<R>, stop: nat -> bool, ctx: seq<nat>, need: nat, r: Round, emitted: seq<nat>) {
    match r
    case ByTree(draft, K, budget, chainSeed, window) =>
      exists tree :: WellFormed(tree) && DraftedTree(draft, K, budget, chainSeed, window, tree) &&
        (DistinctTokens(draft) ==> TakesAll(m, stop, ctx, tree, Answer(m, ctx), need, emitted))
    case ByChain(drafted) => ChainTakesAll(Answers(m), stop, ctx, [Answer(m, ctx)] + drafted, need, emitted)
  }

  /** The tokens of successive rounds, end to end. */
  function Joined(took: seq<seq<nat>>): seq<nat> {
    if took == [] then [] else Joined(took[..|took| - 1]) + took[|took| - 1]
  }

  /** Round after round, from the prompt on. */
  ghost predicate AllTook<R>(m: Model<R>, stop: nat -> bool, prompt: seq<nat>, n: nat, rounds: seq<Round>,
                             took: seq<seq<nat>>) {
    |took| <= |rounds| && forall r :: 0 <= r < |took| ==> TookAt(m, stop, prompt, n, rounds[r], took, r)
  }

  ghost predicate TookAt<R>(m: Model<R>, stop: nat -> bool, prompt: seq<nat>, n: nat, round: Round,
                            took: seq<seq<nat>>, r: nat)
    requires r < |took|
  {
    var before := Joined(took[..r]);
    |before| < n && Took(m, stop, prompt + before, n - |before|, round, took[r])
  }

  lemma AllTookSnoc<R>(m: Model<R>, stop: nat -> bool, prompt: seq<nat>, n: nat, rounds: seq<Round>,
                       took: seq<seq<nat>>, emitted: seq<nat>)
    requires AllTook(m, stop, prompt, n, rounds, took) && |took| < |rounds| && |Joined(took)| < n
    requires Took(m, stop, prompt + Joined(took), n - |Joined(took)|, rounds[|took|], emitted)
    ensures AllTook(m, stop, prompt, n, rounds, took + [emitted])
    ensures Joined(took + [emitted]) == Joined(took) + emitted
  {
    hide Took, Joined;
    var more := took + [emitted];
    assert more[..|took|] == took;
    forall r | 0 <= r < |more| ensures TookAt(m, stop, prompt, n, rounds[r], more, r) {
      assert more[..r] == took[..r];
      if r < |took| { assert TookAt(m, stop, prompt, n, rounds[r], took, r); }
    }
    JoinedSnoc(took, emitted);
  }

  lemma JoinedSnoc(took: seq<seq<nat>>, emitted: seq<nat>)
    ensures Joined(took + [emitted]) == Joined(took) + emitted
  {
    assert (took + [emitted])[..|took|] == took;
  }

  lemma NothingTook<R>(m: Model<R>, stop: nat -> bool, prompt: seq<nat>, n: nat, rounds: seq<Round>)
    ensures AllTook(m, stop, prompt, n, rounds, []) && Joined([]) == []
  {}

  lemma TreeTook<R>(m: Model<R>, stop: nat -> bool, ctx: seq<nat>, need: nat, r: Round, tree: Tree, emitted: seq<nat>)
    requires r.ByTree? && WellFormed(tree) && DraftedTree(r.draft, r.K, r.budget, r.chainSeed, r.window, tree)
    requires DistinctTokens(r.draft) ==> TakesAll(m, stop, ctx, tree, Answer(m, ctx), need, emitted)
    ensures Took(m, stop, ctx, need, r, emitted)
  {
    hide WellFormed, DraftedTree, DistinctTokens, TakesAll, Answer;
  }

  lemma ChainTook<R>(m: Model<R>, stop: nat -> bool, ctx: seq<nat>, need: nat, r: Round, emitted: seq<nat>)
    requires r.ByChain? && ChainTakesAll(Answers(m), stop, ctx, [Answer(m, ctx)] + r.drafted, need, emitted)
    ensures Took(m, stop, ctx, need, r, emitted)
  {
    hide ChainTakesAll, Answer;
  }

  /** One round of either kind. */
  method RunRound<R>(m: Model<R>, cache: array<R>, committed: nat, stop: nat -> bool, last: nat, need: nat, r: Round,
                     ghost ctx: seq<nat>)
    returns (ok: bool, emitted: seq<nat>, next: nat, done: bool, slots: seq<nat>)
    requires |ctx| == committed && Holds(m, cache[..], ctx) && last == Answer(m, ctx) && need > 0 && Usable(m, r)
    modifies cache
    ensures forall slack: nat :: NeedsAtMost(r, slack) && committed + slack <= cache.Length ==> ok
    ensures ok ==> RoundOk(m, stop, ctx, need, cache[..], emitted, next, done) && Took(m, stop, ctx, need, r, emitted)
    ensures ok && Contiguous(slots) ==> Holds(m, cache[..], ctx + emitted)
  {
    hide Rectangular, Rows, Answer, Holds, TakesAll, OnSomePath, DraftedTree, ChainTakesAll, DistinctTokens, WellFormed,
      RoundOk, Took, Contiguous;
    slots := [];
    match r {
      case ByTree(draft, K, budget, chainSeed, window) =>
        var tree;
        ok, emitted, next, done, slots, tree :=
          TreeRound(m, cache, committed, stop, last, need, draft, K, budget, chainSeed, window, ctx);
        if ok { TreeTook(m, stop, ctx, need, r, tree, emitted); }
      case ByChain(drafted) =>
        ok, emitted, next, done := ChainRound(m, cache, committed, stop, last, need, drafted, ctx);
        if ok { ChainTook(m, stop, ctx, need, r, emitted); }
    }
  }

  /**
  The decode loop: any mix of tree and chain rounds over any drafts, then the autoregressive tail. `slots` are the
  accepted slots of a tree round that ended the loop without compaction, and empty otherwise; `took` holds what each
  round emitted.
  */
  method Decode<R>(m: Model<R>, cache: array<R>, stop: nat -> bool, last0: nat, n: nat, rounds: seq<Round>,
                   ghost prompt: seq<nat>, committed0: nat, ghost slack: nat)
    returns (ok: bool, out: seq<nat>, slots: seq<nat>, took: seq<seq<nat>>)
    requires |prompt| == committed0 && Holds(m, cache[..], prompt) && last0 == Answer(m, prompt)
    requires forall i :: 0 <= i < |rounds| ==> Usable(m, rounds[i])
    modifies cache
    ensures (forall i :: 0 <= i < |rounds| ==> NeedsAtMost(rounds[i], slack)) ==>
      committed0 + n + slack <= cache.Length ==> ok
    ensures out <= Greedy(Answers(m), stop, prompt, n)
    ensures ok ==> out == Greedy(Answers(m), stop, prompt, n)
    ensures ok && Contiguous(slots) ==> Holds(m, cache[..], prompt + out)
    // every round in turn commits all it can, and single tokens are decoded only after the last round
    ensures AllTook(m, stop, prompt, n, rounds, took) && Joined(took) <= out
    ensures ok && out != Joined(took) ==> |took| == |rounds|
  {
    hide Greedy, Rectangular, Rows, Answer, Holds, TakesAll, OnSomePath, DraftedTree, ChainTakesAll, DistinctTokens,
      WellFormed, AllTook, Joined, Took;
    ghost var target := Answers(m);
    out, slots, took := [], [], [];
    NothingTook(m, stop, prompt, n, rounds);
    assert prompt + out == prompt;
    var last := last0;
    var r := 0;
    while |out| < n
      invariant |out| <= n && r <= |rounds| && (last == target(prompt + out) || |out| == n) && slots == []
      invariant Greedy(target, stop, prompt, n) == out + Greedy(target, stop, prompt + out, n - |out|)
      invariant Holds(m, cache[..], prompt + out)
      invariant |took| == r && Joined(took) == out && AllTook(m, stop, prompt, n, rounds, took)
      decreases |rounds| - r
    {
      var need, committed := n - |out|, committed0 + |out|;
      ghost var ctx := prompt + out;
      if r == |rounds| {
        var tail;
        ok, tail := AutoregressiveTail(m, cache, committed, stop, last, need, ctx);
        Seqs.Assoc(prompt, out, tail);
        out := out + tail;
        return;
      }
      var emitted, next, done;
      assert Usable(m, rounds[r]);
      ok, emitted, next, done, slots := RunRound(m, cache, committed, stop, last, need, rounds[r], ctx);
      if !ok {
        return;
      }
      Seqs.Assoc(out, emitted, Greedy(target, stop, ctx + emitted, need - |emitted|));
      Seqs.Assoc(prompt, out, emitted);
      AllTookSnoc(m, stop, prompt, n, rounds, took, emitted);
      took := took + [emitted];
      out, last, r := out + emitted, next, r + 1;
      if done {
        assert out + [] == out;
        return;
      }
      slots := [];
    }
    NothingLeft(target, stop, prompt + out, 0);
    assert out + [] == out;
    ok := true;
  }
}
