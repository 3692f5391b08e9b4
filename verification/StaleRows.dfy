/**
What the cache holds after a tree round that ends the decode loop, server/src/laguna/laguna_backend.cpp:1026-1034: such
a round skips the compaction, so its rows stay where the tree pass wrote them.
*/
module StaleRows {
  import opened DraftTree
  import opened TreeMask
  import opened KvRows
  import opened SpeculativeDecoding

  // ---- a model that hides nothing

  /** A model whose row of a token is its whole context and whose answers are any function of that context. */
  function Transparent(w: nat, says: Target): Model<seq<nat>> {
    Model((full: seq<seq<nat>>, sliding: seq<seq<nat>>, position: nat, token: nat) =>
      (var row := (if full == [] then [] else full[|full| - 1]) + [token]; (row, says(row))), w, [])
  }

  lemma TransparentWindow(w: nat, says: Target)
    ensures Transparent(w, says).window == w
  {}

  lemma TransparentStep(w: nat, says: Target, rows: seq<seq<nat>>, token: nat)
    ensures var row := (if rows == [] then [] else rows[|rows| - 1]) + [token];
      Step(Transparent(w, says), rows, token) == (row, says(row))
  {
    hide Sliding;
    var m := Transparent(w, says);
    assert Step(m, rows, token) == m.compute(rows, Sliding(rows, w), |rows|, token);
  }

  lemma {:induction false} TransparentRows(w: nat, says: Target, ctx: seq<nat>)
    ensures forall k :: 0 <= k < |ctx| ==> Rows(Transparent(w, says), ctx)[k] == ctx[..k + 1]
    ensures ctx != [] ==> Answer(Transparent(w, says), ctx) == says(ctx)
    decreases |ctx|
  {
    hide Rows, Step, Transparent, Answer;
    if ctx != [] {
      var m, front, x := Transparent(w, says), ctx[..|ctx| - 1], ctx[|ctx| - 1];
      TransparentRows(w, says, front);
      assert front[..|front|] == front && front + [x] == ctx;
      TransparentStep(w, says, Rows(m, front), x);
      RowsSnoc(m, front, x);
      assert Step(m, Rows(m, front), x) == (ctx, says(ctx));
      forall k | 0 <= k < |ctx| ensures Rows(m, ctx)[k] == ctx[..k + 1] {
        if k < |front| {
          assert front[..k + 1] == ctx[..k + 1];
        } else {
          assert ctx[..k + 1] == ctx;
        }
      }
    }
  }

  /** In an unambiguous tree different slots have different paths. */
  lemma {:induction false} PathsDistinct(t: Tree, i: nat, j: nat)
    requires Unambiguous(t) && i < |t.parents| && j < |t.parents| && TokenPath(t, i) == TokenPath(t, j)
    ensures i == j
    decreases i
  {
    if i == 0 || j == 0 {
      if i > 0 { PathStep(t, i); }
      if j > 0 { PathStep(t, j); }
    } else {
      PathStep(t, i);
      PathStep(t, j);
      var a, b := TokenPath(t, t.parents[i]), TokenPath(t, t.parents[j]);
      SameSnoc(a, t.tokens[i - 1], b, t.tokens[j - 1]);
      PathsDistinct(t, t.parents[i], t.parents[j]);
      assert Reached(t, i) && Reached(t, j);
    }
  }

  lemma SameSnoc(a: seq<nat>, x: nat, b: seq<nat>, y: nat)
    requires a + [x] == b + [y]
    ensures a == b && x == y
  {
    assert (a + [x])[|a|] == x && (b + [y])[|b|] == y;
    assert a == (a + [x])[..|a|] && b == (b + [y])[..|b|];
  }

  // ---- the rows of one round

  /** What an uncompacted round leaves is the cache of plain decoding after its first k accepted tokens. */
  ghost predicate RowsRight<R>(m: Model<R>, ctx: seq<nat>, t: Tree, last: nat, rows: seq<R>, accepted: seq<nat>,
                               k: nat) {
    && k <= |accepted| && k <= |rows| && (forall i :: 0 <= i < |accepted| ==> accepted[i] < |Flat(t, last)|)
    && Rows(m, ctx) + rows[..k] == Rows(m, ctx + Tokens(t, last, accepted[..k]))
  }

  /** For every model the rows are right if the accepted slots are the first ones. */
  lemma ContiguousRight<R>(m: Model<R>, ctx: seq<nat>, t: Tree, last: nat, rows: seq<R>, posterior: seq<nat>,
                           accepted: seq<nat>, k: nat)
    requires WellFormed(t) && AllInWindow(t, m.window) && PassOk(m, ctx, t, last, rows, posterior)
    requires |rows| == |t.parents| && Follows(t, posterior, accepted) && k <= |accepted| && Contiguous(accepted[..k])
    ensures RowsRight(m, ctx, t, last, rows, accepted, k)
  {
    hide PassOk, Rows, Tokens;
    TreeShape(t);
    PathFits(t, posterior, accepted, k);
    ContiguousHolds(m, ctx, t, last, rows, posterior, accepted, k);
  }

  /** For a model that hides nothing, whatever it answers, they are right exactly then. */
  lemma UncompactedExact(w: nat, says: Target, ctx: seq<nat>, t: Tree, last: nat, rows: seq<seq<nat>>,
                         posterior: seq<nat>, accepted: seq<nat>, k: nat)
    requires Unambiguous(t) && AllInWindow(t, w) && PassOk(Transparent(w, says), ctx, t, last, rows, posterior)
    requires |rows| == |t.parents| && Follows(t, posterior, accepted) && k <= |accepted|
    ensures RowsRight(Transparent(w, says), ctx, t, last, rows, accepted, k) <==> Contiguous(accepted[..k])
  {
    hide PassOk, Transparent, Rows, TokenPath, Gathered, Exact, SlotContext, Follows;
    TreeShape(t);
    var m := Transparent(w, says);
    TransparentWindow(w, says);
    if Contiguous(accepted[..k]) {
      ContiguousRight(m, ctx, t, last, rows, posterior, accepted, k);
    }
    if RowsRight(m, ctx, t, last, rows, accepted, k) {
      ExactRows(m, ctx, t, last, rows, posterior);
      forall d | 0 <= d < k ensures accepted[d] == d {
        RowsTellSlots(w, says, ctx, t, last, rows, posterior, accepted, k, d);
      }
    }
  }

  lemma RowsTellSlots(w: nat, says: Target, ctx: seq<nat>, t: Tree, last: nat, rows: seq<seq<nat>>,
                      posterior: seq<nat>, accepted: seq<nat>, k: nat, d: nat)
    requires Unambiguous(t) && AllInWindow(t, w) && Exact(Transparent(w, says), ctx, t, last, rows)
    requires |rows| == |t.parents| && Follows(t, posterior, accepted) && d < k
    requires RowsRight(Transparent(w, says), ctx, t, last, rows, accepted, k)
    ensures accepted[d] == d
  {
    hide Transparent, Rows, Gathered, Exact, TokenPath;
    TreeShape(t);
    var m := Transparent(w, says);
    TransparentWindow(w, says);
    var all := ctx + Tokens(t, last, accepted[..k]);
    var c := SlotContext(ctx, t, last, d);
    ExactAt(m, ctx, t, last, rows, d);
    TransparentRows(w, says, c);
    assert c[..|c|] == c;
    assert Rows(m, all)[|ctx| + d] == rows[..k][d] == c;
    TransparentRows(w, says, all);
    TokensPrefix(t, last, accepted, k, d + 1);
    assert all[..|ctx| + d + 1] == ctx + Tokens(t, last, accepted[..d + 1]);
    FollowedContext(t, posterior, accepted, ctx, last, d);
    SamePath(ctx, last, TokenPath(t, d), TokenPath(t, accepted[d]));
    PathsDistinct(t, d, accepted[d]);
  }

  lemma SamePath(ctx: seq<nat>, last: nat, a: seq<nat>, b: seq<nat>)
    requires ctx + ([last] + a) == ctx + ([last] + b)
    ensures a == b
  {
    assert a == (ctx + ([last] + a))[|ctx| + 1..] && b == (ctx + ([last] + b))[|ctx| + 1..];
  }

  // ---- a condition on the tree alone

  /** Every slot hangs below the slot before it. */
  ghost predicate IsChain(t: Tree) { forall i :: 0 < i < |t.parents| ==> t.parents[i] == i - 1 }

  /** In a chain every accepted path consists of the first slots. */
  lemma {:induction false} ChainContiguous(t: Tree, posterior: seq<nat>, accepted: seq<nat>, k: nat)
    requires WellFormed(t) && IsChain(t) && Follows(t, posterior, accepted) && k <= |accepted|
    ensures Contiguous(accepted[..k])
    decreases k
  {
    TreeShape(t);
    if k > 0 {
      ChainContiguous(t, posterior, accepted, k - 1);
      assert accepted[..k][..k - 1] == accepted[..k - 1];
      if k > 1 {
        var a, b := accepted[k - 2], accepted[k - 1];
        assert accepted[..k - 1][k - 2] == k - 2;
        assert StepsTo(t, posterior, accepted[k - 1 - 1], accepted[k - 1]) && Edge(t, a, posterior[a]);
      }
      hide WellFormed, Follows, IsChain;
      forall d | 0 <= d < k ensures accepted[..k][d] == d {
        if d < k - 1 { assert accepted[..k - 1][d] == accepted[..k][d]; }
      }
    }
  }

  /** The slots a walk along the posterior visits from `at` on. */
  ghost function Trail(t: Tree, posterior: seq<nat>, at: nat): (r: seq<nat>)
    requires WellFormed(t) && |posterior| == |t.children| && at < |t.children|
    ensures r != [] && r[0] == at
    decreases |t.children| - at
  {
    if posterior[at] in t.children[at] then
      var next := t.children[at][posterior[at]];
      assert Edge(t, at, posterior[at]) && Below(t, next);
      [at] + Trail(t, posterior, next)
    else [at]
  }

  lemma {:induction false} TrailFollows(t: Tree, posterior: seq<nat>, at: nat)
    requires WellFormed(t) && |posterior| == |t.children| && at < |t.children|
    ensures var r := Trail(t, posterior, at);
      && (forall k :: 0 <= k < |r| ==> r[k] < |t.children|)
      && (forall k :: 0 < k < |r| ==> StepsTo(t, posterior, r[k - 1], r[k]))
      && posterior[r[|r| - 1]] !in t.children[r[|r| - 1]]
    decreases |t.children| - at
  {
    if posterior[at] in t.children[at] {
      var next := t.children[at][posterior[at]];
      assert Edge(t, at, posterior[at]) && Below(t, next);
      TrailFollows(t, posterior, next);
      var rest, r := Trail(t, posterior, next), Trail(t, posterior, at);
      hide WellFormed, Trail;
      assert r == [at] + rest;
      forall k | 0 < k < |r| ensures StepsTo(t, posterior, r[k - 1], r[k]) {
        if k > 1 { assert r[k - 1] == rest[k - 2] && r[k] == rest[k - 1]; }
      }
    }
  }

  /** A target that says `want` after a context of n tokens and then only f. */
  function Toward(n: nat, want: seq<nat>, f: nat): Target {
    (c: seq<nat>) => if n <= |c| < n + |want| then want[|c| - n] else f
  }

  lemma TowardAgrees(ctx: seq<nat>, want: seq<nat>, f: nat)
    ensures Agrees(Toward(|ctx|, want, f), ctx, want)
  {}

  /** A pass of the transparent model over every slot. */
  ghost function PassRows(m: Model<seq<nat>>, ctx: seq<nat>, t: Tree, last: nat): seq<seq<nat>>
    requires WellFormed(t)
  {
    seq(|t.parents|, i requires 0 <= i < |t.parents| => RowOf(m, SlotContext(ctx, t, last, i)))
  }

  ghost function PassAnswers(m: Model<seq<nat>>, ctx: seq<nat>, t: Tree, last: nat): seq<nat>
    requires WellFormed(t)
  {
    seq<nat>(|t.parents|, i requires 0 <= i < |t.parents| => Answer(m, SlotContext(ctx, t, last, i)))
  }

  /** The tree was verified by a transparent model and followed to the end. */
  ghost predicate Verified(w: nat, says: Target, ctx: seq<nat>, t: Tree, last: nat, rows: seq<seq<nat>>,
                           posterior: seq<nat>, accepted: seq<nat>) {
    && WellFormed(t) && |rows| == |t.parents| && PassOk(Transparent(w, says), ctx, t, last, rows, posterior)
    && Follows(t, posterior, accepted)
    && posterior[accepted[|accepted| - 1]] !in t.children[accepted[|accepted| - 1]]
  }

  /** The round emits its first k accepted tokens and ends the loop, at a stop token or because the pending one is. */
  ghost predicate EndsLoop(stop: nat -> bool, t: Tree, last: nat, posterior: seq<nat>, accepted: seq<nat>, k: nat) {
    && 0 < |accepted| && k <= |accepted| && (forall i :: 0 <= i < |accepted| ==> accepted[i] < |posterior|)
    && |posterior| == |Flat(t, last)|
    && (forall d :: 0 <= d < k ==> !stop(Flat(t, last)[accepted[d]]))
    && (stop(posterior[accepted[|accepted| - 1]]) || (k < |accepted| && stop(Flat(t, last)[accepted[k]])))
  }

  /** Whatever the target says and whatever stops it, a round over this tree that ends the loop leaves right rows. */
  ghost predicate NeverStale(w: nat, ctx: seq<nat>, t: Tree, last: nat) {
    forall says: Target, stop: nat -> bool, rows, posterior, accepted, k: nat ::
      Verified(w, says, ctx, t, last, rows, posterior, accepted) && EndsLoop(stop, t, last, posterior, accepted, k) ==>
        RowsRight(Transparent(w, says), ctx, t, last, rows, accepted, k)
  }

  /** That is so if and only if the tree is a chain. */
  lemma NeverStaleIffChain(w: nat, ctx: seq<nat>, t: Tree, last: nat)
    requires Unambiguous(t) && AllInWindow(t, w)
    ensures NeverStale(w, ctx, t, last) <==> IsChain(t)
  {
    hide Follows, PassOk, Transparent, Rows, AllInWindow, RowsRight, EndsLoop;
    if IsChain(t) {
      forall says: Target, stop: nat -> bool, rows, posterior, accepted, k: nat
        | Verified(w, says, ctx, t, last, rows, posterior, accepted) && EndsLoop(stop, t, last, posterior, accepted, k)
        ensures RowsRight(Transparent(w, says), ctx, t, last, rows, accepted, k)
      {
        ChainRight(w, says, ctx, t, last, rows, posterior, accepted, k, stop);
      }
    } else {
      var i :| 0 < i < |t.parents| && t.parents[i] != i - 1;
      BranchGoesStale(w, ctx, t, last, i);
    }
  }

  lemma ChainRight(w: nat, says: Target, ctx: seq<nat>, t: Tree, last: nat, rows: seq<seq<nat>>, posterior: seq<nat>,
                   accepted: seq<nat>, k: nat, stop: nat -> bool)
    requires Unambiguous(t) && AllInWindow(t, w) && IsChain(t)
    requires Verified(w, says, ctx, t, last, rows, posterior, accepted)
    requires EndsLoop(stop, t, last, posterior, accepted, k)
    ensures RowsRight(Transparent(w, says), ctx, t, last, rows, accepted, k)
  {
    hide Follows, PassOk, Transparent, Rows, AllInWindow, RowsRight;
    TransparentWindow(w, says);
    ChainContiguous(t, posterior, accepted, k);
    ContiguousRight(Transparent(w, says), ctx, t, last, rows, posterior, accepted, k);
  }

  /** A number above all of these. */
  function Above(s: seq<nat>): (f: nat)
    ensures f !in s && forall i :: 0 <= i < |s| ==> s[i] < f
  {
    if s == [] then 0 else
      var rest := Above(s[1..]);
      if s[0] < rest then rest else s[0] + 1
  }

  lemma {:induction false} PassIsOk(w: nat, says: Target, ctx: seq<nat>, t: Tree, last: nat)
    requires WellFormed(t)
    ensures var m := Transparent(w, says);
      && PassOk(m, ctx, t, last, PassRows(m, ctx, t, last), PassAnswers(m, ctx, t, last))
      && PosteriorOk(says, ctx, t, last, PassAnswers(m, ctx, t, last))
  {
    hide WellFormed, Transparent, SlotContext, Rows, RowOf;
    var m := Transparent(w, says);
    ShapeDepths(t);
    var answers := PassAnswers(m, ctx, t, last);
    forall i | 0 <= i < |answers| ensures answers[i] == says(SlotContext(ctx, t, last, i)) {
      TransparentRows(w, says, SlotContext(ctx, t, last, i));
    }
  }

  /** A slot that does not hang below the slot before it can be reached, and then the rows are stale. */
  lemma BranchGoesStale(w: nat, ctx: seq<nat>, t: Tree, last: nat, i: nat)
    requires Unambiguous(t) && AllInWindow(t, w) && 0 < i < |t.parents| && t.parents[i] != i - 1
    ensures !NeverStale(w, ctx, t, last)
  {
    hide WellFormed, Reached, Transparent, AllInWindow, RowsRight, TokenPath, Verified, EndsLoop, Toward;
    var f := Above(Flat(t, last));
    var says, stop := Toward(|ctx|, [last] + TokenPath(t, i), f), Is(f);
    var rows, posterior, accepted := WalkTo(w, says, ctx, t, last, i, f);
    FreshEnds(t, last, f, posterior, accepted);
    UncompactedStale(w, says, ctx, t, last, rows, posterior, accepted, i);
  }

  /** The stop rule that knows one token. */
  function Is(f: nat): nat -> bool { (x: nat) => x == f }

  /** The pass and the walk of a target that spells the path to slot i. */
  lemma WalkTo(w: nat, says: Target, ctx: seq<nat>, t: Tree, last: nat, i: nat, f: nat)
    returns (rows: seq<seq<nat>>, posterior: seq<nat>, accepted: seq<nat>)
    requires Unambiguous(t) && i < |t.parents| && f !in t.tokens
    requires says == Toward(|ctx|, [last] + TokenPath(t, i), f)
    ensures Verified(w, says, ctx, t, last, rows, posterior, accepted) && |posterior| == |Flat(t, last)|
    ensures i <= |t.depths|
    ensures |accepted| == Depth(t, i) + 1 && accepted[Depth(t, i)] == i && posterior[i] == f
    ensures forall k :: 0 <= k < |accepted| ==> accepted[k] < |posterior|
  {
    hide PassOk, Transparent, Rows, PosteriorOk, TokenPath, Agrees, PassRows, PassAnswers, Trail, Toward, Follows;
    var m := Transparent(w, says);
    PassIsOk(w, says, ctx, t, last);
    PassSizes(m, ctx, t, last);
    ShapeDepths(t);
    rows, posterior := PassRows(m, ctx, t, last), PassAnswers(m, ctx, t, last);
    accepted := Trail(t, posterior, 0);
    TrailIsWalk(t, posterior);
    TowardAgrees(ctx, [last] + TokenPath(t, i), f);
    LongestAccepted(says, ctx, t, last, posterior, accepted, i);
    EndsAtFresh(ctx, t, last, i, f, posterior, accepted);
    SlotsInTree(t, posterior, accepted);
  }

  lemma TrailIsWalk(t: Tree, posterior: seq<nat>)
    requires WellFormed(t) && |posterior| == |t.children|
    ensures |t.children| > 0
    ensures var r := Trail(t, posterior, 0);
      Follows(t, posterior, r) && posterior[r[|r| - 1]] !in t.children[r[|r| - 1]]
  {
    hide Trail;
    TreeShape(t);
    TrailFollows(t, posterior, 0);
  }

  lemma FreshEnds(t: Tree, last: nat, f: nat, posterior: seq<nat>, accepted: seq<nat>)
    requires f == Above(Flat(t, last)) && |posterior| == |Flat(t, last)| && accepted != []
    requires (forall k :: 0 <= k < |accepted| ==> accepted[k] < |posterior|) && posterior[accepted[|accepted| - 1]] == f
    ensures EndsLoop(Is(f), t, last, posterior, accepted, |accepted|)
  {
    hide Above;
  }

  lemma UncompactedStale(w: nat, says: Target, ctx: seq<nat>, t: Tree, last: nat, rows: seq<seq<nat>>,
                         posterior: seq<nat>, accepted: seq<nat>, i: nat)
    requires Unambiguous(t) && AllInWindow(t, w) && Verified(w, says, ctx, t, last, rows, posterior, accepted)
    requires 0 < i < |t.parents| && t.parents[i] != i - 1 && i <= |t.depths|
    requires |accepted| == Depth(t, i) + 1 && accepted[Depth(t, i)] == i
    ensures !RowsRight(Transparent(w, says), ctx, t, last, rows, accepted, |accepted|)
  {
    hide Unambiguous, Transparent, AllInWindow, RowsRight, PassOk, Follows, WellFormed;
    NotContiguous(t, posterior, accepted, i);
    assert accepted[..|accepted|] == accepted;
    UncompactedExact(w, says, ctx, t, last, rows, posterior, accepted, |accepted|);
  }

  lemma PassSizes(m: Model<seq<nat>>, ctx: seq<nat>, t: Tree, last: nat)
    requires WellFormed(t)
    ensures |PassRows(m, ctx, t, last)| == |PassAnswers(m, ctx, t, last)| == |t.parents|
    ensures |t.parents| == |t.children| == |Flat(t, last)|
  {
    TreeShape(t);
  }

  /** The walk toward slot i ends there, with the fresh token pending. */
  lemma EndsAtFresh(ctx: seq<nat>, t: Tree, last: nat, i: nat, f: nat, posterior: seq<nat>, accepted: seq<nat>)
    requires Unambiguous(t) && i < |t.parents| && f !in t.tokens && i <= |t.depths|
    requires PosteriorOk(Toward(|ctx|, [last] + TokenPath(t, i), f), ctx, t, last, posterior)
    requires Follows(t, posterior, accepted) && Depth(t, i) < |accepted| && accepted[Depth(t, i)] == i
    ensures |accepted| == Depth(t, i) + 1 && posterior[i] == f
  {
    hide TokenPath;
    TreeShape(t);
    assert posterior[i] == f;
    var d := Depth(t, i);
    if d + 1 < |accepted| {
      hide WellFormed, Follows, PosteriorOk;
      StepAt(t, posterior, accepted, d + 1);
      NoSuchChild(t, i, f);
    }
  }

  lemma StepAt(t: Tree, posterior: seq<nat>, accepted: seq<nat>, k: nat)
    requires Follows(t, posterior, accepted) && 0 < k < |accepted|
    ensures StepsTo(t, posterior, accepted[k - 1], accepted[k])
  {}

  lemma NoSuchChild(t: Tree, i: nat, f: nat)
    requires WellFormed(t) && i < |t.children| && f !in t.tokens
    ensures f !in t.children[i]
  {}

  lemma NotContiguous(t: Tree, posterior: seq<nat>, accepted: seq<nat>, i: nat)
    requires WellFormed(t) && Follows(t, posterior, accepted) && 0 < i < |t.parents| && t.parents[i] != i - 1
    requires i <= |t.depths| && |accepted| == Depth(t, i) + 1 && accepted[Depth(t, i)] == i
    ensures !Contiguous(accepted)
  {
    ParentAbove(t, i);
    var d := Depth(t, i);
    assert StepsTo(t, posterior, accepted[d - 1], accepted[d]) && Edge(t, accepted[d - 1], posterior[accepted[d - 1]]);
  }

  // ---- trees from drafts

  /** With one choice per position the tree is a chain, so the caller can rule stale rows out in advance. */
  lemma SingleChoiceIsChain(draft: Draft, budget: int, w: Window, tree: Tree, paths: seq<Path>, seeded: nat)
    requires Promised(draft, budget, w, tree, paths, seeded) && Rectangular(draft, 1)
    ensures IsChain(tree)
  {
    hide Closed, AllInside, Chain, Ranked, Optimal;
    ShapeDepths(tree);
    forall i | 0 < i < |tree.parents| ensures tree.parents[i] == i - 1 {
      OnlyPath(draft, tree, paths, i);
      assert NodeIs(draft, tree, paths, i) && Below(tree, i);
      OnlyPath(draft, tree, paths, tree.parents[i]);
    }
  }

  /** Node i of such a tree is the path of i first choices. */
  lemma {:induction false} OnlyPath(draft: Draft, tree: Tree, paths: seq<Path>, i: nat)
    requires Linked(draft, tree, paths) && NoDup(paths) && Rectangular(draft, 1) && i < |paths|
    ensures |paths[i]| == i && paths[i] == Zeros(i)
    decreases i
  {
    if i > 0 {
      assert NodeIs(draft, tree, paths, i) && Below(tree, i);
      var p := tree.parents[i];
      OnlyPath(draft, tree, paths, p);
      var n := |paths[i]|;
      assert n == p + 1;
      forall k | 0 <= k < n ensures paths[i][k] == 0 {}
      assert paths[i] == Zeros(n);
      if n < i {
        OnlyPath(draft, tree, paths, n);
      }
    }
  }

  // ---- an input that shows it

  /** Two first choices, 5 and 7. */
  predicate Forked(t: Tree) { t == Tree([5, 7], [1, 1], [-1, 0, 0], [map[5 := 1, 7 := 2], map[], map[]]) }

  /** A target that answers 7 and then 9 accepts slots 0 and 2; if 9 stops it, the row kept for 7 is the one computed
      for 5. */
  lemma ForkGoesStale(w: nat, says: Target, ctx: seq<nat>, t: Tree, last: nat)
    requires Forked(t) && w > 1 && says(ctx + [last]) == 7 && says(ctx + [last, 7]) == 9 && last != 9
    ensures Unambiguous(t) && |t.parents| == 3
    ensures var m := Transparent(w, says);
      var rows, posterior := PassRows(m, ctx, t, last), PassAnswers(m, ctx, t, last);
      && Verified(w, says, ctx, t, last, rows, posterior, [0, 2])
      && EndsLoop(Is(9), t, last, posterior, [0, 2], 2)
      && !RowsRight(m, ctx, t, last, rows, [0, 2], 2)
      && rows[1] == ctx + [last, 5]
  {
    ForkShape(t);
    hide Forked, Transparent, Rows, RowsRight, Unambiguous, WellFormed, Verified, PassRows, PassAnswers, AllInWindow;
    ForkVerified(w, says, ctx, t, last);
    ForkRow(w, says, ctx, t, last);
    ForkWrong(w, says, ctx, t, last);
  }

  lemma ForkVerified(w: nat, says: Target, ctx: seq<nat>, t: Tree, last: nat)
    requires Forked(t) && says(ctx + [last]) == 7 && says(ctx + [last, 7]) == 9 && last != 9
    ensures WellFormed(t)
    ensures var m := Transparent(w, says);
      var rows, posterior := PassRows(m, ctx, t, last), PassAnswers(m, ctx, t, last);
      Verified(w, says, ctx, t, last, rows, posterior, [0, 2]) && EndsLoop(Is(9), t, last, posterior, [0, 2], 2)
  {
    ForkShape(t);
    hide Forked, PassOk, Transparent, Rows, PosteriorOk, PassRows, PassAnswers, WellFormed, TokenPath, EndsLoop,
      Follows;
    var m := Transparent(w, says);
    PassIsOk(w, says, ctx, t, last);
    PassSizes(m, ctx, t, last);
    var posterior := PassAnswers(m, ctx, t, last);
    ForkAnswers(says, ctx, t, last, posterior);
    ForkFollows(t, last, posterior);
  }

  lemma ForkFollows(t: Tree, last: nat, posterior: seq<nat>)
    requires Forked(t) && |posterior| == 3 && posterior[0] == 7 && posterior[2] == 9 && last != 9
    ensures Follows(t, posterior, [0, 2]) && 9 !in t.children[2] && EndsLoop(Is(9), t, last, posterior, [0, 2], 2)
  {
    var accepted: seq<nat> := [0, 2];
    assert StepsTo(t, posterior, 0, 2);
    assert Flat(t, last)[2] == 7;
  }

  lemma ForkWrong(w: nat, says: Target, ctx: seq<nat>, t: Tree, last: nat)
    requires Unambiguous(t) && AllInWindow(t, w)
    requires var m := Transparent(w, says);
      Verified(w, says, ctx, t, last, PassRows(m, ctx, t, last), PassAnswers(m, ctx, t, last), [0, 2])
    ensures !RowsRight(Transparent(w, says), ctx, t, last, PassRows(Transparent(w, says), ctx, t, last), [0, 2], 2)
  {
    hide PassOk, Transparent, Rows, RowsRight, PassRows, PassAnswers, AllInWindow, Follows, WellFormed, Unambiguous;
    var m := Transparent(w, says);
    var rows, posterior := PassRows(m, ctx, t, last), PassAnswers(m, ctx, t, last);
    var accepted: seq<nat> := [0, 2];
    assert accepted[..2] == accepted && accepted[1] == 2;
    UncompactedExact(w, says, ctx, t, last, rows, posterior, accepted, 2);
  }

  lemma ForkShape(t: Tree)
    requires Forked(t)
    ensures Unambiguous(t) && |t.parents| == 3 && t.tokens == [5, 7] && |t.children| == 3
    ensures t.children[0] == map[5 := 1, 7 := 2] && t.children[2] == map[]
    ensures TokenPath(t, 0) == [] && TokenPath(t, 1) == [5] && TokenPath(t, 2) == [7]
    ensures forall w :: w > 1 ==> AllInWindow(t, w)
  {
    assert WellFormed(t);
    assert TokenPath(t, 0) == [];
  }

  lemma ForkAnswers(says: Target, ctx: seq<nat>, t: Tree, last: nat, posterior: seq<nat>)
    requires WellFormed(t) && |t.parents| == 3 && TokenPath(t, 0) == [] && TokenPath(t, 2) == [7]
    requires PosteriorOk(says, ctx, t, last, posterior)
    ensures |posterior| == 3 && posterior[0] == says(ctx + [last]) && posterior[2] == says(ctx + [last, 7])
  {
    hide WellFormed, TokenPath;
    assert [last] + [] == [last] && [last] + [7] == [last, 7];
  }

  lemma ForkRow(w: nat, says: Target, ctx: seq<nat>, t: Tree, last: nat)
    requires WellFormed(t) && |t.parents| == 3 && TokenPath(t, 1) == [5]
    ensures |PassRows(Transparent(w, says), ctx, t, last)| == 3
    ensures PassRows(Transparent(w, says), ctx, t, last)[1] == ctx + [last, 5]
  {
    hide WellFormed, TokenPath, Transparent, Rows;
    var c := ctx + [last, 5];
    TransparentRows(w, says, c);
    assert c[..|c|] == c && [last] + [5] == [last, 5];
  }
}
