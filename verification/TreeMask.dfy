/**
The ancestor-only attention mask of a draft tree, server/src/common/ddtree.cpp:64-81, and what a slot sees through it.
*/
module TreeMask {
  import opened Arith
  import opened DraftTree

  // ---- the tree mask

  /** j lies on the path from the root to i. */
  ghost predicate OnPath(t: Tree, j: nat, i: nat)
    requires WellFormed(t) && i < |t.parents|
    decreases i
  {
    i == j || (i > 0 && (assert Below(t, i); OnPath(t, j, t.parents[i])))
  }

  lemma {:induction false} OnPathEarlier(t: Tree, j: nat, i: nat)
    requires WellFormed(t) && i < |t.parents| && OnPath(t, j, i)
    ensures j <= i
    decreases i
  {
    if i != j {
      assert Below(t, i);
      OnPathEarlier(t, j, t.parents[i]);
    }
  }

  /** Tokens from below the root down to i. */
  ghost function TokenPath(t: Tree, i: nat): (r: seq<nat>)
    requires WellFormed(t) && i < |t.parents|
    ensures |r| == Depth(t, i)
    decreases i
  {
    if i == 0 then [] else
      assert Below(t, i);
      TokenPath(t, t.parents[i]) + [t.tokens[i - 1]]
  }

  /** Row i, column j of an n-wide row-major table. */
  lemma RowMajor(i: nat, j: nat, n: nat)
    requires i < n && j < n
    ensures 0 <= i * n + j < n * n && (i * n + j) / n == i && (i * n + j) % n == j
  {
    MulMonotone(i + 1, n, n);
    MulNonNegative(i, n);
    DivUnique(i * n + j, n, i, j);
  }

  ghost predicate Seen(t: Tree, i: int, j: int)
    requires WellFormed(t)
  {
    0 <= i < |t.parents| && 0 <= j < |t.parents| && OnPath(t, j, i)
  }

  /** What the mask holds at flat index x. */
  ghost predicate Wanted(t: Tree, x: int)
    requires WellFormed(t)
  {
    Seen(t, x / |t.parents|, x % |t.parents|)
  }

  lemma WantedAt(t: Tree, i: nat, j: nat)
    requires WellFormed(t) && i < |t.parents| && j < |t.parents|
    ensures 0 <= i * |t.parents| + j < |t.parents| * |t.parents| && Wanted(t, i * |t.parents| + j) == OnPath(t, j, i)
  {
    hide WellFormed, OnPath;
    RowMajor(i, j, |t.parents|);
  }

  /** Row i repeats its parent's row before column i, has i itself, and nothing after. */
  lemma RowFromParent(t: Tree, i: nat, j: nat)
    requires WellFormed(t) && 0 < i < |t.parents| && j < |t.parents|
    ensures 0 <= t.parents[i] < i
    ensures OnPath(t, j, i) == if j < i then OnPath(t, j, t.parents[i]) else j == i
  {
    assert Below(t, i);
    if j > i && OnPath(t, j, i) { OnPathEarlier(t, j, i); }
  }

  /** The rest of a row after the diagonal stays clear. */
  lemma RowRest(t: Tree, i: nat, x: nat)
    requires WellFormed(t) && 0 < i < |t.parents| && i * |t.parents| + i < x < (i + 1) * |t.parents|
    ensures x < |t.parents| * |t.parents| && !Wanted(t, x)
  {
    var n := |t.parents|;
    var j := x - i * n;
    assert (i + 1) * n == i * n + n;
    WantedAt(t, i, j);
    RowFromParent(t, i, j);
  }

  ghost predicate MaskIs(t: Tree, vis: seq<bool>)
    requires WellFormed(t)
  {
    |vis| == |t.parents| * |t.parents| && forall x :: 0 <= x < |vis| ==> vis[x] == Wanted(t, x)
  }

  /** The first m rows are written, the rest is clear. */
  ghost predicate RowsDone(t: Tree, vis: seq<bool>, m: nat)
    requires WellFormed(t)
  {
    |vis| == |t.parents| * |t.parents| && forall x :: 0 <= x < |vis| ==> vis[x] == (x < m * |t.parents| && Wanted(t, x))
  }

  lemma AllRowsDone(t: Tree, vis: seq<bool>)
    requires WellFormed(t) && RowsDone(t, vis, |t.parents|)
    ensures MaskIs(t, vis)
  {
    hide WellFormed, Wanted;
  }

  /** build_visibility: slot i sees exactly the slots on its root path. */
  method BuildVisibility(t: Tree) returns (vis: seq<bool>)
    requires WellFormed(t)
    ensures MaskIs(t, vis)
  {
    hide WellFormed, OnPath, Wanted, RowsDone, MaskIs;
    TreeShape(t);
    var n := |t.parents|;
    RowMajor(0, 0, n);
    var a := new bool[n * n](x => false);
    a[0] := true;
    FirstRow(t, a[..]);
    for i := 1 to n
      invariant RowsDone(t, a[..], i)
    {
      RowFromParent(t, i, 0);
      FillRow(t, a, i, t.parents[i]);
    }
    AllRowsDone(t, a[..]);
    vis := a[..];
  }

  lemma TreeShape(t: Tree)
    requires WellFormed(t)
    ensures |t.parents| == |t.tokens| + 1 == |t.children|
  {}

  lemma FirstRow(t: Tree, vis: seq<bool>)
    requires WellFormed(t) && |vis| == |t.parents| * |t.parents| && forall x :: 0 <= x < |vis| ==> vis[x] == (x == 0)
    ensures RowsDone(t, vis, 1)
  {
    hide WellFormed, OnPath, Wanted;
    TreeShape(t);
    forall x | 0 <= x < |t.parents| ensures Wanted(t, x) <==> x == 0 {
      WantedAt(t, 0, x);
      SelfOnly(t, x);
    }
  }

  /** One row of the mask: copy the parent's row up to the diagonal, then set the diagonal. */
  method FillRow(t: Tree, a: array<bool>, i: nat, p: nat)
    requires WellFormed(t) && 0 < i < |t.parents| && p == t.parents[i] && RowsDone(t, a[..], i)
    modifies a
    ensures RowsDone(t, a[..], i + 1)
  {
    hide WellFormed, OnPath, Wanted;
    var n := |t.parents|;
    RowFromParent(t, i, i);
    var row, above := i * n, p * n;
    RowsApart(i, p, n);
    WantedAt(t, i, i);
    for j := 0 to i
      invariant forall x :: 0 <= x < a.Length ==> a[x] == (x < row + j && Wanted(t, x))
    {
      WantedAt(t, i, j);
      WantedAt(t, p, j);
      RowFromParent(t, i, j);
      a[row + j] := a[above + j];
    }
    a[row + i] := true;
    forall x | row + i < x < row + n ensures !Wanted(t, x) { RowRest(t, i, x); }
  }

  lemma RowsApart(i: nat, p: nat, n: nat)
    requires p < i < n
    ensures 0 <= p * n && p * n + n <= i * n && i * n + n == (i + 1) * n <= n * n
  {
    MulNonNegative(p, n);
    MulMonotone(p + 1, i, n);
    MulMonotone(i + 1, n, n);
  }

  // ---- what a slot sees

  lemma SelfOnly(t: Tree, j: nat)
    requires WellFormed(t) && j < |t.parents|
    ensures OnPath(t, j, 0) <==> j == 0
  {}

  lemma RootPath(t: Tree)
    requires WellFormed(t)
    ensures |t.parents| > 0 && TokenPath(t, 0) == []
  {}

  lemma PathStep(t: Tree, i: nat)
    requires WellFormed(t) && 0 < i < |t.parents|
    ensures 0 <= t.parents[i] < i && i <= |t.tokens|
    ensures TokenPath(t, i) == TokenPath(t, t.parents[i]) + [t.tokens[i - 1]]
  {
    assert Below(t, i);
  }

  lemma MaskSize(t: Tree, vis: seq<bool>)
    requires WellFormed(t) && MaskIs(t, vis)
    ensures |vis| == |t.parents| * |t.parents|
  {}

  /** The values among the first m slots that row i of the mask shows, in slot order. */
  function Visible<T>(vals: seq<T>, vis: seq<bool>, n: nat, i: nat, m: nat): seq<T>
    requires m <= |vals| && m <= n && i < n && |vis| == n * n
    decreases m
  {
    if m == 0 then [] else
      RowMajor(i, m - 1, n);
      Visible(vals, vis, n, i, m - 1) + (if vis[i * n + m - 1] then [vals[m - 1]] else [])
  }

  /** The values on the path from the root to slot i, root first. */
  ghost function Along<T>(t: Tree, vals: seq<T>, i: nat): (r: seq<T>)
    requires WellFormed(t) && i < |t.parents| && i < |vals|
    ensures |r| == Depth(t, i) + 1
    decreases i
  {
    if i == 0 then [vals[0]] else
      assert Below(t, i);
      Along(t, vals, t.parents[i]) + [vals[i]]
  }

  lemma AlongStep<T>(t: Tree, vals: seq<T>, i: nat)
    requires WellFormed(t) && 0 < i < |t.parents| && i < |vals|
    ensures 0 <= t.parents[i] < i && Along(t, vals, i) == Along(t, vals, t.parents[i]) + [vals[i]]
    ensures Depth(t, i) == Depth(t, t.parents[i]) + 1
  {
    assert Below(t, i);
  }

  lemma AlongRoot<T>(t: Tree, vals: seq<T>)
    requires WellFormed(t) && 0 < |vals|
    ensures |t.parents| > 0 && Along(t, vals, 0) == [vals[0]]
  {}

  /** Among the slots before it, slot i sees exactly the path to its parent. */
  lemma {:induction false} VisibleBefore<T>(t: Tree, vis: seq<bool>, vals: seq<T>, i: nat)
    requires WellFormed(t) && MaskIs(t, vis) && i < |t.parents| && i <= |vals|
    ensures |vis| == |t.parents| * |t.parents|
    ensures i == 0 ==> Visible(vals, vis, |t.parents|, i, i) == []
    ensures i > 0 ==> 0 <= t.parents[i] < i && Visible(vals, vis, |t.parents|, i, i) == Along(t, vals, t.parents[i])
  {
    hide WellFormed, OnPath, Wanted, Along, MaskIs;
    MaskSize(t, vis);
    if i > 0 {
      RowFromParent(t, i, 0);
      SameBefore(t, vis, vals, i, i);
      VisibleIsPath(t, vis, vals, t.parents[i], i);
    }
  }

  /** Through the mask, slot i sees exactly its own root path, in order. */
  lemma {:induction false} VisibleIsPath<T>(t: Tree, vis: seq<bool>, vals: seq<T>, i: nat, m: nat)
    requires WellFormed(t) && MaskIs(t, vis) && i < m <= |t.parents| && m <= |vals|
    ensures |vis| == |t.parents| * |t.parents| && Visible(vals, vis, |t.parents|, i, m) == Along(t, vals, i)
    decreases i, m
  {
    hide WellFormed, OnPath, Wanted, Along;
    TreeShape(t);
    WantedAt(t, i, m - 1);
    if i > 0 { RowFromParent(t, i, m - 1); }
    if m - 1 > i {
      VisibleIsPath(t, vis, vals, i, m - 1);
      if i == 0 { SelfOnly(t, m - 1); }
    } else if i == 0 {
      SelfOnly(t, 0);
      AlongRoot(t, vals);
    } else {
      SameBefore(t, vis, vals, i, m - 1);
      VisibleIsPath(t, vis, vals, t.parents[i], m - 1);
      AlongStep(t, vals, i);
    }
  }

  lemma {:induction false} SameBefore<T>(t: Tree, vis: seq<bool>, vals: seq<T>, i: nat, m: nat)
    requires WellFormed(t) && MaskIs(t, vis) && 0 < m <= i < |t.parents| && 0 <= t.parents[i] < i && m <= |vals|
    ensures |vis| == |t.parents| * |t.parents|
    ensures Visible(vals, vis, |t.parents|, i, m) == Visible(vals, vis, |t.parents|, t.parents[i], m)
    decreases m
  {
    hide WellFormed, OnPath, Wanted;
    TreeShape(t);
    WantedAt(t, i, m - 1);
    WantedAt(t, t.parents[i], m - 1);
    RowFromParent(t, i, m - 1);
    if m > 1 { SameBefore(t, vis, vals, i, m - 1); }
  }

  /** The flat batch: the pending token, then the tree's tokens. */
  function Flat(t: Tree, last: nat): seq<nat> { [last] + t.tokens }

  lemma {:induction false} FlatAlong(t: Tree, last: nat, i: nat)
    requires WellFormed(t) && i < |t.parents|
    ensures |Flat(t, last)| == |t.parents| && Along(t, Flat(t, last), i) == [last] + TokenPath(t, i)
    decreases i
  {
    hide WellFormed, Along, TokenPath;
    TreeShape(t);
    if i == 0 {
      AlongRoot(t, Flat(t, last));
      RootPath(t);
    } else {
      AlongStep(t, Flat(t, last), i);
      FlatAlong(t, last, t.parents[i]);
      PathStep(t, i);
      var above, token := TokenPath(t, t.parents[i]), t.tokens[i - 1];
      assert [last] + (above + [token]) == [last] + above + [token];
    }
  }
}
