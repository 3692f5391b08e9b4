/**
The draft tree of speculative decoding, server/src/common/ddtree.cpp: best-first construction from the drafter's
per-position top-K log-probabilities.
*/
module DraftTree {
  /** The ranks chosen from the root down to a candidate. */
  type Path = seq<nat>

  datatype Choice = Choice(logp: real, token: nat)

  /** One row of K choices per depth. */
  type Draft = seq<seq<Choice>>

  ghost predicate Rectangular(draft: Draft, K: nat) { forall i :: 0 <= i < |draft| ==> |draft[i]| == K }

  /** Rows hold log-probabilities, best first. */
  ghost predicate Ranked(draft: Draft) {
    && (forall i, r :: 0 <= i < |draft| && 0 <= r < |draft[i]| ==> draft[i][r].logp <= 0.0)
    && forall i, r, s :: 0 <= i < |draft| && 0 <= r < s < |draft[i]| ==> draft[i][r].logp >= draft[i][s].logp
  }

  // ---- candidates as rank paths

  predicate InDraft(draft: Draft, q: Path) { |q| <= |draft| && forall i :: 0 <= i < |q| ==> q[i] < |draft[i]| }

  predicate Valid(draft: Draft, q: Path) { q != [] && InDraft(draft, q) }

  function Front(q: Path): Path
    requires q != []
  {
    q[..|q| - 1]
  }

  function Last(q: Path): nat
    requires q != []
  {
    q[|q| - 1]
  }

  function Left(q: Path): Path
    requires q != [] && Last(q) > 0
  {
    Front(q) + [Last(q) - 1]
  }

  function Right(q: Path): Path
    requires q != []
  {
    Front(q) + [Last(q) + 1]
  }

  function Down(q: Path): Path { q + [0] }

  /** The cumulative log-probability of a path. */
  function Score(draft: Draft, q: Path): real
    requires InDraft(draft, q)
    decreases |q|
  {
    if q == [] then 0.0 else Score(draft, Front(q)) + draft[|q| - 1][Last(q)].logp
  }

  function TokenOf(draft: Draft, q: Path): nat
    requires Valid(draft, q)
  {
    draft[|q| - 1][Last(q)].token
  }

  lemma RightFacts(q: Path)
    requires q != []
    ensures Right(q) != [] && Front(Right(q)) == Front(q) && Last(Right(q)) == Last(q) + 1 && Left(Right(q)) == q
  {
    assert q == Front(q) + [Last(q)];
  }

  lemma DownFacts(q: Path)
    ensures Down(q) != [] && Front(Down(q)) == q && Last(Down(q)) == 0
  {}

  lemma LeftFacts(q: Path)
    requires q != [] && Last(q) > 0
    ensures Left(q) != [] && Front(Left(q)) == Front(q) && Last(Left(q)) == Last(q) - 1 && Right(Left(q)) == q
  {
    assert q == Front(q) + [Last(q)];
  }

  lemma ScoreRight(draft: Draft, q: Path)
    requires Valid(draft, q) && Last(q) + 1 < |draft[|q| - 1]|
    ensures Valid(draft, Right(q))
    ensures Score(draft, Right(q)) == Score(draft, q) - draft[|q| - 1][Last(q)].logp + draft[|q| - 1][Last(q) + 1].logp
    ensures Ranked(draft) ==> Score(draft, Right(q)) <= Score(draft, q)
  {
    RightFacts(q);
  }

  lemma ScoreDown(draft: Draft, q: Path)
    requires InDraft(draft, q) && |q| < |draft| && |draft[|q|]| > 0
    ensures Valid(draft, Down(q))
    ensures Score(draft, Down(q)) == Score(draft, q) + draft[|q|][0].logp
    ensures Ranked(draft) ==> Score(draft, Down(q)) <= Score(draft, q)
  {
    DownFacts(q);
  }

  // ---- the frontier

  ghost predicate NoDup(s: seq<Path>) { forall i, j :: 0 <= i < j < |s| ==> s[i] != s[j] }

  /** Every node's parent and better siblings are nodes. */
  ghost predicate Closed(draft: Draft, paths: seq<Path>) {
    [] in paths && forall q :: q in paths && q != [] ==>
      Valid(draft, q) && Front(q) in paths && (Last(q) > 0 ==> Left(q) in paths)
  }

  ghost predicate Frontier(draft: Draft, paths: seq<Path>, q: Path) {
    Valid(draft, q) && q !in paths && Front(q) in paths && (Last(q) > 0 ==> Left(q) in paths)
  }

  ghost predicate Sound(draft: Draft, paths: seq<Path>, hp: seq<Path>) {
    forall q :: q in hp ==> Frontier(draft, paths, q)
  }

  /** SpecLA's confidence window; Unbounded is a non-finite margin. */
  datatype Window = Unbounded | Margin(tau: real)

  /** A score is outside the caller's window when it misses the best one by more than the margin, negative margins
      counting as zero. */
  ghost predicate Outside(w: Window, best: real, score: real) {
    w.Margin? && best - score > w.tau && best - score > 0.0
  }

  /** The clamp of a negative margin. */
  function Clamp(w: Window): Window { if w.Margin? && w.tau < 0.0 then Margin(0.0) else w }

  /** The comparison the builder makes with the clamped margin. */
  predicate Exceeds(margin: Window, best: real, score: real) { margin.Margin? && best - score > margin.tau }

  lemma ClampMeaning(w: Window, best: real, score: real)
    ensures Exceeds(Clamp(w), best, score) <==> Outside(w, best, score)
  {}

  ghost predicate Covers(draft: Draft, w: Window, best: real, paths: seq<Path>, hp: seq<Path>) {
    forall q :: Frontier(draft, paths, q) ==> q in hp || Outside(w, best, Score(draft, q))
  }

  ghost predicate Search(draft: Draft, paths: seq<Path>, hp: seq<Path>) {
    Closed(draft, paths) && NoDup(paths) && Sound(draft, paths, hp) && NoDup(hp)
  }

  function Without<T>(s: seq<T>, k: nat): seq<T>
    requires k < |s|
  {
    s[..k] + s[k + 1..]
  }

  /** What popping q exposes: its next sibling and its best child. */
  function Pushed(draft: Draft, K: nat, q: Path): seq<Path> {
    if q == [] then [] else (if Last(q) + 1 < K then [Right(q)] else []) + (if |q| < |draft| then [Down(q)] else [])
  }

  lemma WithoutMembers(hp: seq<Path>, k: nat)
    requires k < |hp| && NoDup(hp)
    ensures NoDup(Without(hp, k)) && forall q :: q in Without(hp, k) <==> q in hp && q != hp[k]
  {
    var rest := Without(hp, k);
    forall q | q in hp && q != hp[k] ensures q in rest {
      var i :| 0 <= i < |hp| && hp[i] == q;
      assert rest[if i < k then i else i - 1] == q;
    }
  }

  lemma NoDupSnoc(s: seq<Path>, q: Path)
    requires NoDup(s) && q !in s
    ensures NoDup(s + [q])
  {}

  lemma StepClosed(draft: Draft, paths: seq<Path>, q: Path)
    requires Closed(draft, paths) && Frontier(draft, paths, q)
    ensures Closed(draft, paths + [q])
  {}

  lemma StepSound(draft: Draft, K: nat, paths: seq<Path>, hp: seq<Path>, k: nat)
    requires Rectangular(draft, K) && k < |hp| && Search(draft, paths, hp)
    ensures Sound(draft, paths + [hp[k]], Without(hp, k) + Pushed(draft, K, hp[k]))
    ensures NoDup(Without(hp, k) + Pushed(draft, K, hp[k]))
  {
    hide InDraft, NoDup, Rectangular;
    var q := hp[k];
    WithoutMembers(hp, k);
    PushedFrontier(draft, K, paths, hp, q);
    var rest := Without(hp, k);
    hide Without;
    forall f | f in rest ensures Frontier(draft, paths + [q], f) { assert Frontier(draft, paths, f); }
    hide Frontier;
    RightFacts(q);
    DownFacts(q);
    if Last(q) + 1 < K {
      NoDupSnoc(rest, Right(q));
      if |q| < |draft| {
        NoDupSnoc(rest + [Right(q)], Down(q));
        assert rest + [Right(q)] + [Down(q)] == rest + ([Right(q)] + [Down(q)]);
      } else {
        assert Pushed(draft, K, q) == [Right(q)];
      }
    } else if |q| < |draft| {
      NoDupSnoc(rest, Down(q));
      assert Pushed(draft, K, q) == [Down(q)];
    } else {
      assert rest + [] == rest;
    }
  }

  /** Exposed candidates are new frontier members. */
  lemma PushedFrontier(draft: Draft, K: nat, paths: seq<Path>, hp: seq<Path>, q: Path)
    requires Rectangular(draft, K) && Search(draft, paths, hp) && q in hp
    ensures Last(q) + 1 < K ==> Frontier(draft, paths + [q], Right(q)) && Right(q) !in hp
    ensures |q| < |draft| ==> Frontier(draft, paths + [q], Down(q)) && Down(q) !in hp
  {
    assert Frontier(draft, paths, q);
    RightFacts(q);
    DownFacts(q);
    if Last(q) + 1 < K {
      ScoreRight(draft, q);
    }
    if |q| < |draft| {
      assert q[0] < |draft[0]| == K;
      ScoreDown(draft, q);
    }
  }

  lemma StepCovers(draft: Draft, K: nat, w: Window, best: real, paths: seq<Path>, hp: seq<Path>, k: nat)
    requires Rectangular(draft, K) && k < |hp| && Search(draft, paths, hp) && Covers(draft, w, best, paths, hp)
    ensures Covers(draft, w, best, paths + [hp[k]], Without(hp, k) + Pushed(draft, K, hp[k]))
  {
    hide NoDup;
    var q := hp[k];
    assert q in hp && Frontier(draft, paths, q);
    hide Sound;
    var hp' := Without(hp, k) + Pushed(draft, K, q);
    WithoutMembers(hp, k);
    forall f | Frontier(draft, paths + [q], f) ensures f in hp' || Outside(w, best, Score(draft, f)) {
      if Front(f) == q {
        BelowNew(draft, paths, q, f);
      } else if Last(f) > 0 && Left(f) == q {
        LeftFacts(f);
        assert f == Right(q) && Last(q) + 1 < K;
      } else {
        assert Frontier(draft, paths, f);
      }
    }
  }

  /** The only frontier member below a new node is its best child. */
  lemma BelowNew(draft: Draft, paths: seq<Path>, q: Path, f: Path)
    requires Closed(draft, paths) && q !in paths && q != [] && Frontier(draft, paths + [q], f) && Front(f) == q
    ensures f == Down(q) && |q| < |draft|
  {
    assert f == Front(f) + [Last(f)];
    if Last(f) > 0 {
      LeftFacts(f);
    }
  }

  lemma StepSearch(draft: Draft, K: nat, paths: seq<Path>, hp: seq<Path>, k: nat)
    requires Rectangular(draft, K) && k < |hp| && Search(draft, paths, hp)
    ensures Search(draft, paths + [hp[k]], Without(hp, k) + Pushed(draft, K, hp[k]))
  {
    assert Frontier(draft, paths, hp[k]) by { hide Frontier, Closed, NoDup; }
    hide Closed, NoDup, Pushed, Without, Rectangular;
    StepClosed(draft, paths, hp[k]);
    StepSound(draft, K, paths, hp, k);
    NoDupSnoc(paths, hp[k]);
  }

  // ---- optimality

  /** Above every candidate that is not a node there is a frontier member with at least its score. */
  lemma {:induction false} FrontierAbove(draft: Draft, paths: seq<Path>, q: Path) returns (f: Path)
    requires Ranked(draft) && [] in paths && Valid(draft, q) && q !in paths
    ensures Frontier(draft, paths, f) && Score(draft, f) >= Score(draft, q)
    decreases |q|, if q == [] then 0 else Last(q)
  {
    if Front(q) !in paths {
      assert Score(draft, Front(q)) >= Score(draft, q);
      f := FrontierAbove(draft, paths, Front(q));
    } else if Last(q) > 0 && Left(q) !in paths {
      LeftFacts(q);
      ScoreRight(draft, Left(q));
      f := FrontierAbove(draft, paths, Left(q));
    } else {
      f := q;
    }
  }

  /** The score of the best first choice. */
  function BestScore(draft: Draft): real { if |draft| > 0 && |draft[0]| > 0 then draft[0][0].logp else 0.0 }

  /** No candidate scores above the best first choice. */
  lemma {:induction false} BestScoreIsBest(draft: Draft, q: Path)
    requires Ranked(draft) && Valid(draft, q)
    ensures Score(draft, q) <= BestScore(draft)
    decreases |q|
  {
    if |q| == 1 {
      assert Score(draft, Front(q)) == 0.0;
    } else {
      BestScoreIsBest(draft, Front(q));
    }
  }

  ghost predicate Dominates(draft: Draft, paths: seq<Path>, seeded: nat, hp: seq<Path>) {
    && (forall i :: 0 <= i < |paths| ==> InDraft(draft, paths[i])) &&
      (forall j :: 0 <= j < |hp| ==> InDraft(draft, hp[j]))
    && (forall i, j :: seeded < i < |paths| && 0 <= j < |hp| ==> Score(draft, paths[i]) >= Score(draft, hp[j]))
    && forall i, j :: seeded < i < j < |paths| ==> Score(draft, paths[i]) >= Score(draft, paths[j])
  }

  /** Nothing worth more was left out: a candidate that is not a node is outside the window, or the budget is used up
      and every node taken best-first scores at least as much. */
  ghost predicate Optimal(draft: Draft, budget: int, w: Window, paths: seq<Path>, seeded: nat) {
    && (forall i :: 0 <= i < |paths| ==> InDraft(draft, paths[i]))
    && (forall i, j :: seeded < i < j < |paths| ==> Score(draft, paths[i]) >= Score(draft, paths[j]))
    && forall q :: Valid(draft, q) ==>
      || q in paths
      || Outside(w, BestScore(draft), Score(draft, q))
      || (|paths| - 1 >= budget && AllAtLeast(draft, paths, seeded, Score(draft, q)))
  }

  ghost predicate AllAtLeast(draft: Draft, paths: seq<Path>, seeded: nat, score: real)
    requires forall i :: 0 <= i < |paths| ==> InDraft(draft, paths[i])
  {
    forall i :: seeded < i < |paths| ==> Score(draft, paths[i]) >= score
  }

  lemma PushedBelow(draft: Draft, K: nat, q: Path, f: Path)
    requires Ranked(draft) && Rectangular(draft, K) && Valid(draft, q) && f in Pushed(draft, K, q)
    ensures InDraft(draft, f) && Score(draft, f) <= Score(draft, q)
  {
    hide Ranked, Score;
    assert q[0] < |draft[0]| == K;
    if Last(q) + 1 < K { ScoreRight(draft, q); }
    if |q| < |draft| { ScoreDown(draft, q); }
  }

  lemma StepDominates(draft: Draft, K: nat, paths: seq<Path>, seeded: nat, hp: seq<Path>, k: nat)
    requires Ranked(draft) && Rectangular(draft, K) && k < |hp| && Dominates(draft, paths, seeded, hp)
    requires Valid(draft, hp[k])
    requires forall f :: f in hp ==> InDraft(draft, f) && Score(draft, f) <= Score(draft, hp[k])
    ensures Dominates(draft, paths + [hp[k]], seeded, Without(hp, k) + Pushed(draft, K, hp[k]))
  {
    hide Ranked, Score, Rectangular, Dominates, InDraft, Pushed;
    var q := hp[k];
    forall f | f in Pushed(draft, K, q)
      ensures InDraft(draft, f) && Score(draft, f) <= Score(draft, q)
    {
      PushedBelow(draft, K, q, f);
    }
    forall f | f in Without(hp, k) ensures InDraft(draft, f) && Score(draft, f) <= Score(draft, q) { assert f in hp; }
    hide Without;
    AllBelow(draft, paths, seeded, hp, k, Without(hp, k) + Pushed(draft, K, q));
  }

  lemma AllBelow(draft: Draft, paths: seq<Path>, seeded: nat, hp: seq<Path>, k: nat, hp': seq<Path>)
    requires k < |hp| && Dominates(draft, paths, seeded, hp)
    requires forall f :: f in hp' ==> InDraft(draft, f) && Score(draft, f) <= Score(draft, hp[k])
    ensures Dominates(draft, paths + [hp[k]], seeded, hp')
  {
    hide InDraft, Score;
    var paths' := paths + [hp[k]];
    forall i | seeded < i < |paths'| ensures Score(draft, paths'[i]) >= Score(draft, hp[k]) {}
  }

  lemma Finish(draft: Draft, budget: int, w: Window, paths: seq<Path>, seeded: nat, hp: seq<Path>)
    requires Ranked(draft) && Search(draft, paths, hp) && Dominates(draft, paths, seeded, hp)
    requires Covers(draft, w, BestScore(draft), paths, hp) || seeded + 1 == |paths| > budget
    requires |paths| > budget || forall j :: 0 <= j < |hp| ==> Outside(w, BestScore(draft), Score(draft, hp[j]))
    ensures Optimal(draft, budget, w, paths, seeded)
  {
    hide NoDup, BestScore, Sound;
    forall q | Valid(draft, q) && q !in paths
      ensures Outside(w, BestScore(draft), Score(draft, q)) ||
        (|paths| - 1 >= budget && AllAtLeast(draft, paths, seeded, Score(draft, q)))
    {
      var f := FrontierAbove(draft, paths, q);
      hide Ranked, Closed, Frontier, Valid;
      if f in hp {
        var j :| 0 <= j < |hp| && hp[j] == f;
      }
    }
  }

  // ---- the flat tree

  datatype Tree = Tree(tokens: seq<nat>, depths: seq<nat>, parents: seq<int>, children: seq<map<nat, nat>>)

  const ROOT := Tree([], [], [-1], [map[]])

  function Depth(t: Tree, i: nat): nat
    requires i <= |t.depths|
  {
    if i == 0 then 0 else t.depths[i - 1]
  }

  /** Slots follow their parents, depths count edges, and the child maps are exactly the edges labelled by tokens. */
  ghost predicate WellFormed(t: Tree) {
    && Sized(t)
    && (forall i :: 0 < i < |t.parents| ==> Below(t, i))
    && forall p, x :: 0 <= p < |t.children| && x in t.children[p] ==> Edge(t, p, x)
  }

  ghost predicate Sized(t: Tree) {
    |t.depths| == |t.tokens| && |t.parents| == |t.tokens| + 1 && |t.children| == |t.tokens| + 1 && t.parents[0] == -1
  }

  ghost predicate Below(t: Tree, i: nat)
    requires Sized(t) && 0 < i < |t.parents|
  {
    0 <= t.parents[i] < i && Depth(t, i) == Depth(t, t.parents[i]) + 1 && t.tokens[i - 1] in t.children[t.parents[i]]
  }

  predicate Edge(t: Tree, p: nat, x: nat)
    requires p < |t.children| && x in t.children[p] && |t.parents| == |t.tokens| + 1
  {
    0 < t.children[p][x] < |t.parents| && t.parents[t.children[p][x]] == p && t.tokens[t.children[p][x] - 1] == x
  }

  function AddNode(t: Tree, parent: nat, depth: nat, token: nat): Tree
    requires parent < |t.children|
  {
    Tree(t.tokens + [token], t.depths + [depth], t.parents + [parent],
      (t.children + [map[]])[parent := t.children[parent][token := |t.tokens| + 1]])
  }

  lemma AddNodeWellFormed(t: Tree, parent: nat, depth: nat, token: nat)
    requires WellFormed(t) && parent < |t.children| && depth == Depth(t, parent) + 1
    ensures WellFormed(AddNode(t, parent, depth, token))
  {
    var u := AddNode(t, parent, depth, token);
    forall i | 0 < i < |u.parents| ensures Below(u, i) {
      if i < |t.parents| { assert Below(t, i); }
    }
    forall p, x | 0 <= p < |u.children| && x in u.children[p] ensures Edge(u, p, x) {
      if p < |t.children| && x in t.children[p] && !(p == parent && x == token) { assert Edge(t, p, x); }
    }
  }

  /** Node i of the tree is the candidate paths[i]. */
  ghost predicate Linked(draft: Draft, t: Tree, paths: seq<Path>) {
    && WellFormed(t) && |paths| == |t.parents| && paths[0] == []
    && forall i :: 0 < i < |paths| ==> NodeIs(draft, t, paths, i)
  }

  ghost predicate NodeIs(draft: Draft, t: Tree, paths: seq<Path>, i: nat)
    requires 0 < i < |paths| && |paths| == |t.parents| && |t.parents| == |t.tokens| + 1 && |t.depths| == |t.tokens|
  {
    && Valid(draft, paths[i]) && t.depths[i - 1] == |paths[i]| && t.tokens[i - 1] == TokenOf(draft, paths[i])
    && 0 <= t.parents[i] < |paths| && paths[t.parents[i]] == Front(paths[i])
  }

  datatype Candidate = Candidate(logw: real, parent: nat, depth: nat, rank: nat, token: nat)

  /** Heap entry c stands for the path q. */
  ghost predicate Stands(draft: Draft, paths: seq<Path>, c: Candidate, q: Path) {
    && Valid(draft, q) && c.parent < |paths| && paths[c.parent] == Front(q)
    && c.logw == Score(draft, q) && c.depth == |q| && c.rank == Last(q) && c.token == TokenOf(draft, q)
  }

  ghost predicate HeapLinked(draft: Draft, paths: seq<Path>, heap: seq<Candidate>, hp: seq<Path>) {
    |heap| == |hp| && forall i :: 0 <= i < |heap| ==> Stands(draft, paths, heap[i], hp[i])
  }

  lemma LinkedDepth(draft: Draft, t: Tree, paths: seq<Path>, i: nat)
    requires Linked(draft, t, paths) && i < |paths|
    ensures Depth(t, i) == |paths[i]|
  {
    if i > 0 { assert NodeIs(draft, t, paths, i); }
  }

  lemma AddLinked(draft: Draft, t: Tree, paths: seq<Path>, c: Candidate, q: Path)
    requires Linked(draft, t, paths) && Stands(draft, paths, c, q)
    ensures Linked(draft, AddNode(t, c.parent, c.depth, c.token), paths + [q])
  {
    LinkedDepth(draft, t, paths, c.parent);
    AddNodeWellFormed(t, c.parent, c.depth, c.token);
    hide WellFormed;
    assert Sized(t) by { SizedWhenWellFormed(t); }
    var u, paths' := AddNode(t, c.parent, c.depth, c.token), paths + [q];
    forall i | 0 < i < |paths'| ensures NodeIs(draft, u, paths', i) {
      if i < |paths| { assert NodeIs(draft, t, paths, i); }
    }
  }

  lemma SizedWhenWellFormed(t: Tree)
    requires WellFormed(t)
    ensures Sized(t)
  {}

  /** The entry of the next sibling: the parent's score is recovered by subtraction. */
  function NextSibling(c: Candidate, row: seq<Choice>): Candidate
    requires c.rank + 1 < |row|
  {
    var logw := c.logw - row[c.rank].logp + row[c.rank + 1].logp;
    Candidate(logw, c.parent, c.depth, c.rank + 1, row[c.rank + 1].token)
  }

  /** The entries for the next sibling and the best child of a popped entry. */
  function PushedEntries(draft: Draft, K: nat, c: Candidate, node: nat): seq<Candidate>
    requires 0 < c.depth <= |draft| && c.rank < K && forall i :: 0 <= i < |draft| ==> |draft[i]| == K
  {
    var row := draft[c.depth - 1];
    (if c.rank + 1 < K then [NextSibling(c, row)] else [])
    + (if c.depth < |draft|
       then [Candidate(c.logw + draft[c.depth][0].logp, node, c.depth + 1, 0, draft[c.depth][0].token)]
       else [])
  }

  lemma StandsRight(draft: Draft, paths: seq<Path>, c: Candidate, q: Path)
    requires Stands(draft, paths, c, q) && Last(q) + 1 < |draft[|q| - 1]|
    ensures c.rank == Last(q) && Stands(draft, paths, NextSibling(c, draft[|q| - 1]), Right(q))
  {
    hide Score;
    RightFacts(q);
    ScoreRight(draft, q);
  }

  lemma StandsDown(draft: Draft, paths: seq<Path>, logw: real, q: Path, node: nat)
    requires InDraft(draft, q) && logw == Score(draft, q) && |q| < |draft| && |draft[|q|]| > 0 && node < |paths|
    requires paths[node] == q
    ensures Stands(draft, paths, Candidate(logw + draft[|q|][0].logp, node, |q| + 1, 0, draft[|q|][0].token), Down(q))
  {
    hide Score;
    DownFacts(q);
    ScoreDown(draft, q);
  }

  lemma StandsKept(draft: Draft, paths: seq<Path>, c: Candidate, q: Path, more: Path)
    requires Stands(draft, paths, c, q)
    ensures Stands(draft, paths + [more], c, q)
  {}

  lemma PushedLinked(draft: Draft, K: nat, paths: seq<Path>, c: Candidate, q: Path)
    requires Rectangular(draft, K) && Stands(draft, paths, c, q)
    ensures 0 < c.depth <= |draft| && c.rank < K
    ensures HeapLinked(draft, paths + [q], PushedEntries(draft, K, c, |paths|), Pushed(draft, K, q))
  {
    assert q[0] < |draft[0]| == K;
    StandsKept(draft, paths, c, q, q);
    hide Score, InDraft;
    if c.rank + 1 < K { StandsRight(draft, paths + [q], c, q); }
    if c.depth < |draft| { StandsDown(draft, paths + [q], c.logw, q, |paths|); }
    hide Right, Down;
  }

  lemma HeapWithout(draft: Draft, paths: seq<Path>, heap: seq<Candidate>, hp: seq<Path>, k: nat)
    requires HeapLinked(draft, paths, heap, hp) && k < |heap|
    ensures HeapLinked(draft, paths, Without(heap, k), Without(hp, k))
  {
    hide Stands;
  }

  lemma HeapConcat(draft: Draft, paths: seq<Path>, heap: seq<Candidate>, hp: seq<Path>, heap': seq<Candidate>,
                   hp': seq<Path>)
    requires HeapLinked(draft, paths, heap, hp) && HeapLinked(draft, paths, heap', hp')
    ensures HeapLinked(draft, paths, heap + heap', hp + hp')
  {
    hide Stands;
  }

  lemma HeapKept(draft: Draft, paths: seq<Path>, heap: seq<Candidate>, hp: seq<Path>, more: Path)
    requires HeapLinked(draft, paths, heap, hp)
    ensures HeapLinked(draft, paths + [more], heap, hp)
  {
    hide Stands;
    forall i | 0 <= i < |heap|
      ensures Stands(draft, paths + [more], heap[i], hp[i])
    {
      StandsKept(draft, paths, heap[i], hp[i], more);
    }
  }

  lemma NextHeapLinked(draft: Draft, K: nat, paths: seq<Path>, heap: seq<Candidate>, hp: seq<Path>, k: nat)
    requires Rectangular(draft, K) && HeapLinked(draft, paths, heap, hp) && k < |heap|
    ensures Stands(draft, paths, heap[k], hp[k]) && 0 < heap[k].depth <= |draft| && heap[k].rank < K
    ensures var heap' := Without(heap, k) + PushedEntries(draft, K, heap[k], |paths|);
      HeapLinked(draft, paths + [hp[k]], heap', Without(hp, k) + Pushed(draft, K, hp[k]))
  {
    assert Stands(draft, paths, heap[k], hp[k]) by { hide Stands; }
    PushedLinked(draft, K, paths, heap[k], hp[k]);
    HeapWithout(draft, paths, heap, hp, k);
    HeapKept(draft, paths, Without(heap, k), Without(hp, k), hp[k]);
    hide HeapLinked, Stands;
    var entries := PushedEntries(draft, K, heap[k], |paths|);
    HeapConcat(draft, paths + [hp[k]], Without(heap, k), Without(hp, k), entries, Pushed(draft, K, hp[k]));
  }

  // ---- construction

  /** The top-1 path of length n. */
  function Zeros(n: nat): Path { seq(n, i => 0) }

  lemma ZerosDown(n: nat)
    ensures Zeros(n + 1) == Down(Zeros(n)) && Zeros(n + 1) != [] && Front(Zeros(n + 1)) == Zeros(n)
    ensures Last(Zeros(n + 1)) == 0
  {}

  lemma ZerosIn(draft: Draft, K: nat, n: nat)
    requires Rectangular(draft, K) && K > 0 && n <= |draft|
    ensures InDraft(draft, Zeros(n))
  {}

  /** All the nodes are inside the window. */
  ghost predicate AllInside(draft: Draft, w: Window, paths: seq<Path>) {
    forall i :: 0 < i < |paths| ==> InDraft(draft, paths[i]) && !Outside(w, BestScore(draft), Score(draft, paths[i]))
  }

  lemma InsideSnoc(draft: Draft, w: Window, paths: seq<Path>, q: Path)
    requires AllInside(draft, w, paths) && InDraft(draft, q) && !Outside(w, BestScore(draft), Score(draft, q))
    ensures AllInside(draft, w, paths + [q])
  {}

  ghost predicate Chain(paths: seq<Path>, n: nat) { n < |paths| && forall i :: 0 <= i <= n ==> paths[i] == Zeros(i) }

  /** What holds between two expansions; `waiting` are the candidates still to be visited. */
  ghost predicate Built(draft: Draft, w: Window, tree: Tree, paths: seq<Path>, waiting: seq<Path>) {
    Linked(draft, tree, paths) && Search(draft, paths, waiting) && AllInside(draft, w, paths)
  }

  lemma BuiltCount(draft: Draft, w: Window, tree: Tree, paths: seq<Path>, waiting: seq<Path>)
    requires Built(draft, w, tree, paths, waiting)
    ensures |paths| == |tree.tokens| + 1 == |tree.children|
  {}

  lemma BuiltStep(draft: Draft, K: nat, w: Window, tree: Tree, paths: seq<Path>, waiting: seq<Path>, k: nat,
                  c: Candidate)
    requires Rectangular(draft, K) && Built(draft, w, tree, paths, waiting) && k < |waiting|
    requires Stands(draft, paths, c, waiting[k]) && !Outside(w, BestScore(draft), c.logw)
    ensures c.parent < |tree.children|
    ensures var more := Without(waiting, k) + Pushed(draft, K, waiting[k]);
      Built(draft, w, AddNode(tree, c.parent, c.depth, c.token), paths + [waiting[k]], more)
    ensures Covers(draft, w, BestScore(draft), paths, waiting) ==>
      Covers(draft, w, BestScore(draft), paths + [waiting[k]], Without(waiting, k) + Pushed(draft, K, waiting[k]))
  {
    BuiltCount(draft, w, tree, paths, waiting);
    hide Rectangular, AddNode, Without, Pushed, Search, Linked, AllInside, BestScore, Score, Outside, Covers;
    if Covers(draft, w, BestScore(draft), paths, waiting) {
      StepCovers(draft, K, w, BestScore(draft), paths, waiting, k);
    }
    StepSearch(draft, K, paths, waiting, k);
    AddLinked(draft, tree, paths, c, waiting[k]);
    InsideSnoc(draft, w, paths, waiting[k]);
  }

  lemma BuiltStart(draft: Draft, K: nat, w: Window)
    requires Rectangular(draft, K) && K > 0 && |draft| > 0
    ensures Built(draft, w, ROOT, [[]], [Zeros(1)]) && Covers(draft, w, BestScore(draft), [[]], [Zeros(1)])
  {
    hide Rectangular, Score, BestScore, InDraft;
    var paths: seq<Path> := [[]];
    RootSearch(draft, K);
    RootLinked(draft);
    hide Frontier, Linked, Search;
    forall q | Frontier(draft, paths, q) ensures q in [Zeros(1)] { RootFrontier(draft, q); }
  }

  lemma RootLinked(draft: Draft)
    ensures Linked(draft, ROOT, [[]])
  {}

  lemma RootSearch(draft: Draft, K: nat)
    requires Rectangular(draft, K) && K > 0 && |draft| > 0
    ensures Search(draft, [[]], [Zeros(1)])
  {
    ZerosDown(0);
    assert Front(Zeros(1)) == [];
    ZerosIn(draft, K, 1);
    hide Zeros, InDraft;
    var paths: seq<Path> := [[]];
    assert Zeros(1) !in paths;
    assert Frontier(draft, paths, Zeros(1));
  }

  /** The only frontier member of the bare root is the best first choice. */
  lemma RootFrontier(draft: Draft, q: Path)
    requires Frontier(draft, [[]], q)
    ensures q == Zeros(1)
  {
    hide InDraft;
    assert Front(q) == [] && |q| == 1;
    if Last(q) > 0 { LeftFacts(q); }
    assert q == [0];
  }

  lemma FewerWaiting(draft: Draft, w: Window, tree: Tree, paths: seq<Path>, hp: seq<Path>, tips: seq<Path>)
    requires Built(draft, w, tree, paths, hp + tips)
    ensures Built(draft, w, tree, paths, hp)
  {
    hide Linked, AllInside, Closed, Frontier;
    forall q | q in hp ensures Frontier(draft, paths, q) { assert q in hp + tips; }
    forall i, j | 0 <= i < j < |hp| ensures hp[i] != hp[j] { assert (hp + tips)[i] != (hp + tips)[j]; }
  }

  lemma TipOutside(draft: Draft, w: Window, best: real, paths: seq<Path>, hp: seq<Path>, tip: Path)
    requires Covers(draft, w, best, paths, hp + [tip]) && InDraft(draft, tip) && Outside(w, best, Score(draft, tip))
    ensures Covers(draft, w, best, paths, hp)
  {
    hide Frontier, Score;
  }

  /** Seeding visits the tip, not the best candidate: the same expansion, with the tip as one more waiting candidate. */
  lemma SeedWaiting(draft: Draft, K: nat, hp: seq<Path>, depth: nat)
    requires 0 < depth <= |draft|
    ensures Without(hp + [Zeros(depth)], |hp|) + Pushed(draft, K, Zeros(depth)) ==
            (if K > 1 then hp + [Right(Zeros(depth))] else hp) + (if depth < |draft| then [Zeros(depth + 1)] else [])
  {
    var tip := Zeros(depth);
    ZerosDown(depth - 1);
    ZerosDown(depth);
    hide Zeros;
    assert Without(hp + [tip], |hp|) == hp;
  }

  lemma SeedStands(draft: Draft, K: nat, paths: seq<Path>, n: nat)
    requires Rectangular(draft, K) && K > 0 && n < |draft| && Chain(paths, n)
    ensures InDraft(draft, Zeros(n)) && |draft[n]| == K && Zeros(n + 1) != []
    ensures var row, sum := draft[n], Score(draft, Zeros(n));
      && Stands(draft, paths, Candidate(sum + row[0].logp, n, n + 1, 0, row[0].token), Zeros(n + 1))
      && (K > 1 ==> Stands(draft, paths, Candidate(sum + row[1].logp, n, n + 1, 1, row[1].token), Right(Zeros(n + 1))))
  {
    ZerosIn(draft, K, n);
    ZerosIn(draft, K, n + 1);
    ZerosDown(n);
    hide Score, Zeros;
    StandsDown(draft, paths, Score(draft, Zeros(n)), Zeros(n), n);
    if K > 1 {
      var first := Candidate(Score(draft, Zeros(n)) + draft[n][0].logp, n, n + 1, 0, draft[n][0].token);
      StandsRight(draft, paths, first, Zeros(n + 1));
    }
  }

  lemma ChainSnoc(paths: seq<Path>)
    requires paths != [] && Chain(paths, |paths| - 1)
    ensures Chain(paths + [Zeros(|paths|)], |paths|)
  {}

  /** A chain of n nodes is as long as depth, budget and window allow. */
  ghost predicate FullChain(draft: Draft, budget: int, w: Window, n: nat) {
    || n >= |draft| || n >= budget
    || (InDraft(draft, Zeros(n + 1)) && Outside(w, BestScore(draft), Score(draft, Zeros(n + 1))))
  }

  /** The chain_seed branch: the top-1 chain, cut at the first depth that leaves the window. */
  method SeedChain(draft: Draft, K: nat, budget: nat, margin: Window, ghost w: Window)
    returns (tree: Tree, heap: seq<Candidate>, ghost paths: seq<Path>, ghost hp: seq<Path>)
    requires Rectangular(draft, K) && K > 0 && |draft| > 0 && budget > 0 && margin == Clamp(w)
    ensures Built(draft, w, tree, paths, hp) && HeapLinked(draft, paths, heap, hp)
    ensures |tree.tokens| <= budget && |paths| == |tree.tokens| + 1 && Chain(paths, |tree.tokens|)
    ensures |tree.tokens| == budget || Covers(draft, w, BestScore(draft), paths, hp)
    ensures FullChain(draft, budget, w, |tree.tokens|)
  {
    hide Built, HeapLinked, Stands, Covers, Chain, AddNode, Without, Pushed, Zeros, Score, InDraft, Right, Down,
      Outside, Exceeds, Clamp;
    tree, heap, paths, hp := ROOT, [], [[]], [];
    SeedStart(draft, K, w);
    var best := draft[0][0].logp;
    var cumulative, parent, depth := 0.0, 0, 1;
    assert hp + [Zeros(1)] == [Zeros(1)];
    while depth <= |draft| && depth <= budget
      invariant 1 <= depth <= |draft| && |tree.tokens| == depth - 1 == parent && |paths| == depth && depth - 1 <= budget
      invariant InDraft(draft, Zeros(depth - 1)) && cumulative == Score(draft, Zeros(depth - 1))
      invariant Chain(paths, depth - 1)
      invariant HeapLinked(draft, paths, heap, hp) && Built(draft, w, tree, paths, hp + [Zeros(depth)])
      invariant Covers(draft, w, BestScore(draft), paths, hp + [Zeros(depth)])
    {
      SeedStands(draft, K, paths, depth - 1);
      ghost var tip := Zeros(depth);
      var row := draft[depth - 1];
      var next := cumulative + row[0].logp;
      var c := Candidate(next, parent, depth, 0, row[0].token);
      StandsScore(draft, paths, c, tip);
      ClampMeaning(w, best, next);
      if Exceeds(margin, best, next) {
        TipOutside(draft, w, best, paths, hp, tip);
        FewerWaiting(draft, w, tree, paths, hp, [tip]);
        return;
      }
      ghost var waiting := hp + [tip];
      assert waiting[|hp|] == tip;
      BuiltStep(draft, K, w, tree, paths, waiting, |hp|, c);
      SeedWaiting(draft, K, hp, depth);
      ChainSnoc(paths);
      HeapKept(draft, paths, heap, hp, tip);
      if K > 1 {
        var s := Candidate(cumulative + row[1].logp, parent, depth, 1, row[1].token);
        StandsKept(draft, paths, s, Right(tip), tip);
        HeapSnoc(draft, paths + [tip], heap, hp, s, Right(tip));
        heap, hp := heap + [s], hp + [Right(tip)];
      }
      tree, paths := AddNode(tree, parent, depth, row[0].token), paths + [tip];
      BuiltCount(draft, w, tree, paths, Without(waiting, |waiting| - 1) + Pushed(draft, K, tip));
      cumulative, parent := next, depth;
      if depth == |draft| {
        assert hp + [] == hp;
        return;
      }
      depth := depth + 1;
    }
    FewerWaiting(draft, w, tree, paths, hp, [Zeros(depth)]);
  }

  lemma StandsScore(draft: Draft, paths: seq<Path>, c: Candidate, q: Path)
    requires Stands(draft, paths, c, q)
    ensures InDraft(draft, q) && c.logw == Score(draft, q)
  {}

  lemma HeapSnoc(draft: Draft, paths: seq<Path>, heap: seq<Candidate>, hp: seq<Path>, c: Candidate, q: Path)
    requires HeapLinked(draft, paths, heap, hp) && Stands(draft, paths, c, q)
    ensures HeapLinked(draft, paths, heap + [c], hp + [q])
  {}

  lemma SeedStart(draft: Draft, K: nat, w: Window)
    requires Rectangular(draft, K) && K > 0 && |draft| > 0
    ensures Built(draft, w, ROOT, [[]], [Zeros(1)]) && Covers(draft, w, BestScore(draft), [[]], [Zeros(1)])
    ensures InDraft(draft, Zeros(0)) && Score(draft, Zeros(0)) == 0.0
    ensures Chain([[]], 0) && HeapLinked(draft, [[]], [], [])
  {
    BuiltStart(draft, K, w);
    assert Zeros(0) == [];
  }

  lemma MaxExists(heap: seq<Candidate>) returns (k: nat)
    requires heap != []
    ensures k < |heap| && forall i :: 0 <= i < |heap| ==> heap[i].logw <= heap[k].logw
  {
    k := 0;
    for n := 1 to |heap|
      invariant k < n && forall i :: 0 <= i < n ==> heap[i].logw <= heap[k].logw
    {
      if heap[n].logw > heap[k].logw { k := n; }
    }
  }

  /** What build_ddtree promises: a tree of distinct candidates, ancestor- and sibling-closed, within budget and window,
      chain first, and nothing better left out. */
  ghost predicate Promised(draft: Draft, budget: int, w: Window, tree: Tree, paths: seq<Path>, seeded: nat) {
    && Linked(draft, tree, paths) && Closed(draft, paths) && NoDup(paths) && AllInside(draft, w, paths)
    && (tree.tokens == [] || |tree.tokens| <= budget) && Chain(paths, seeded)
    && (Ranked(draft) ==> Optimal(draft, budget, w, paths, seeded))
  }

  /** The number of seeded chain nodes is right: none without seeding, otherwise as many as possible. */
  ghost predicate RightlySeeded(draft: Draft, K: nat, budget: int, chainSeed: bool, w: Window, seeded: nat) {
    if chainSeed && K > 0 then FullChain(draft, budget, w, seeded) else seeded == 0
  }

  /** build_ddtree. The heap may break ties between equal scores in any way. */
  method BuildTree(draft: Draft, K: nat, budget: int, chainSeed: bool, window: Window) returns (tree: Tree)
    requires Rectangular(draft, K)
    ensures exists paths, seeded ::
      Promised(draft, budget, window, tree, paths, seeded) &&
        RightlySeeded(draft, K, budget, chainSeed, window, seeded)
  {
    ghost var paths, seeded;
    tree, paths, seeded := Grow(draft, K, budget, chainSeed, window);
  }

  /** The construction together with the candidates its nodes stand for. */
  method Grow(draft: Draft, K: nat, budget: int, chainSeed: bool, w: Window)
    returns (tree: Tree, ghost paths: seq<Path>, ghost seeded: nat)
    requires Rectangular(draft, K)
    ensures Promised(draft, budget, w, tree, paths, seeded)
    ensures RightlySeeded(draft, K, budget, chainSeed, w, seeded)
  {
    hide Promised, Built, HeapLinked, Stands, Covers, Chain, AddNode, Without, Pushed, PushedEntries, Zeros, Score,
      InDraft, Dominates, Ranked, Outside, Exceeds, Clamp;
    tree, paths, seeded := ROOT, [[]], 0;
    if budget <= 0 || |draft| == 0 || K == 0 {
      NothingToBuild(draft, K, budget, w);
      return;
    }
    var margin := Clamp(w);
    var best := draft[0][0].logp;
    var heap: seq<Candidate>;
    ghost var hp: seq<Path>;
    if chainSeed {
      tree, heap, paths, hp := SeedChain(draft, K, budget, margin, w);
      seeded := |tree.tokens|;
    } else {
      SeedStart(draft, K, w);
      SeedStands(draft, K, paths, 0);
      heap, hp := [Candidate(draft[0][0].logp, 0, 1, 0, draft[0][0].token)], [Zeros(1)];
      HeapSnoc(draft, paths, [], [], heap[0], hp[0]);
      assert [] + heap == heap && [] + hp == hp;
    }
    DominatesStart(draft, paths, seeded, heap, hp, w, tree);
    while heap != [] && |tree.tokens| < budget
      invariant |paths| == |tree.tokens| + 1 && |tree.tokens| <= budget && seeded <= |tree.tokens|
      invariant Chain(paths, seeded)
      invariant HeapLinked(draft, paths, heap, hp) && Built(draft, w, tree, paths, hp)
      invariant Covers(draft, w, best, paths, hp) || seeded == |tree.tokens| == budget
      invariant Ranked(draft) ==> Dominates(draft, paths, seeded, hp)
      decreases budget - |tree.tokens|
    {
      ghost var m := MaxExists(heap);
      var k :| 0 <= k < |heap| && forall i :: 0 <= i < |heap| ==> heap[i].logw <= heap[k].logw;
      var c := heap[k];
      ClampMeaning(w, best, c.logw);
      if Exceeds(margin, best, c.logw) {
        AllOutside(draft, w, paths, heap, hp, k);
        FinishBuild(draft, budget, w, tree, paths, seeded, hp);
        return;
      }
      NextHeapLinked(draft, K, paths, heap, hp, k);
      HeapSizes(draft, paths, heap, hp);
      BuiltStep(draft, K, w, tree, paths, hp, k, c);
      if Ranked(draft) { BestPopped(draft, K, paths, seeded, heap, hp, k); }
      ChainKept(paths, seeded, hp[k]);
      heap := Without(heap, k) + PushedEntries(draft, K, c, |tree.tokens| + 1);
      tree := AddNode(tree, c.parent, c.depth, c.token);
      paths, hp := paths + [hp[k]], Without(hp, k) + Pushed(draft, K, hp[k]);
      BuiltCount(draft, w, tree, paths, hp);
    }
    assert heap == [] ==> hp == [] by { HeapSizes(draft, paths, heap, hp); }
    FinishBuild(draft, budget, w, tree, paths, seeded, hp);
  }

  lemma HeapSizes(draft: Draft, paths: seq<Path>, heap: seq<Candidate>, hp: seq<Path>)
    requires HeapLinked(draft, paths, heap, hp)
    ensures |heap| == |hp|
  {}

  lemma ChainKept(paths: seq<Path>, n: nat, q: Path)
    requires Chain(paths, n)
    ensures Chain(paths + [q], n)
  {}

  lemma NothingToBuild(draft: Draft, K: nat, budget: int, w: Window)
    requires Rectangular(draft, K) && (budget <= 0 || |draft| == 0 || K == 0)
    ensures Promised(draft, budget, w, ROOT, [[]], 0)
  {
    assert Zeros(0) == [];
    var paths: seq<Path> := [[]];
    forall q | Valid(draft, q) ensures budget <= 0 { assert q[0] < |draft[0]|; }
  }

  lemma AllOutside(draft: Draft, w: Window, paths: seq<Path>, heap: seq<Candidate>, hp: seq<Path>, k: nat)
    requires HeapLinked(draft, paths, heap, hp) && k < |heap| && Outside(w, BestScore(draft), heap[k].logw)
    requires forall i :: 0 <= i < |heap| ==> heap[i].logw <= heap[k].logw
    ensures forall j :: 0 <= j < |hp| ==> InDraft(draft, hp[j]) && Outside(w, BestScore(draft), Score(draft, hp[j]))
  {
    hide Stands, InDraft, Score, BestScore;
    forall j | 0 <= j < |hp| ensures InDraft(draft, hp[j]) && Outside(w, BestScore(draft), Score(draft, hp[j])) {
      StandsScore(draft, paths, heap[j], hp[j]);
    }
  }

  lemma BestPopped(draft: Draft, K: nat, paths: seq<Path>, seeded: nat, heap: seq<Candidate>, hp: seq<Path>, k: nat)
    requires Ranked(draft) && Rectangular(draft, K) && HeapLinked(draft, paths, heap, hp) && k < |heap|
    requires Dominates(draft, paths, seeded, hp) && forall i :: 0 <= i < |heap| ==> heap[i].logw <= heap[k].logw
    ensures Dominates(draft, paths + [hp[k]], seeded, Without(hp, k) + Pushed(draft, K, hp[k]))
  {
    assert Valid(draft, hp[k]) by { assert Stands(draft, paths, heap[k], hp[k]); }
    hide Ranked, Dominates, Stands, Score, InDraft, Rectangular, Without, Pushed;
    StandsScore(draft, paths, heap[k], hp[k]);
    forall f | f in hp ensures InDraft(draft, f) && Score(draft, f) <= Score(draft, hp[k]) {
      var j :| 0 <= j < |hp| && hp[j] == f;
      StandsScore(draft, paths, heap[j], hp[j]);
    }
    StepDominates(draft, K, paths, seeded, hp, k);
  }

  lemma DominatesStart(draft: Draft, paths: seq<Path>, seeded: nat, heap: seq<Candidate>, hp: seq<Path>, w: Window,
                       tree: Tree)
    requires HeapLinked(draft, paths, heap, hp) && Built(draft, w, tree, paths, hp) && seeded + 1 == |paths|
    ensures Dominates(draft, paths, seeded, hp)
  {
    hide Search, AllInside, Score;
    forall j | 0 <= j < |hp| ensures InDraft(draft, hp[j]) { assert Stands(draft, paths, heap[j], hp[j]); }
    forall i | 0 <= i < |paths| ensures InDraft(draft, paths[i]) { if i > 0 { assert NodeIs(draft, tree, paths, i); } }
  }

  lemma FinishBuild(draft: Draft, budget: int, w: Window, tree: Tree, paths: seq<Path>, seeded: nat, hp: seq<Path>)
    requires Built(draft, w, tree, paths, hp) && (Ranked(draft) ==> Dominates(draft, paths, seeded, hp))
    requires |tree.tokens| <= budget && Chain(paths, seeded)
    requires Covers(draft, w, BestScore(draft), paths, hp) || seeded == |tree.tokens| == budget
    requires |tree.tokens| >= budget ||
      forall j :: 0 <= j < |hp| ==> InDraft(draft, hp[j]) && Outside(w, BestScore(draft), Score(draft, hp[j]))
    ensures Promised(draft, budget, w, tree, paths, seeded)
  {
    BuiltCount(draft, w, tree, paths, hp);
    hide Linked, AllInside, Covers, Chain, Score, InDraft, Dominates, Optimal, Closed, NoDup, Sound, BestScore, Ranked;
    if Ranked(draft) { Finish(draft, budget, w, paths, seeded, hp); }
  }

  /** What the window means for the caller: nodes miss the best score by at most the margin, negative margins counting
      as zero, and a candidate of a ranked draft is left out only when it misses it by more or the budget is used up. */
  lemma WindowMeaning(draft: Draft, budget: int, w: Window, tree: Tree, paths: seq<Path>, seeded: nat, q: Path)
    requires Promised(draft, budget, w, tree, paths, seeded) && Valid(draft, q)
    ensures w.Margin? && q in paths ==>
      BestScore(draft) - Score(draft, q) <= w.tau || BestScore(draft) - Score(draft, q) <= 0.0
    ensures w.Margin? && Ranked(draft) && q !in paths && |paths| - 1 < budget ==>
      BestScore(draft) - Score(draft, q) > w.tau && BestScore(draft) - Score(draft, q) > 0.0
    ensures w.Unbounded? && Ranked(draft) && q !in paths ==> |paths| - 1 >= budget
  {
    hide Linked, Closed, NoDup, Chain, Ranked, Score, BestScore, InDraft, AllAtLeast;
    RootFirst(draft, tree, paths);
    if q in paths {
      var i :| 0 <= i < |paths| && paths[i] == q;
    }
  }

  // ---- no tree of the same size is worth more

  ghost function Worth(draft: Draft, weight: real -> real, s: seq<Path>): real
    requires forall q :: q in s ==> InDraft(draft, q)
  {
    if s == [] then 0.0 else weight(Score(draft, s[0])) + Worth(draft, weight, s[1..])
  }

  lemma {:induction false} WorthWithout(draft: Draft, weight: real -> real, s: seq<Path>, k: nat)
    requires k < |s| && forall q :: q in s ==> InDraft(draft, q)
    ensures forall q :: q in Without(s, k) ==> InDraft(draft, q)
    ensures Worth(draft, weight, s) == weight(Score(draft, s[k])) + Worth(draft, weight, Without(s, k))
  {
    hide InDraft, Score;
    if k > 0 {
      WorthWithout(draft, weight, s[1..], k - 1);
      assert Without(s, k) == [s[0]] + Without(s[1..], k - 1);
      assert Without(s, k)[1..] == Without(s[1..], k - 1);
    } else {
      assert Without(s, k) == s[1..];
    }
  }

  lemma {:induction false} WorthNonNegative(draft: Draft, weight: real -> real, s: seq<Path>)
    requires (forall q :: q in s ==> InDraft(draft, q)) && forall x :: weight(x) >= 0.0
    ensures Worth(draft, weight, s) >= 0.0
  {
    if s != [] { WorthNonNegative(draft, weight, s[1..]); }
  }

  /** A sequence without repeats that is longer than another has a member the other lacks. */
  lemma {:induction false} Pigeonhole(s: seq<Path>, t: seq<Path>) returns (k: nat)
    requires NoDup(s) && NoDup(t) && |s| < |t|
    ensures k < |t| && t[k] !in s
  {
    if s == [] {
      k := 0;
    } else if s[0] in t {
      var i :| 0 <= i < |t| && t[i] == s[0];
      WithoutMembers(t, i);
      var r := Without(t, i);
      var j := Pigeonhole(s[1..], r);
      k := if j < i then j else j + 1;
      assert t[k] == r[j] && t[k] in r;
      assert s == [s[0]] + s[1..];
    } else {
      k := Pigeonhole(s[1..], t);
      assert s == [s[0]] + s[1..];
    }
  }

  /** A weight that never falls and is never negative, such as exp. */
  ghost predicate Growing(weight: real -> real) {
    (forall x :: weight(x) >= 0.0) && forall x, y :: x <= y ==> weight(x) <= weight(y)
  }

  /** Whatever s has beyond t scores no more than whatever t has beyond s. */
  ghost predicate NoBetterThan(draft: Draft, s: seq<Path>, t: seq<Path>) {
    && (forall q :: q in s ==> InDraft(draft, q)) && (forall q :: q in t ==> InDraft(draft, q))
    && forall q, p :: q in s && q !in t && p in t && p !in s ==> Score(draft, q) <= Score(draft, p)
  }

  /** Dropping the head of s and its counterpart in t, itself or any member s lacks, keeps this. */
  lemma ExchangeStep(draft: Draft, s: seq<Path>, t: seq<Path>, i: nat)
    requires NoDup(s) && NoDup(t) && s != [] && i < |t| && NoBetterThan(draft, s, t)
    requires t[i] == s[0] || (s[0] !in t && t[i] !in s)
    ensures NoBetterThan(draft, s[1..], Without(t, i)) && NoDup(s[1..]) && NoDup(Without(t, i))
    ensures InDraft(draft, s[0]) && InDraft(draft, t[i]) && Score(draft, s[0]) <= Score(draft, t[i])
  {
    hide InDraft, Score;
    WithoutMembers(t, i);
    var rest, t' := s[1..], Without(t, i);
    HeadApart(s);
    hide NoDup, Without;
    forall q, p | q in rest && q !in t' && p in t' && p !in rest ensures Score(draft, q) <= Score(draft, p) {
      assert q in s && p in t;
    }
  }

  lemma HeadApart(s: seq<Path>)
    requires NoDup(s) && s != []
    ensures NoDup(s[1..]) && s[0] !in s[1..] && forall q :: q in s <==> q == s[0] || q in s[1..]
  {
    assert s == [s[0]] + s[1..];
  }

  /** Exchange argument: then s is worth no more. */
  lemma {:induction false} Exchange(draft: Draft, weight: real -> real, s: seq<Path>, t: seq<Path>)
    requires NoDup(s) && NoDup(t) && |s| <= |t| && NoBetterThan(draft, s, t) && Growing(weight)
    ensures Worth(draft, weight, s) <= Worth(draft, weight, t)
    decreases |s|
  {
    if s == [] {
      WorthNonNegative(draft, weight, t);
    } else {
      var i := Counterpart(s, t);
      ExchangeStep(draft, s, t, i);
      hide InDraft, Score, NoDup, NoBetterThan;
      Exchange(draft, weight, s[1..], Without(t, i));
      hide Without;
      WorthWithout(draft, weight, t, i);
    }
  }

  lemma Counterpart(s: seq<Path>, t: seq<Path>) returns (i: nat)
    requires NoDup(s) && NoDup(t) && s != [] && |s| <= |t|
    ensures i < |t| && (t[i] == s[0] || (s[0] !in t && t[i] !in s))
  {
    HeadApart(s);
    hide NoDup;
    if s[0] in t {
      i :| 0 <= i < |t| && t[i] == s[0];
    } else {
      i := Pigeonhole(s[1..], t);
    }
  }

  /** Any other choice of at most `budget` candidates inside the window. */
  ghost predicate Rival(draft: Draft, budget: int, w: Window, other: seq<Path>) {
    NoDup(other) && |other| <= budget && forall q :: q in other ==>
      Valid(draft, q) && !Outside(w, BestScore(draft), Score(draft, q))
  }

  /** The other choice is a tree: the parent of every candidate is the root or chosen too. */
  ghost predicate IsTree(other: seq<Path>) {
    forall q :: q in other ==> q != [] && (Front(q) == [] || Front(q) in other)
  }

  /** A weight that grows with every gain in score, such as exp. */
  ghost predicate StrictlyGrowing(weight: real -> real) {
    (forall x :: weight(x) >= 0.0) && forall x, y :: x < y ==> weight(x) < weight(y)
  }

  lemma StrictGrows(weight: real -> real)
    requires StrictlyGrowing(weight)
    ensures Growing(weight)
  {
    forall x, y | x <= y ensures weight(x) <= weight(y) { assert x < y || x == y; }
  }

  /** No tree of at most `budget` nodes inside the window is worth more under this weight: with exp, none has a larger
      expected acceptance length under the draft. */
  ghost predicate BestTree(draft: Draft, budget: int, w: Window, nodes: seq<Path>, weight: real -> real) {
    forall other :: Rival(draft, budget, w, other) && IsTree(other) ==> WorthAtMost(draft, weight, other, nodes)
  }

  ghost predicate WorthAtMost(draft: Draft, weight: real -> real, s: seq<Path>, t: seq<Path>) {
    && (forall q :: q in s ==> InDraft(draft, q)) && (forall q :: q in t ==> InDraft(draft, q))
    && Worth(draft, weight, s) <= Worth(draft, weight, t)
  }

  /** The seeded chain took no place from a better candidate. */
  ghost predicate Harmless(draft: Draft, budget: int, w: Window, paths: seq<Path>, seeded: nat) {
    seeded == 0 || |paths| - 1 < budget ||
    (InDraft(draft, Zeros(seeded)) &&
     forall q :: Valid(draft, q) && q !in paths && !Outside(w, BestScore(draft), Score(draft, q)) ==>
       Score(draft, q) <= Score(draft, Zeros(seeded)))
  }

  /** No rival that keeps the seeded chain is worth more. */
  lemma NoBetterTree(draft: Draft, budget: int, w: Window, tree: Tree, paths: seq<Path>, seeded: nat, other: seq<Path>,
                     weight: real -> real)
    requires Ranked(draft) && Promised(draft, budget, w, tree, paths, seeded) && Rival(draft, budget, w, other)
    requires Growing(weight)
    requires forall i :: 0 < i <= seeded ==> Zeros(i) in other
    ensures |paths| > 0 && WorthAtMost(draft, weight, other, paths[1..])
  {
    hide Growing, Ranked, Promised, Rival, NoDup, InDraft, Score, Zeros, Outside;
    Nodes(draft, budget, w, tree, paths, seeded);
    RivalFacts(draft, budget, w, other);
    var t := paths[1..];
    forall q, p | q in other && q !in t && p in t && p !in other ensures Score(draft, q) <= Score(draft, p) {
      var k :| 0 <= k < |t| && t[k] == p;
      assert paths[k + 1] == p && seeded < k + 1;
      OmittedBelow(draft, budget, w, tree, paths, seeded, q);
    }
    Fits(draft, budget, w, tree, paths, seeded, other);
    Exchange(draft, weight, other, t);
  }

  lemma RivalFacts(draft: Draft, budget: int, w: Window, other: seq<Path>)
    requires Rival(draft, budget, w, other)
    ensures NoDup(other) && |other| <= budget && [] !in other
    ensures forall q :: q in other ==>
      InDraft(draft, q) && Valid(draft, q) && !Outside(w, BestScore(draft), Score(draft, q))
  {
    hide InDraft, Score, BestScore, Outside, NoDup;
  }

  lemma Nodes(draft: Draft, budget: int, w: Window, tree: Tree, paths: seq<Path>, seeded: nat)
    requires Promised(draft, budget, w, tree, paths, seeded)
    ensures |paths| > 0 && paths[0] == [] && NoDup(paths) && NoDup(paths[1..]) && seeded < |paths|
    ensures (|paths| == 1 || |paths| - 1 <= budget)
    ensures forall q :: q in paths <==> q == [] || q in paths[1..]
    ensures [] !in paths[1..]
    ensures forall q :: q in paths[1..] ==>
      InDraft(draft, q) && Valid(draft, q) && !Outside(w, BestScore(draft), Score(draft, q))
    ensures forall i :: 0 < i <= seeded ==> paths[i] == Zeros(i) && paths[i] in paths[1..]
  {
    hide Ranked, Optimal, Closed, Score, InDraft, BestScore, Outside;
    RootFirst(draft, tree, paths);
    RealNodes(draft, tree, paths);
    hide Linked;
    var t := paths[1..];
    assert paths == [paths[0]] + t;
    forall i | 0 < i <= seeded ensures paths[i] == Zeros(i) && paths[i] in t { assert paths[i] == t[i - 1]; }
  }

  lemma RealNodes(draft: Draft, tree: Tree, paths: seq<Path>)
    requires Linked(draft, tree, paths)
    ensures |paths| == |tree.tokens| + 1 && forall i :: 0 < i < |paths| ==> Valid(draft, paths[i])
  {
    hide WellFormed, Valid;
    SizedWhenWellFormed(tree);
    forall i | 0 < i < |paths| ensures Valid(draft, paths[i]) { assert NodeIs(draft, tree, paths, i); }
  }

  /** A candidate inside the window is left out only for best-first nodes that score at least as much. */
  lemma OmittedBelow(draft: Draft, budget: int, w: Window, tree: Tree, paths: seq<Path>, seeded: nat, q: Path)
    requires Ranked(draft) && Promised(draft, budget, w, tree, paths, seeded)
    requires Valid(draft, q) && q !in paths && !Outside(w, BestScore(draft), Score(draft, q))
    ensures |paths| - 1 >= budget && (forall i :: 0 <= i < |paths| ==> InDraft(draft, paths[i]))
    ensures AllAtLeast(draft, paths, seeded, Score(draft, q))
  {
    hide Ranked, Linked, Closed, NoDup, Score, InDraft, BestScore, Outside, AllInside, Chain, AllAtLeast;
  }

  /** Where the budget is not used up every rival lies inside the tree. */
  lemma Fits(draft: Draft, budget: int, w: Window, tree: Tree, paths: seq<Path>, seeded: nat, other: seq<Path>)
    requires Ranked(draft) && Promised(draft, budget, w, tree, paths, seeded) && Rival(draft, budget, w, other)
    requires |paths| > 0
    ensures |other| <= |paths[1..]|
    ensures |paths| - 1 < budget ==> forall q :: q in other ==> q in paths[1..]
  {
    Nodes(draft, budget, w, tree, paths, seeded);
    hide Ranked, Linked, Closed, NoDup, Score, InDraft, BestScore, Outside, AllInside, Chain;
    if |paths| - 1 < budget {
      forall q | q in other ensures q in paths[1..] {}
      FitsInside(other, paths[1..]);
    }
  }

  /** Under every strictly growing weight, the tree is the best one of its size if and only if its seeded chain took no
      place from a better candidate. */
  lemma BestIffHarmless(draft: Draft, budget: int, w: Window, tree: Tree, paths: seq<Path>, seeded: nat,
                        weight: real -> real)
    requires Ranked(draft) && Promised(draft, budget, w, tree, paths, seeded) && StrictlyGrowing(weight)
    ensures |paths| > 0
    ensures (BestTree(draft, budget, w, paths[1..], weight) <==> Harmless(draft, budget, w, paths, seeded))
  {
    hide Promised, Ranked, NoDup, InDraft, Score, Harmless, Rival, WorthAtMost, StrictlyGrowing, IsTree, Growing;
    Nodes(draft, budget, w, tree, paths, seeded);
    if Harmless(draft, budget, w, paths, seeded) {
      StrictGrows(weight);
      forall other | Rival(draft, budget, w, other) && IsTree(other)
        ensures WorthAtMost(draft, weight, other, paths[1..])
      {
        HarmlessBeats(draft, budget, w, tree, paths, seeded, other, weight);
      }
    } else {
      hide BestTree;
      var q := BetterOmitted(draft, budget, w, tree, paths, seeded);
      SwapIsBetter(draft, budget, w, tree, paths, seeded, q, weight);
    }
  }

  lemma BetterOmitted(draft: Draft, budget: int, w: Window, tree: Tree, paths: seq<Path>, seeded: nat) returns (q: Path)
    requires Promised(draft, budget, w, tree, paths, seeded) && !Harmless(draft, budget, w, paths, seeded)
    ensures 0 < seeded < |paths| && |paths| - 1 >= budget && InDraft(draft, Zeros(seeded)) && Valid(draft, q)
    ensures q !in paths
    ensures !Outside(w, BestScore(draft), Score(draft, q)) && Score(draft, q) > Score(draft, Zeros(seeded))
  {
    Nodes(draft, budget, w, tree, paths, seeded);
    hide Promised, NoDup, InDraft, Score, BestScore, Outside, Zeros;
    q :| Valid(draft, q) && q !in paths && !Outside(w, BestScore(draft), Score(draft, q)) &&
      !(Score(draft, q) <= Score(draft, Zeros(seeded)));
  }

  /** A harmless seed costs nothing, against any set of candidates and under any growing weight. */
  lemma HarmlessBeats(draft: Draft, budget: int, w: Window, tree: Tree, paths: seq<Path>, seeded: nat, other: seq<Path>,
                      weight: real -> real)
    requires Ranked(draft) && Promised(draft, budget, w, tree, paths, seeded)
    requires Harmless(draft, budget, w, paths, seeded)
    requires Rival(draft, budget, w, other) && Growing(weight)
    ensures |paths| > 0 && WorthAtMost(draft, weight, other, paths[1..])
  {
    hide Growing, Ranked, Promised, Rival, NoDup, InDraft, Score, Zeros, Outside, BestScore;
    Nodes(draft, budget, w, tree, paths, seeded);
    RivalFacts(draft, budget, w, other);
    Fits(draft, budget, w, tree, paths, seeded, other);
    var t := paths[1..];
    forall q, p | q in other && q !in t && p in t && p !in other ensures Score(draft, q) <= Score(draft, p) {
      var k :| 0 <= k < |t| && t[k] == p;
      assert paths[k + 1] == p;
      if k + 1 <= seeded {
        ChainFalls(draft, k + 1, seeded);
      } else {
        OmittedBelow(draft, budget, w, tree, paths, seeded, q);
      }
    }
    hide Harmless;
    Exchange(draft, weight, other, t);
  }

  /** Scores fall along the chain. */
  lemma {:induction false} ChainFalls(draft: Draft, i: nat, n: nat)
    requires Ranked(draft) && i <= n && InDraft(draft, Zeros(n))
    ensures InDraft(draft, Zeros(i)) && Score(draft, Zeros(i)) >= Score(draft, Zeros(n))
    decreases n
  {
    if i < n {
      ZerosDown(n - 1);
      assert InDraft(draft, Zeros(n - 1));
      ChainFalls(draft, i, n - 1);
      hide Zeros;
      ScoreDown(draft, Zeros(n - 1));
    }
  }

  /** If an omitted candidate beats the end of the chain, so does a frontier member, and swapping the two gives a
      tree. */
  lemma SwapIsBetter(draft: Draft, budget: int, w: Window, tree: Tree, paths: seq<Path>, seeded: nat, q: Path,
                     weight: real -> real)
    requires Ranked(draft) && Promised(draft, budget, w, tree, paths, seeded) && StrictlyGrowing(weight)
    requires 0 < seeded < |paths| && |paths| - 1 >= budget
    requires InDraft(draft, Zeros(seeded)) && Valid(draft, q) && q !in paths
    requires !Outside(w, BestScore(draft), Score(draft, q)) && Score(draft, q) > Score(draft, Zeros(seeded))
    ensures !BestTree(draft, budget, w, paths[1..], weight)
  {
    Nodes(draft, budget, w, tree, paths, seeded);
    var f := FrontierAbove(draft, paths, q);
    assert Valid(draft, f) && f !in paths && Front(f) in paths;
    hide Promised, NoDup, InDraft, Score, BestScore, Zeros, Ranked, Frontier, StrictlyGrowing, Rival, IsTree;
    var other := SwapTree(draft, budget, w, tree, paths, seeded, f);
    SwapWorth(draft, budget, w, tree, paths, seeded, f, weight);
  }

  /** The nodes with the end of the chain replaced by f. */
  function Swapped(paths: seq<Path>, seeded: nat, f: Path): seq<Path>
    requires 0 < seeded < |paths|
  {
    [f] + Without(paths[1..], seeded - 1)
  }

  lemma SwapMembers(draft: Draft, budget: int, w: Window, tree: Tree, paths: seq<Path>, seeded: nat, f: Path)
    requires Promised(draft, budget, w, tree, paths, seeded) && 0 < seeded < |paths| && f !in paths
    ensures |Swapped(paths, seeded, f)| == |paths| - 1 && NoDup(Swapped(paths, seeded, f))
    ensures forall p :: p in Swapped(paths, seeded, f) <==> p == f || (p in paths[1..] && p != Zeros(seeded))
  {
    hide Promised, NoDup, Zeros;
    Nodes(draft, budget, w, tree, paths, seeded);
    var t, k := paths[1..], seeded - 1;
    assert t[k] == paths[seeded];
    WithoutMembers(t, k);
    assert |Without(t, k)| == |t| - 1;
    hide Without;
    NoDupCons(f, Without(t, k));
  }

  /** It is a rival and a tree: the parent of f is not the end of the chain, and nothing kept hangs below that. */
  lemma SwapTree(draft: Draft, budget: int, w: Window, tree: Tree, paths: seq<Path>, seeded: nat, f: Path)
    returns (other: seq<Path>)
    requires Ranked(draft) && Promised(draft, budget, w, tree, paths, seeded) && 0 < seeded < |paths|
    requires |paths| - 1 >= budget
    requires InDraft(draft, Zeros(seeded)) && Valid(draft, f) && f !in paths && Front(f) in paths
    requires !Outside(w, BestScore(draft), Score(draft, f)) && Score(draft, f) > Score(draft, Zeros(seeded))
    ensures other == Swapped(paths, seeded, f) && Rival(draft, budget, w, other) && IsTree(other)
  {
    Nodes(draft, budget, w, tree, paths, seeded);
    SwapMembers(draft, budget, w, tree, paths, seeded, f);
    other := Swapped(paths, seeded, f);
    assert Rival(draft, budget, w, other) by {
      hide Promised, NoDup, Score, InDraft, BestScore, Zeros, Ranked, Outside, Swapped;
    }
    hide NoDup, BestScore, Zeros, Ranked, Rival, Swapped;
    forall p | p in other ensures p != [] && (Front(p) == [] || Front(p) in other) {
      hide Promised, Score;
      NothingBelow(draft, budget, w, tree, paths, seeded, f, p);
      if p != f { ParentKept(draft, budget, w, tree, paths, seeded, p); }
    }
  }

  lemma ParentKept(draft: Draft, budget: int, w: Window, tree: Tree, paths: seq<Path>, seeded: nat, p: Path)
    requires Promised(draft, budget, w, tree, paths, seeded) && p in paths && p != []
    ensures Front(p) in paths
  {
    hide Linked, NoDup, AllInside, Chain, Ranked, Optimal, InDraft;
  }

  /** Neither f nor a kept node hangs below the end of the chain: it would score too little. */
  lemma NothingBelow(draft: Draft, budget: int, w: Window, tree: Tree, paths: seq<Path>, seeded: nat, f: Path, p: Path)
    requires Ranked(draft) && Promised(draft, budget, w, tree, paths, seeded) && seeded < |paths|
    requires InDraft(draft, Zeros(seeded)) && Valid(draft, f) && f !in paths
    requires !Outside(w, BestScore(draft), Score(draft, f)) && Score(draft, f) > Score(draft, Zeros(seeded))
    requires p != [] && (p == f || p in paths[1..])
    ensures Front(p) != Zeros(seeded)
  {
    Nodes(draft, budget, w, tree, paths, seeded);
    hide Promised, Ranked, NoDup, Score, InDraft, BestScore, Outside;
    ChildScore(draft, p);
    if p != f {
      var t := paths[1..];
      var k :| 0 <= k < |t| && t[k] == p;
      assert paths[k + 1] == p;
      if k + 1 <= seeded {
        assert |Front(p)| < |Zeros(seeded)|;
      } else {
        OmittedBelow(draft, budget, w, tree, paths, seeded, f);
      }
    }
  }

  lemma ChildScore(draft: Draft, p: Path)
    requires Ranked(draft) && Valid(draft, p)
    ensures InDraft(draft, Front(p)) && Score(draft, p) <= Score(draft, Front(p))
  {}

  lemma SwapWorth(draft: Draft, budget: int, w: Window, tree: Tree, paths: seq<Path>, seeded: nat, f: Path,
                  weight: real -> real)
    requires Promised(draft, budget, w, tree, paths, seeded) && 0 < seeded < |paths| && f !in paths
    requires InDraft(draft, Zeros(seeded)) && Valid(draft, f) && Score(draft, f) > Score(draft, Zeros(seeded))
    requires StrictlyGrowing(weight)
    ensures !WorthAtMost(draft, weight, Swapped(paths, seeded, f), paths[1..])
  {
    hide Promised, NoDup, InDraft, Score, Zeros, BestScore;
    Nodes(draft, budget, w, tree, paths, seeded);
    SwapMembers(draft, budget, w, tree, paths, seeded, f);
    var t, k := paths[1..], seeded - 1;
    assert t[k] == paths[seeded];
    WorthWithout(draft, weight, t, k);
    var other := Swapped(paths, seeded, f);
    assert other[0] == f && other[1..] == Without(t, k);
    hide Without;
    assert weight(Score(draft, f)) > weight(Score(draft, t[k]));
  }

  lemma NoDupCons(q: Path, s: seq<Path>)
    requires NoDup(s) && q !in s
    ensures NoDup([q] + s)
  {}

  predicate Costly(draft: Draft) { draft == [[Choice(-0.1, 1), Choice(-0.2, 2)], [Choice(-5.0, 3), Choice(-6.0, 4)]] }

  /** An input where seeding costs: for rows (-0.1, -0.2) and (-5, -6) and budget 2 the chain takes both places,
      although the second first choice is worth more than the chain's second node, whatever strictly growing weight is
      used. */
  lemma SeedCanCost(draft: Draft, tree: Tree, paths: seq<Path>, seeded: nat, weight: real -> real)
    requires StrictlyGrowing(weight)
    requires Costly(draft) && Promised(draft, 2, Unbounded, tree, paths, seeded)
    requires RightlySeeded(draft, 2, 2, true, Unbounded, seeded)
    ensures |paths| == 3 && !BestTree(draft, 2, Unbounded, paths[1..], weight)
  {
    hide Promised, BestTree, NoDup, BestScore, Costly, Score, InDraft, Zeros, Ranked, StrictlyGrowing;
    ExampleScores(draft);
    ExampleRanked(draft);
    Nodes(draft, 2, Unbounded, tree, paths, seeded);
    assert seeded == 2 && |paths| == 3;
    assert [1] !in paths by { assert paths == [paths[0], paths[1], paths[2]]; }
    SwapIsBetter(draft, 2, Unbounded, tree, paths, seeded, [1], weight);
  }

  lemma ExampleRanked(draft: Draft)
    requires Costly(draft)
    ensures Ranked(draft)
  {}

  lemma ExampleScores(draft: Draft)
    requires Costly(draft)
    ensures |draft| == 2 && Zeros(1) == [0] && Zeros(2) == [0, 0] && Valid(draft, [1]) && InDraft(draft, [0, 0])
    ensures Score(draft, [1]) == -0.2 && Score(draft, [0, 0]) == -5.1
  {
    assert Front([1]) == [] && Front([0, 0]) == [0] && Front([0]) == [];
    assert Score(draft, []) == 0.0;
    assert Score(draft, [0]) == -0.1;
  }

  lemma RootFirst(draft: Draft, tree: Tree, paths: seq<Path>)
    requires Linked(draft, tree, paths)
    ensures |paths| > 0 && paths[0] == []
  {}

  lemma FitsInside(s: seq<Path>, t: seq<Path>)
    requires NoDup(s) && NoDup(t) && forall q :: q in s ==> q in t
    ensures |s| <= |t|
  {
    if |s| > |t| {
      var k := Pigeonhole(t, s);
      assert false;
    }
  }
}
