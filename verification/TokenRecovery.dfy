/**
The cross-tokenizer recovery of server/scripts/laguna_pflash_niah.py: kept drafter tokens are located in the full token
list, grouped into runs, each run is widened to word boundaries, overlapping runs are merged, and the tokens of the
merged runs are emitted.
*/
module TokenRecovery {
  import Seqs

  datatype Result<T> = Ok(value: T) | NotASubsequence

  ghost predicate Increasing(xs: seq<int>) {
    forall i, j :: 0 <= i < j < |xs| ==> xs[i] < xs[j]
  }

  /** pos embeds `part` in `whole` as a subsequence. */
  ghost predicate Embeds(part: seq<int>, whole: seq<int>, pos: seq<int>) {
    && |pos| == |part| && Increasing(pos)
    && forall k :: 0 <= k < |pos| ==> 0 <= pos[k] < |whole| && whole[pos[k]] == part[k]
  }

  // ---- _recover_kept_indices

  /** The greedy match succeeds exactly when an embedding exists, and then no embedding has an earlier position
      anywhere. */
  method RecoverKeptIndices(full: seq<int>, kept: seq<int>) returns (r: Result<seq<int>>)
    ensures r.Ok? <==> exists pos :: Embeds(kept, full, pos)
    ensures r.Ok? ==> Embeds(kept, full, r.value)
    ensures r.Ok? ==> forall pos, k :: Embeds(kept, full, pos) && 0 <= k < |kept| ==> r.value[k] <= pos[k]
  {
    hide Embeds, Increasing;
    var out: seq<int> := [];
    var j := 0;
    NothingMatched(full, kept);
    for i := 0 to |full|
      invariant j == |out| <= |kept| && Matched(full, kept, i, out)
      invariant forall pos :: Embeds(kept, full, pos) ==> NotLater(kept, out, i, pos)
    {
      forall pos | Embeds(kept, full, pos) ensures NotLater(kept, Advance(full, kept, i, out), i + 1, pos) {
        AdvanceNotLater(full, kept, i, out, pos);
      }
      AdvanceMatched(full, kept, i, out);
      if j < |kept| && full[i] == kept[j] {
        out := out + [i];
        j := j + 1;
      }
    }
    if j != |kept| {
      forall pos ensures !Embeds(kept, full, pos) { MissedMatch(full, kept, out, pos); }
      return NotASubsequence;
    }
    MatchedAll(full, kept, out);
    return Ok(out);
  }

  /** One step of the scan. */
  function Advance(full: seq<int>, kept: seq<int>, i: nat, out: seq<int>): seq<int>
    requires i < |full|
  {
    if |out| < |kept| && full[i] == kept[|out|] then out + [i] else out
  }

  /** out embeds a prefix of kept into full[..i]. */
  ghost predicate Matched(full: seq<int>, kept: seq<int>, i: nat, out: seq<int>) {
    && i <= |full| && |out| <= |kept| && Increasing(out)
    && forall k :: 0 <= k < |out| ==> 0 <= out[k] < i && full[out[k]] == kept[k]
  }

  /** No position of out is later than in pos, and pos still has its next element at or after i. */
  ghost predicate NotLater(kept: seq<int>, out: seq<int>, i: nat, pos: seq<int>) {
    && |pos| == |kept| && |out| <= |kept|
    && (forall k :: 0 <= k < |out| ==> out[k] <= pos[k])
    && (|out| < |kept| ==> i <= pos[|out|])
  }

  lemma NothingMatched(full: seq<int>, kept: seq<int>)
    ensures Matched(full, kept, 0, [])
    ensures forall pos :: Embeds(kept, full, pos) ==> NotLater(kept, [], 0, pos)
  {}

  lemma AdvanceMatched(full: seq<int>, kept: seq<int>, i: nat, out: seq<int>)
    requires i < |full| && Matched(full, kept, i, out)
    ensures Matched(full, kept, i + 1, Advance(full, kept, i, out))
  {
    var next := Advance(full, kept, i, out);
    forall k | 0 <= k < |next| ensures 0 <= next[k] < i + 1 && full[next[k]] == kept[k] {
      assert k < |out| ==> next[k] == out[k];
    }
    forall j, k | 0 <= j < k < |next| ensures next[j] < next[k] {
      assert next[j] == out[j];
      assert k < |out| ==> next[k] == out[k];
    }
  }

  lemma AdvanceNotLater(full: seq<int>, kept: seq<int>, i: nat, out: seq<int>, pos: seq<int>)
    requires i < |full| && Embeds(kept, full, pos) && NotLater(kept, out, i, pos)
    ensures NotLater(kept, Advance(full, kept, i, out), i + 1, pos)
  {
    hide Embeds, Increasing;
    var j := |out|;
    if j < |kept| {
      EmbedsAt(kept, full, pos, j);
      if full[i] == kept[j] {
        var next := out + [i];
        assert forall k :: 0 <= k < j ==> next[k] == out[k];
        if j + 1 < |kept| { EmbedsStep(kept, full, pos, j); }
      }
    }
  }

  lemma EmbedsAt(part: seq<int>, whole: seq<int>, pos: seq<int>, j: nat)
    requires Embeds(part, whole, pos) && j < |part|
    ensures |pos| == |part| && 0 <= pos[j] < |whole| && whole[pos[j]] == part[j]
  {}

  lemma EmbedsStep(part: seq<int>, whole: seq<int>, pos: seq<int>, j: nat)
    requires Embeds(part, whole, pos) && j + 1 < |part|
    ensures |pos| == |part| && pos[j] < pos[j + 1]
  {}

  lemma MissedMatch(full: seq<int>, kept: seq<int>, out: seq<int>, pos: seq<int>)
    requires |out| < |kept| && (Embeds(kept, full, pos) ==> NotLater(kept, out, |full|, pos))
    ensures !Embeds(kept, full, pos)
  {}

  lemma MatchedAll(full: seq<int>, kept: seq<int>, out: seq<int>)
    requires Matched(full, kept, |full|, out) && |out| == |kept|
    ensures Embeds(kept, full, out)
  {}

  // ---- _group_runs

  /** An inclusive interval of positions. */
  datatype Run = Run(a: int, b: int)

  function Range(r: Run): seq<int> { if r.b < r.a then [] else seq(r.b - r.a + 1, i => r.a + i) }

  function Flatten(runs: seq<Run>): seq<int> { if runs == [] then [] else Range(runs[0]) + Flatten(runs[1..]) }

  lemma {:induction false} FlattenAppend(rs: seq<Run>, r: Run)
    ensures Flatten(rs + [r]) == Flatten(rs) + Range(r)
  {
    if rs == [] {
      assert rs + [r] == [r] && [r][1..] == [];
    } else {
      assert (rs + [r])[1..] == rs[1..] + [r];
      FlattenAppend(rs[1..], r);
    }
  }

  lemma FlattenNothing()
    ensures Flatten([]) == []
  {}

  lemma RangeExtend(r: Run)
    requires r.a <= r.b
    ensures Range(Run(r.a, r.b + 1)) == Range(r) + [r.b + 1]
    ensures Range(Run(r.a, r.a)) == [r.a]
  {}

  ghost predicate Forward(runs: seq<Run>) { forall i :: 0 <= i < |runs| ==> runs[i].a <= runs[i].b }

  /** No two neighbouring runs could have been one. */
  ghost predicate Maximal(runs: seq<Run>) { forall i :: 0 < i < |runs| ==> runs[i].a != runs[i - 1].b + 1 }

  lemma NoRuns()
    ensures Flatten([]) == [] && Forward([]) && Maximal([])
  {}

  lemma RunsAppend(runs: seq<Run>, r: Run)
    requires Maximal(runs) && Forward(runs) && r.a <= r.b && (runs != [] ==> r.a != runs[|runs| - 1].b + 1)
    ensures Maximal(runs + [r]) && Forward(runs + [r])
    ensures Flatten(runs + [r]) == Flatten(runs) + Range(r)
  {
    hide Flatten, Range;
    FlattenAppend(runs, r);
    var more := runs + [r];
    forall i | 0 <= i < |more| ensures more[i].a <= more[i].b { assert i < |runs| ==> more[i] == runs[i]; }
    forall i | 0 < i < |more| ensures more[i - 1].b + 1 != more[i].a {
      assert more[i - 1] == runs[i - 1];
      assert i < |runs| ==> more[i] == runs[i];
    }
  }

  /** The runs concatenate back to the index list and are maximal. */
  method GroupRuns(idxs: seq<int>) returns (runs: seq<Run>)
    ensures Flatten(runs) == idxs && Forward(runs) && Maximal(runs)
  {
    hide Flatten, Range, Forward, Maximal;
    runs := [];
    NoRuns();
    if idxs == [] {
      return;
    }
    var cur := Run(idxs[0], idxs[0]);
    RangeExtend(cur);
    assert idxs[..1] == [idxs[0]] && [] + [idxs[0]] == [idxs[0]];
    for k := 1 to |idxs|
      invariant Flatten(runs) + Range(cur) == idxs[..k]
      invariant Forward(runs) && Maximal(runs) && cur.a <= cur.b
      invariant runs != [] ==> cur.a != runs[|runs| - 1].b + 1
    {
      var x := idxs[k];
      assert idxs[..k + 1] == idxs[..k] + [x];
      if x == cur.b + 1 {
        RangeExtend(cur);
        Seqs.Assoc(Flatten(runs), Range(cur), [x]);
        cur := Run(cur.a, x);
      } else {
        RunsAppend(runs, cur);
        RangeExtend(Run(x, x));
        runs := runs + [cur];
        cur := Run(x, x);
      }
    }
    RunsAppend(runs, cur);
    runs := runs + [cur];
    assert idxs[..|idxs|] == idxs;
  }

  // ---- _expand_run_to_word_boundaries

  const MAX_EXTEND: nat := 24

  predicate StartsBlank(s: string) {
    s != "" && (s[0] == ' ' || s[0] == '\n' || s[0] == '\t' || s[0] == '\r')
  }

  /** e is r widened on each side over tokens without leading whitespace, stopping at a text edge, at a whitespace
      boundary or after `limit` steps, and at none of these earlier. */
  ghost predicate IsExpansion(texts: seq<string>, limit: nat, r: Run, e: Run) {
    && 0 <= e.a <= r.a <= r.b <= e.b < |texts|
    && r.a - e.a <= limit && e.b - r.b <= limit
    && (forall i :: e.a < i <= r.a ==> !StartsBlank(texts[i]))
    && (forall i :: r.b < i <= e.b ==> !StartsBlank(texts[i]))
    && (e.a == 0 || StartsBlank(texts[e.a]) || r.a - e.a == limit)
    && (e.b + 1 == |texts| || StartsBlank(texts[e.b + 1]) || e.b - r.b == limit)
  }

  /** The token texts, decoded on demand and remembered. */
  class TextCache {
    const ids: seq<int>
    const decode: int -> string
    var cache: map<int, string>

    ghost predicate Valid()
      reads this
    {
      forall i :: i in cache ==> 0 <= i < |ids| && cache[i] == decode(ids[i])
    }

    /** The text of every token, as if all had been decoded. */
    ghost function Texts(): (t: seq<string>)
      ensures |t| == |ids|
    {
      seq(|ids|, i requires 0 <= i < |ids| => decode(ids[i]))
    }

    constructor (ids: seq<int>, decode: int -> string)
      ensures Valid() && this.ids == ids && this.decode == decode && cache == map[]
    {
      this.ids, this.decode, this.cache := ids, decode, map[];
    }

    method Text(i: int) returns (s: string)
      requires Valid() && 0 <= i < |ids|
      modifies this
      ensures Valid() && s == Texts()[i]
      ensures cache.Keys == old(cache.Keys) + {i}
    {
      if i !in cache {
        cache := cache[i := decode(ids[i])];
      }
      s := cache[i];
    }

    /** Extend left until the first token of the span begins with whitespace. */
    method ExpandLeft(r0: nat, limit: nat) returns (a: nat)
      requires Valid() && r0 < |ids|
      modifies this
      ensures Valid() && a <= r0 && r0 - a <= limit
      ensures forall i :: a < i <= r0 ==> !StartsBlank(Texts()[i])
      ensures a == 0 || StartsBlank(Texts()[a]) || r0 - a == limit
    {
      a := r0;
      var steps := 0;
      while a > 0 && steps < limit
        invariant Valid() && a <= r0 && steps == r0 - a <= limit
        invariant forall i :: a < i <= r0 ==> !StartsBlank(Texts()[i])
      {
        var cur := Text(a);
        if cur != "" && cur[0] in " \n\t\r" {
          break;
        }
        a, steps := a - 1, steps + 1;
      }
    }

    /** Extend right until the next token begins with whitespace. */
    method ExpandRight(r1: nat, limit: nat) returns (b: nat)
      requires Valid() && r1 < |ids|
      modifies this
      ensures Valid() && r1 <= b < |ids| && b - r1 <= limit
      ensures forall i :: r1 < i <= b ==> !StartsBlank(Texts()[i])
      ensures b + 1 == |ids| || StartsBlank(Texts()[b + 1]) || b - r1 == limit
    {
      b := r1;
      var steps := 0;
      while b + 1 < |ids| && steps < limit
        invariant Valid() && r1 <= b < |ids| && steps == b - r1 <= limit
        invariant forall i :: r1 < i <= b ==> !StartsBlank(Texts()[i])
      {
        var nxt := Text(b + 1);
        if nxt != "" && nxt[0] in " \n\t\r" {
          break;
        }
        b, steps := b + 1, steps + 1;
      }
    }

    method Expand(r: Run, limit: nat) returns (e: Run)
      requires Valid() && 0 <= r.a <= r.b < |ids|
      modifies this
      ensures Valid() && IsExpansion(Texts(), limit, r, e)
    {
      hide StartsBlank, Valid, Texts;
      var a := ExpandLeft(r.a, limit);
      var b := ExpandRight(r.b, limit);
      e := Run(a, b);
    }
  }

  /** The conditions leave no choice: each run has exactly one expansion. */
  lemma ExpansionUnique(texts: seq<string>, limit: nat, r: Run, e: Run, f: Run)
    requires IsExpansion(texts, limit, r, e) && IsExpansion(texts, limit, r, f)
    ensures e == f
  {}

  // ---- _merge_overlapping

  predicate Before(x: Run, y: Run) { x.a < y.a || (x.a == y.a && x.b <= y.b) }

  ghost predicate Sorted(rs: seq<Run>) { forall i, j :: 0 <= i < j < |rs| ==> Before(rs[i], rs[j]) }

  function Insert(r: Run, rs: seq<Run>): seq<Run> {
    if rs == [] || Before(r, rs[0]) then [r] + rs else [rs[0]] + Insert(r, rs[1..])
  }

  /** Python's sorted on pairs. */
  function SortRuns(rs: seq<Run>): seq<Run> { if rs == [] then [] else Insert(rs[0], SortRuns(rs[1..])) }

  /** The number of positions in the runs, counted with repetition. */
  function Total(rs: seq<Run>): int { if rs == [] then 0 else rs[0].b - rs[0].a + 1 + Total(rs[1..]) }

  lemma {:induction false} InsertMembers(r: Run, rs: seq<Run>)
    ensures multiset(Insert(r, rs)) == multiset(rs) + multiset{r}
    ensures Total(Insert(r, rs)) == Total(rs) + r.b - r.a + 1
  {
    hide Before;
    if rs == [] || Before(r, rs[0]) {
      assert ([r] + rs)[1..] == rs;
    } else {
      InsertMembers(r, rs[1..]);
      var t := Insert(r, rs[1..]);
      assert rs == [rs[0]] + rs[1..];
      assert ([rs[0]] + t)[1..] == t;
    }
  }

  lemma {:induction false} InsertSorted(r: Run, rs: seq<Run>)
    requires Sorted(rs)
    ensures Sorted(Insert(r, rs))
  {
    hide Before;
    if rs == [] {
    } else if Before(r, rs[0]) {
      forall i | 0 <= i < |rs| ensures Before(r, rs[i]) {
        if i > 0 { BeforeTransitive(r, rs[0], rs[i]); }
      }
      SortedCons(r, rs);
    } else {
      BeforeTotal(r, rs[0]);
      InsertSorted(r, rs[1..]);
      InsertMembers(r, rs[1..]);
      var t := Insert(r, rs[1..]);
      forall i | 0 <= i < |t| ensures Before(rs[0], t[i]) {
        assert t[i] in multiset(t);
        if t[i] != r {
          assert t[i] in rs[1..];
          var k :| 0 <= k < |rs[1..]| && rs[1..][k] == t[i];
          assert rs[k + 1] == t[i];
        }
      }
      SortedCons(rs[0], t);
    }
  }

  lemma BeforeTransitive(x: Run, y: Run, z: Run)
    requires Before(x, y) && Before(y, z)
    ensures Before(x, z)
  {}

  lemma BeforeTotal(x: Run, y: Run)
    ensures Before(x, y) || Before(y, x)
  {}

  lemma SortedCons(x: Run, rs: seq<Run>)
    requires Sorted(rs) && forall i :: 0 <= i < |rs| ==> Before(x, rs[i])
    ensures Sorted([x] + rs)
  {
    hide Before;
  }

  lemma NothingSorted()
    ensures Sorted([])
  {}

  lemma {:induction false} SortFacts(rs: seq<Run>)
    ensures Sorted(SortRuns(rs)) && multiset(SortRuns(rs)) == multiset(rs) && Total(SortRuns(rs)) == Total(rs)
  {
    hide Sorted, Insert;
    if rs != [] {
      SortFacts(rs[1..]);
      InsertSorted(rs[0], SortRuns(rs[1..]));
      InsertMembers(rs[0], SortRuns(rs[1..]));
      assert rs == [rs[0]] + rs[1..];
    } else {
      assert Sorted([]) by { NothingSorted(); }
    }
  }

  ghost predicate Covers(rs: seq<Run>, x: int) { exists i :: 0 <= i < |rs| && rs[i].a <= x <= rs[i].b }

  /** Runs in order with at least one uncovered position between neighbours. */
  ghost predicate Separated(rs: seq<Run>) { forall i, j :: 0 <= i < j < |rs| ==> rs[i].b + 1 < rs[j].a }

  /** Merging covers exactly the positions of its input, in separated runs, without adding positions. */
  method MergeOverlapping(runs: seq<Run>) returns (out: seq<Run>)
    requires Forward(runs)
    ensures Forward(out) && Separated(out)
    ensures forall x :: Covers(out, x) <==> Covers(runs, x)
    ensures Total(out) <= Total(runs)
  {
    hide Covers, Total, Separated, SortRuns;
    if runs == [] {
      NothingMerged();
      return [];
    }
    var rs := SortRuns(runs);
    SortedForm(runs);
    out := [rs[0]];
    assert rs[..1] == [rs[0]];
    OneSeparated(rs[0]);
    for k := 1 to |rs|
      invariant out != [] && Forward(out) && Separated(out)
      invariant forall i :: k <= i < |rs| ==> out[|out| - 1].a <= rs[i].a
      invariant forall x :: Covers(out, x) <==> Covers(rs[..k], x)
      invariant Total(out) <= Total(rs[..k])
    {
      var prev, r := out[|out| - 1], rs[k];
      assert rs[..k + 1] == rs[..k] + [r];
      TotalAppend(rs[..k], r);
      CoversAppend(rs[..k], r);
      MergeIntoFacts(out, r);
      if r.a <= prev.b + 1 {
        out := out[..|out| - 1] + [Run(prev.a, if prev.b < r.b then r.b else prev.b)];
      } else {
        out := out + [r];
      }
    }
    assert rs[..|rs|] == rs;
  }

  /** One step of the merge: replace the last run, or append. */
  function MergeInto(out: seq<Run>, r: Run): seq<Run>
    requires out != []
  {
    var prev := out[|out| - 1];
    if r.a <= prev.b + 1 then out[..|out| - 1] + [Run(prev.a, if prev.b < r.b then r.b else prev.b)] else out + [r]
  }

  lemma NothingMerged()
    ensures Separated([]) && Forward([]) && Total([]) == 0
  {}

  lemma OneSeparated(r: Run)
    ensures Separated([r])
  {}

  lemma MergeIntoFacts(out: seq<Run>, r: Run)
    requires out != [] && Forward(out) && Separated(out) && r.a <= r.b && out[|out| - 1].a <= r.a
    ensures var m := MergeInto(out, r);
      && Forward(m) && Separated(m) && m[|m| - 1].a <= r.a
      && Total(m) <= Total(out) + r.b - r.a + 1
      && forall x :: Covers(m, x) <==> Covers(out, x) || r.a <= x <= r.b
  {
    hide Covers, Total;
    var prev := out[|out| - 1];
    var front := out[..|out| - 1];
    assert out == front + [prev];
    TotalAppend(front, prev);
    CoversAppend(front, prev);
    if r.a <= prev.b + 1 {
      var wide := Run(prev.a, if prev.b < r.b then r.b else prev.b);
      TotalAppend(front, wide);
      CoversAppend(front, wide);
    } else {
      TotalAppend(out, r);
      CoversAppend(out, r);
    }
  }

  /** All the merge needs to know about sorted: same runs, starts in order. */
  lemma SortedForm(runs: seq<Run>)
    ensures var rs := SortRuns(runs);
      && |rs| == |runs| && (Forward(runs) ==> Forward(rs)) && Total(rs) == Total(runs)
      && (forall x :: Covers(rs, x) <==> Covers(runs, x))
      && forall i, j :: 0 <= i <= j < |rs| ==> rs[i].a <= rs[j].a
  {
    SortFacts(runs);
    SameMembers(runs, SortRuns(runs));
  }

  lemma SameMembers(runs: seq<Run>, rs: seq<Run>)
    requires multiset(rs) == multiset(runs)
    ensures |rs| == |runs| && (Forward(runs) ==> Forward(rs))
    ensures forall x :: Covers(rs, x) <==> Covers(runs, x)
  {
    assert |multiset(rs)| == |rs| && |multiset(runs)| == |runs|;
    forall i | 0 <= i < |rs| ensures rs[i] in runs { assert rs[i] in multiset(rs); }
    forall i | 0 <= i < |runs| ensures runs[i] in rs { assert runs[i] in multiset(runs); }
  }

  lemma {:induction false} TotalAppend(rs: seq<Run>, r: Run)
    ensures Total(rs + [r]) == Total(rs) + r.b - r.a + 1
  {
    if rs == [] {
      assert rs + [r] == [r] && [r][1..] == [];
      assert Total([r]) == r.b - r.a + 1 + Total([]);
    } else {
      TotalAppend(rs[1..], r);
      assert (rs + [r])[1..] == rs[1..] + [r];
    }
  }

  lemma CoversAppend(rs: seq<Run>, r: Run)
    ensures forall x :: Covers(rs + [r], x) <==> Covers(rs, x) || r.a <= x <= r.b
  {
    var s := rs + [r];
    forall x ensures Covers(s, x) <==> Covers(rs, x) || r.a <= x <= r.b {
      if Covers(rs, x) {
        var i :| 0 <= i < |rs| && rs[i].a <= x <= rs[i].b;
        assert s[i].a <= x <= s[i].b;
      } else if r.a <= x <= r.b {
        assert s[|rs|].a <= x <= s[|rs|].b;
      }
    }
  }

  // ---- the whole pipeline

  lemma {:induction false} FlattenSeparated(rs: seq<Run>)
    requires Forward(rs) && Separated(rs)
    ensures Increasing(Flatten(rs)) && |Flatten(rs)| == Total(rs)
    ensures rs != [] ==> forall k :: 0 <= k < |Flatten(rs)| ==> rs[0].a <= Flatten(rs)[k]
  {
    if rs != [] {
      FlattenSeparated(rs[1..]);
      var rest := Flatten(rs[1..]);
      forall k | 0 <= k < |rest| ensures rs[0].b < rest[k] {
        assert rs[1..] != [];
        assert rs[1..][0] == rs[1];
      }
    }
  }

  lemma {:induction false} FlattenMembers(rs: seq<Run>, x: int)
    ensures x in Flatten(rs) <==> Covers(rs, x)
  {
    if rs != [] {
      FlattenMembers(rs[1..], x);
      RangeMembers(rs[0], x);
      if Covers(rs[1..], x) {
        var i :| 0 <= i < |rs[1..]| && rs[1..][i].a <= x <= rs[1..][i].b;
        assert rs[i + 1].a <= x <= rs[i + 1].b;
      }
      if Covers(rs, x) {
        var i :| 0 <= i < |rs| && rs[i].a <= x <= rs[i].b;
        if i > 0 { assert rs[1..][i - 1].a <= x <= rs[1..][i - 1].b; }
      }
    }
  }

  lemma RangeMembers(r: Run, x: int)
    ensures x in Range(r) <==> r.a <= x <= r.b
  {
    if r.a <= x <= r.b { assert Range(r)[x - r.a] == x; }
  }

  /** An increasing list inside another increasing list is a subsequence of it. */
  lemma Ranks(ks: seq<int>, ps: seq<int>) returns (rank: seq<int>)
    requires Increasing(ks) && Increasing(ps) && forall k :: 0 <= k < |ks| ==> ks[k] in ps
    ensures Embeds(ks, ps, rank)
  {
    rank := [];
    for k := 0 to |ks|
      invariant |rank| == k
      invariant forall i :: 0 <= i < k ==> 0 <= rank[i] < |ps| && ps[rank[i]] == ks[i]
    {
      var i :| 0 <= i < |ps| && ps[i] == ks[k];
      rank := rank + [i];
    }
    forall i, j | 0 <= i < j < |rank| ensures rank[i] < rank[j] {
      assert ks[i] < ks[j];
    }
  }

  function Select(full: seq<int>, pos: seq<int>): (r: seq<int>)
    requires forall k :: 0 <= k < |pos| ==> 0 <= pos[k] < |full|
    ensures |r| == |pos|
  {
    seq(|pos|, k requires 0 <= k < |pos| => full[pos[k]])
  }

  function TextsOf(full: seq<int>, decode: int -> string): (t: seq<string>)
    ensures |t| == |full|
  {
    seq(|full|, i requires 0 <= i < |full| => decode(full[i]))
  }

  /** The emitted tokens and where they came from: the matched runs and their widened forms. */
  datatype Recovered = Recovered(tokens: seq<int>, positions: seq<int>, runs: seq<Run>, wide: seq<Run>)

  /** What a caller of the pipeline may rely on. */
  ghost predicate FaithfulRecovery(full: seq<int>, kept: seq<int>, texts: seq<string>, r: Recovered) {
    // the runs are the maximal runs of the earliest embedding of the kept tokens
    && Embeds(kept, full, Flatten(r.runs))
    && (forall pos, k :: Embeds(kept, full, pos) && 0 <= k < |kept| ==> Flatten(r.runs)[k] <= pos[k])
    && Forward(r.runs) && Maximal(r.runs)
    // the emitted tokens are the full tokens at increasing positions: a subsequence, no position twice
    && Embeds(r.tokens, full, r.positions)
    // at exactly the positions of the runs widened to word boundaries
    && Expanded(texts, r.runs, r.wide)
    && (forall x :: x in r.positions <==> Covers(r.wide, x))
    // so they contain the kept tokens in order
    && (exists rank :: Embeds(kept, r.tokens, rank))
    // and at most 24 extra tokens on each side of every run
    && |r.tokens| <= |kept| + 48 * |r.runs| && |r.runs| <= |kept|
  }

  /** Every run was widened to its expansion. */
  ghost predicate Expanded(texts: seq<string>, runs: seq<Run>, wide: seq<Run>) {
    |wide| == |runs| && forall i :: 0 <= i < |runs| ==> IsExpansion(texts, 24, runs[i], wide[i])
  }

  lemma RunInside(runs: seq<Run>, full: seq<int>, ks: seq<int>, i: nat)
    requires Flatten(runs) == ks && Forward(runs) && i < |runs|
    requires forall k :: 0 <= k < |ks| ==> 0 <= ks[k] < |full|
    ensures 0 <= runs[i].a <= runs[i].b < |full|
  {
    FlattenMembers(runs, runs[i].a);
    FlattenMembers(runs, runs[i].b);
    assert Covers(runs, runs[i].a) && Covers(runs, runs[i].b);
    assert runs[i].a in ks && runs[i].b in ks;
  }

  /** Widening adds at most 24 positions per side and run. */
  lemma ExpansionBounds(texts: seq<string>, r: Run, e: Run)
    requires IsExpansion(texts, 24, r, e)
    ensures e.a <= e.b && e.b - e.a <= r.b - r.a + 48
  {}

  lemma {:induction false} ExpandedTotal(texts: seq<string>, runs: seq<Run>, wide: seq<Run>)
    requires Expanded(texts, runs, wide)
    ensures Total(wide) <= Total(runs) + 48 * |runs| && Forward(wide)
  {
    hide IsExpansion, Total;
    forall i | 0 <= i < |wide| ensures wide[i].a <= wide[i].b { ExpansionBounds(texts, runs[i], wide[i]); }
    forall i | 0 <= i < |wide| ensures wide[i].b - wide[i].a <= runs[i].b - runs[i].a + 48 {
      ExpansionBounds(texts, runs[i], wide[i]);
    }
    TotalBound(runs, wide);
  }

  lemma {:induction false} TotalBound(runs: seq<Run>, wide: seq<Run>)
    requires |wide| == |runs|
    requires forall i :: 0 <= i < |runs| ==> wide[i].b - wide[i].a <= runs[i].b - runs[i].a + 48
    ensures Total(wide) <= Total(runs) + 48 * |runs|
  {
    if runs != [] { TotalBound(runs[1..], wide[1..]); }
  }

  lemma {:induction false} TotalOfRuns(runs: seq<Run>)
    requires Forward(runs)
    ensures |Flatten(runs)| == Total(runs) && |runs| <= Total(runs)
  {
    if runs != [] { TotalOfRuns(runs[1..]); }
  }

  lemma ExpandedCovers(texts: seq<string>, runs: seq<Run>, wide: seq<Run>, x: int)
    requires Expanded(texts, runs, wide)
    ensures Covers(runs, x) ==> Covers(wide, x)
    ensures Covers(wide, x) ==> 0 <= x < |texts|
  {
    if Covers(runs, x) {
      var i :| 0 <= i < |runs| && runs[i].a <= x <= runs[i].b;
      assert IsExpansion(texts, 24, runs[i], wide[i]);
      assert wide[i].a <= x <= wide[i].b;
    }
    if Covers(wide, x) {
      var i :| 0 <= i < |wide| && wide[i].a <= x <= wide[i].b;
      assert IsExpansion(texts, 24, runs[i], wide[i]);
    }
  }

  /** Emitted positions are text positions, and include every kept one. */
  lemma PositionsFit(texts: seq<string>, runs: seq<Run>, wide: seq<Run>, merged: seq<Run>)
    requires Expanded(texts, runs, wide) && forall x :: Covers(merged, x) <==> Covers(wide, x)
    ensures forall k :: 0 <= k < |Flatten(merged)| ==> 0 <= Flatten(merged)[k] < |texts|
    ensures forall k :: 0 <= k < |Flatten(runs)| ==> Flatten(runs)[k] in Flatten(merged)
  {
    hide Covers, Flatten, Expanded;
    var ps, ks := Flatten(merged), Flatten(runs);
    forall k | 0 <= k < |ps| ensures 0 <= ps[k] < |texts| {
      FlattenMembers(merged, ps[k]);
      ExpandedCovers(texts, runs, wide, ps[k]);
    }
    forall k | 0 <= k < |ks| ensures ks[k] in ps {
      FlattenMembers(runs, ks[k]);
      ExpandedCovers(texts, runs, wide, ks[k]);
      FlattenMembers(merged, ks[k]);
    }
  }

  lemma PipelineFaithful(full: seq<int>, kept: seq<int>, texts: seq<string>,
                         runs: seq<Run>, wide: seq<Run>, merged: seq<Run>)
    requires Embeds(kept, full, Flatten(runs)) && Forward(runs) && |texts| == |full| && Expanded(texts, runs, wide)
    requires Forward(merged) && Separated(merged) && Total(merged) <= Total(wide)
    requires forall x :: Covers(merged, x) <==> Covers(wide, x)
    ensures forall k :: 0 <= k < |Flatten(merged)| ==> 0 <= Flatten(merged)[k] < |full|
    ensures forall x :: x in Flatten(merged) <==> Covers(wide, x)
    ensures Embeds(Select(full, Flatten(merged)), full, Flatten(merged))
    ensures exists rank :: Embeds(kept, Select(full, Flatten(merged)), rank)
    ensures |Flatten(merged)| <= |kept| + 48 * |runs| && |runs| <= |kept|
  {
    hide Covers, Expanded, Flatten, Total, Separated, Forward;
    var ks, ps := Flatten(runs), Flatten(merged);
    PositionsFit(texts, runs, wide, merged);
    FlattenSeparated(merged);
    var rank := Ranks(ks, ps);
    assert Embeds(kept, Select(full, ps), rank);
    ExpandedTotal(texts, runs, wide);
    TotalOfRuns(runs);
    forall x ensures x in ps <==> Covers(wide, x) { FlattenMembers(merged, x); }
  }

  /** One token's own text. */
  function OneText(decode: seq<int> -> string): int -> string { x => decode([x]) }

  datatype Recoded = Recoded(recovered: Recovered, text: string, ids: seq<int>)

  /** cross_tok_compressed: the recovered drafter tokens are decoded at once and encoded by the target's tokenizer. */
  method CrossTokCompressed(full: seq<int>, kept: seq<int>, decode: seq<int> -> string, encode: string -> seq<int>)
    returns (r: Result<Recoded>)
    ensures r.Ok? <==> exists pos :: Embeds(kept, full, pos)
    ensures r.Ok? ==> FaithfulRecovery(full, kept, TextsOf(full, OneText(decode)), r.value.recovered)
    ensures r.Ok? ==> r.value.text == decode(r.value.recovered.tokens) && r.value.ids == encode(r.value.text)
  {
    hide FaithfulRecovery, Embeds;
    var found := RecoverTokens(full, kept, OneText(decode));
    if found.NotASubsequence? {
      return NotASubsequence;
    }
    var text := decode(found.value.tokens);
    return Ok(Recoded(found.value, text, encode(text)));
  }

  function Glue(texts: seq<string>): string { if texts == [] then "" else texts[0] + Glue(texts[1..]) }

  /** With a tokenizer that decodes piece by piece, the text is the emitted tokens' own texts end to end. */
  lemma {:induction false} GluedText(decode: seq<int> -> string, tokens: seq<int>)
    requires decode([]) == "" && forall a, b :: decode(a + b) == decode(a) + decode(b)
    ensures decode(tokens) == Glue(TextsOf(tokens, OneText(decode)))
  {
    if tokens != [] {
      var texts := TextsOf(tokens, OneText(decode));
      GluedText(decode, tokens[1..]);
      assert texts[1..] == TextsOf(tokens[1..], OneText(decode));
      assert tokens == [tokens[0]] + tokens[1..];
    }
  }

  /** Matching, grouping, widening and merging: for any token list and any kept list it succeeds exactly when the kept
      list is a subsequence, and then the recovery is faithful. */
  method RecoverTokens(full: seq<int>, kept: seq<int>, decode: int -> string) returns (r: Result<Recovered>)
    ensures r.Ok? <==> exists pos :: Embeds(kept, full, pos)
    ensures r.Ok? ==> FaithfulRecovery(full, kept, TextsOf(full, decode), r.value)
  {
    hide Flatten, Total, Covers, Separated, IsExpansion, Increasing, Maximal;
    var matched := RecoverKeptIndices(full, kept);
    if matched.NotASubsequence? {
      return NotASubsequence;
    }
    var runs := GroupRuns(matched.value);
    var wide := ExpandAll(full, runs, matched.value, decode);
    ghost var texts := TextsOf(full, decode);
    ExpandedTotal(texts, runs, wide);
    var merged := MergeOverlapping(wide);
    PipelineFaithful(full, kept, texts, runs, wide, merged);
    var tokens := Emit(full, merged);
    return Ok(Recovered(tokens, Flatten(merged), runs, wide));
  }

  method ExpandAll(full: seq<int>, runs: seq<Run>, ghost ks: seq<int>, decode: int -> string)
    returns (wide: seq<Run>)
    requires Flatten(runs) == ks && Forward(runs) && forall k :: 0 <= k < |ks| ==> 0 <= ks[k] < |full|
    ensures Expanded(TextsOf(full, decode), runs, wide)
  {
    hide IsExpansion, Flatten;
    var cache := new TextCache(full, decode);
    ghost var texts := TextsOf(full, decode);
    assert cache.Texts() == texts;
    wide := [];
    for k := 0 to |runs|
      invariant cache.Valid() && |wide| == k
      invariant forall i :: 0 <= i < k ==> IsExpansion(texts, 24, runs[i], wide[i])
    {
      RunInside(runs, full, ks, k);
      var e := cache.Expand(runs[k], MAX_EXTEND);
      wide := wide + [e];
    }
  }

  method Emit(full: seq<int>, merged: seq<Run>) returns (tokens: seq<int>)
    requires Forward(merged)
    requires forall k :: 0 <= k < |Flatten(merged)| ==> 0 <= Flatten(merged)[k] < |full|
    ensures tokens == Select(full, Flatten(merged))
  {
    hide Flatten, Range;
    tokens := [];
    FlattenNothing();
    ghost var done: seq<int> := [];
    for k := 0 to |merged|
      invariant done == Flatten(merged[..k])
      invariant (forall i :: 0 <= i < |done| ==> 0 <= done[i] < |full|) && tokens == Select(full, done)
    {
      var r := merged[k];
      RunInside(merged, full, Flatten(merged), k);
      FlattenAppend(merged[..k], r);
      assert merged[..k + 1] == merged[..k] + [r];
      RangeSlice(full, r);
      SelectAppend(full, done, Range(r));
      tokens := tokens + full[r.a..r.b + 1];
      done := done + Range(r);
    }
    assert merged[..|merged|] == merged;
  }

  lemma RangeSlice(full: seq<int>, r: Run)
    requires 0 <= r.a <= r.b < |full|
    ensures forall i :: 0 <= i < |Range(r)| ==> 0 <= Range(r)[i] < |full|
    ensures Select(full, Range(r)) == full[r.a..r.b + 1]
  {}

  lemma SelectAppend(full: seq<int>, a: seq<int>, b: seq<int>)
    requires forall i :: 0 <= i < |a| ==> 0 <= a[i] < |full|
    requires forall i :: 0 <= i < |b| ==> 0 <= b[i] < |full|
    ensures forall i :: 0 <= i < |a + b| ==> 0 <= (a + b)[i] < |full|
    ensures Select(full, a + b) == Select(full, a) + Select(full, b)
  {}
}
