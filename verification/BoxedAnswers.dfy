/**
Boxed-answer extraction of harness/math_scoring.py: the last complete \boxed{...} of a text, with nested braces.
*/
module BoxedAnswers {
  import opened Wrappers
  import Seqs

  const OPENER: string := "\\boxed{"

  // ---- braces

  function Delta(c: char): int { if c == '{' then 1 else if c == '}' then -1 else 0 }

  /** Opening minus closing braces. */
  function Level(s: string): int { if s == "" then 0 else Level(s[..|s| - 1]) + Delta(s[|s| - 1]) }

  ghost predicate Balanced(s: string) {
    Level(s) == 0 && forall k :: 0 <= k <= |s| ==> Level(s[..k]) >= 0
  }

  lemma LevelStep(s: string, k: nat)
    requires k < |s|
    ensures Level(s[..k + 1]) == Level(s[..k]) + Delta(s[k])
  {
    assert s[..k + 1][..k] == s[..k];
  }

  /** The inner loop of the scan, from position j at the given depth. */
  function Scan(text: string, j: nat, depth: nat): (r: (nat, nat))
    requires j <= |text|
    ensures j <= r.0 <= |text| && (r.1 != 0 ==> r.0 == |text|)
    ensures depth > 0 && r.1 == 0 ==> r.0 > j
    decreases |text| - j
  {
    if j < |text| && depth > 0 then Scan(text, j + 1, depth + Delta(text[j])) else (j, depth)
  }

  /** Along a balanced string the depth stays positive, so the scan passes it and stops at the brace behind it. */
  lemma {:induction false} ScanAlong(text: string, start: nat, s: string, k: nat)
    requires Balanced(s) && k <= |s| && start + |s| < |text|
    requires text[start..start + |s|] == s && text[start + |s|] == '}'
    ensures Level(s[..k]) >= 0
    ensures Scan(text, start + k, 1 + Level(s[..k])) == (start + |s| + 1, 0)
    decreases |s| - k
  {
    hide Level;
    assert Level(s[..k]) >= 0;
    if k < |s| {
      LevelStep(s, k);
      assert text[start + k] == s[k];
      ScanAlong(text, start, s, k + 1);
    } else {
      assert s[..k] == s;
      assert Level(s) == 0;
      assert Scan(text, start + |s| + 1, 0) == (start + |s| + 1, 0);
    }
  }

  /** Conversely, when the scan reaches depth 0 it has just passed a balanced string and its closing brace. */
  lemma {:induction false} ScanFinds(text: string, start: nat, j: nat)
    requires start <= j <= |text|
    requires forall k :: 0 <= k <= j - start ==> Level(text[start..j][..k]) >= 0
    ensures Level(text[start..j]) >= 0
    ensures var (e, d) := Scan(text, j, 1 + Level(text[start..j]));
      d == 0 ==> e >= start + 1 && text[e - 1] == '}' && Balanced(text[start..e - 1])
    decreases |text| - j
  {
    hide Level;
    var s := text[start..j];
    assert s[..j - start] == s;
    if j < |text| {
      var s' := text[start..j + 1];
      LevelStep(s', j - start);
      assert s'[..j - start] == s && s'[..j + 1 - start] == s';
      if Level(s') >= 0 {
        forall k | 0 <= k <= j + 1 - start ensures Level(s'[..k]) >= 0 {
          if k <= j - start { assert s'[..k] == s[..k]; }
        }
        ScanFinds(text, start, j + 1);
      } else {
        assert Level(s) == 0 && text[j] == '}';
        assert Scan(text, j + 1, 0) == (j + 1, 0);
      }
    }
  }

  /** The scan closes a box exactly when some balanced content followed by a closing brace starts there, and then it
      stops behind that brace. */
  lemma ScanMeaning(text: string, start: nat, e: nat)
    requires start <= e < |text|
    ensures Scan(text, start, 1) == (e + 1, 0) <==> text[e] == '}' && Balanced(text[start..e])
  {
    assert text[start..start] == "" && Level("") == 0;
    if text[e] == '}' && Balanced(text[start..e]) {
      ScanAlong(text, start, text[start..e], 0);
      assert text[start..e][..0] == "";
    }
    if Scan(text, start, 1) == (e + 1, 0) {
      ScanFinds(text, start, start);
    }
  }

  // ---- openers

  predicate OpensAt(text: string, i: nat) { i + 7 <= |text| && text[i..i + 7] == "\\boxed{" }

  /** text.find(opener, from). */
  function Find(text: string, from: nat): (r: Option<nat>)
    ensures r.Some? ==> from <= r.value && OpensAt(text, r.value)
    ensures r.Some? ==> forall i :: from <= i < r.value ==> !OpensAt(text, i)
    ensures r.None? ==> forall i :: from <= i ==> !OpensAt(text, i)
    decreases if from <= |text| then |text| - from + 1 else 0
  {
    if from > |text| then None else if OpensAt(text, from) then Some(from) else Find(text, from + 1)
  }

  // ---- the whole scan

  function StripLeft(s: string, space: char -> bool): string {
    if s != "" && space(s[0]) then StripLeft(s[1..], space) else s
  }

  function StripRight(s: string, space: char -> bool): string {
    if s != "" && space(s[|s| - 1]) then StripRight(s[..|s| - 1], space) else s
  }

  /** str.strip() for the given whitespace test. */
  function Strip(s: string, space: char -> bool): string { StripRight(StripLeft(s, space), space) }

  /** t is s without its longest blank beginning and end. */
  ghost predicate IsStripped(s: string, space: char -> bool, t: string, i: nat, j: nat) {
    && i <= j <= |s| && t == s[i..j]
    && (forall k :: 0 <= k < i ==> space(s[k])) && (forall k :: j <= k < |s| ==> space(s[k]))
    && (i < j ==> !space(s[i]) && !space(s[j - 1]))
  }

  lemma StripMeaning(s: string, space: char -> bool)
    ensures exists i: nat, j: nat :: IsStripped(s, space, Strip(s, space), i, j)
  {
    var i := LeftCut(s, space);
    var t := StripLeft(s, space);
    var n := RightCut(t, space);
    assert forall k :: 0 <= k < |t| ==> s[i + k] == t[k];
    assert s[i..i + n] == t[..n];
    assert IsStripped(s, space, Strip(s, space), i, i + n);
  }

  lemma {:induction false} LeftCut(s: string, space: char -> bool) returns (i: nat)
    ensures i <= |s| && StripLeft(s, space) == s[i..] && (i < |s| ==> !space(s[i]))
    ensures forall k :: 0 <= k < i ==> space(s[k])
  {
    if s != "" && space(s[0]) {
      i := LeftCut(s[1..], space);
      assert forall k :: 1 <= k <= i ==> s[k] == s[1..][k - 1] || k == |s|;
      i := i + 1;
    } else {
      i := 0;
    }
  }

  lemma {:induction false} RightCut(s: string, space: char -> bool) returns (n: nat)
    ensures n <= |s| && StripRight(s, space) == s[..n] && (n > 0 ==> !space(s[n - 1]))
    ensures forall k :: n <= k < |s| ==> space(s[k])
  {
    if s != "" && space(s[|s| - 1]) {
      n := RightCut(s[..|s| - 1], space);
    } else {
      n := |s|;
    }
  }

  /** The contents of the complete boxes from position i on, in order. */
  function Boxes(text: string, i: nat, space: char -> bool): seq<string>
    requires i <= |text|
    decreases |text| - i
  {
    match Find(text, i)
    case None => []
    case Some(at) =>
      var start := at + |OPENER|;
      var (j, depth) := Scan(text, start, 1);
      (if depth == 0 then [Strip(text[start..j - 1], space)] else []) + Boxes(text, j, space)
  }

  function Last<T>(s: seq<T>): Option<T> { if s == [] then None else Some(s[|s| - 1]) }

  /** _extract_boxed. */
  method ExtractBoxed(text: string, space: char -> bool) returns (r: Option<string>)
    ensures r == Last(Boxes(text, 0, space))
    ensures var boxes := Boxes(text, 0, space);
      if boxes == [] then r == None else r == Some(boxes[|boxes| - 1])
  {
    hide Strip, OpensAt, Scan;
    var results: seq<string> := [];
    var i: nat := 0;
    while i < |text|
      invariant i <= |text| && Boxes(text, 0, space) == results + Boxes(text, i, space)
    {
      var idx := Find(text, i);
      if idx.None? {
        break;
      }
      OpenerInside(text, idx.value);
      var start := idx.value + |OPENER|;
      var j, depth := FindClose(text, start);
      if depth == 0 {
        results := results + [Strip(text[start..j - 1], space)];
      }
      i := j;
    }
    NothingLeft(text, i, space);
    assert results + [] == results;
    return Last(results);
  }

  /** The inner loop. */
  method FindClose(text: string, start: nat) returns (j: nat, depth: nat)
    requires start <= |text|
    ensures (j, depth) == Scan(text, start, 1)
  {
    j, depth := start, 1;
    while j < |text| && depth > 0
      invariant start <= j <= |text| && Scan(text, j, depth) == Scan(text, start, 1)
    {
      if text[j] == '{' {
        depth := depth + 1;
      } else if text[j] == '}' {
        depth := depth - 1;
      }
      j := j + 1;
    }
  }

  lemma OpenerInside(text: string, i: nat)
    requires OpensAt(text, i)
    ensures i + |OPENER| <= |text|
  {}

  lemma NothingLeft(text: string, i: nat, space: char -> bool)
    requires i <= |text| && (i == |text| || Find(text, i).None?)
    ensures Boxes(text, i, space) == []
  {}

  // ---- consequences

  /** An unclosed box hides everything after its opener. */
  lemma UnclosedBox(text: string, i: nat, space: char -> bool)
    requires i <= |text| && Find(text, i).Some? && Scan(text, Find(text, i).value + |OPENER|, 1).1 != 0
    ensures Boxes(text, i, space) == []
  {
    NothingLeft(text, |text|, space);
  }

  lemma NoOpenerInPlain(pre: string, rest: string, i: nat)
    requires i < |pre| && forall k :: 0 <= k ==> !OpensAt(pre, k)
    requires rest == "" || rest[0] == '\\' || rest[0] == '}'
    ensures !OpensAt(pre + rest, i)
  {
    var text := pre + rest;
    if i + |OPENER| <= |pre| {
      assert pre[i..i + |OPENER|] == text[i..i + |OPENER|];
      assert !OpensAt(pre, i);
    } else if i + |OPENER| <= |text| {
      var k := |pre| - i;
      assert text[i..i + |OPENER|][k] == rest[0] && OPENER[k] != rest[0];
    }
  }

  lemma ShiftedOpener(pre: string, rest: string, i: nat)
    ensures OpensAt(pre + rest, |pre| + i) <==> OpensAt(rest, i)
  {
    var text := pre + rest;
    if i + |OPENER| <= |rest| {
      assert text[|pre| + i..|pre| + i + |OPENER|] == rest[i..i + |OPENER|];
    }
  }

  lemma {:induction false} FindShift(a: string, b: string, i: nat)
    ensures Find(a + b, |a| + i) == match Find(b, i) case None => None case Some(at) => Some(|a| + at)
    decreases if i <= |b| then |b| - i + 1 else 0
  {
    hide OpensAt;
    ShiftedOpener(a, b, i);
    if i <= |b| && !OpensAt(b, i) { FindShift(a, b, i + 1); }
  }

  lemma {:induction false} ScanShift(a: string, b: string, j: nat, depth: nat)
    requires j <= |b|
    ensures Scan(a + b, |a| + j, depth) == (|a| + Scan(b, j, depth).0, Scan(b, j, depth).1)
    decreases |b| - j
  {
    if j < |b| && depth > 0 { ScanShift(a, b, j + 1, depth + Delta(b[j])); }
  }

  /** Text before the cursor does not matter. */
  lemma {:induction false} BoxesShift(a: string, b: string, i: nat, space: char -> bool)
    requires i <= |b|
    ensures Boxes(a + b, |a| + i, space) == Boxes(b, i, space)
    decreases |b| - i
  {
    hide Strip, OpensAt, Scan, Find;
    FindShift(a, b, i);
    if Find(b, i).Some? {
      var start := Find(b, i).value + |OPENER|;
      OpenerInside(b, Find(b, i).value);
      ScanShift(a, b, start, 1);
      var (j, depth) := Scan(b, start, 1);
      BoxesShift(a, b, j, space);
      if depth == 0 { assert (a + b)[|a| + start..|a| + j - 1] == b[start..j - 1]; }
    }
  }

  lemma BoxesStep(text: string, at: nat, j: nat, space: char -> bool)
    requires Find(text, 0) == Some(at) && at + |OPENER| <= |text| && Scan(text, at + |OPENER|, 1) == (j, 0)
    ensures at + |OPENER| < j <= |text|
    ensures Boxes(text, 0, space) == [Strip(text[at + |OPENER|..j - 1], space)] + Boxes(text, j, space)
  {
    hide Strip, Find, Scan, OpensAt;
  }

  /** The first complete box contributes its stripped content, and the text after it is treated like a text of its
      own. */
  lemma BoxThenRest(pre: string, s: string, post: string, space: char -> bool)
    requires Balanced(s) && forall k :: 0 <= k ==> !OpensAt(pre, k)
    ensures Boxes(pre + OPENER + s + "}" + post, 0, space) == [Strip(s, space)] + Boxes(post, 0, space)
  {
    hide Strip, Balanced, OpensAt, Boxes, Scan, Find;
    var text := pre + OPENER + s + "}" + post;
    var start := |pre| + |OPENER|;
    var end := start + |s| + 1;
    assert text == pre + OPENER + s + ("}" + post);
    Seqs.Middle(pre + OPENER, s, "}" + post);
    assert text[start + |s|] == text[start + |s|..][0];
    FirstOpener(pre, s, post);
    ScanMeaning(text, start, start + |s|);
    BoxesStep(text, |pre|, end, space);
    var front := pre + OPENER + s + "}";
    assert text == front + post && |front| == end;
    BoxesShift(front, post, 0, space);
  }

  /** Wrapping any balanced string in a box, between texts without openers, is undone (up to surrounding whitespace). */
  lemma WrapRoundTrip(pre: string, s: string, post: string, space: char -> bool)
    requires Balanced(s) && (forall k :: 0 <= k ==> !OpensAt(pre, k)) && (forall k :: 0 <= k ==> !OpensAt(post, k))
    ensures Boxes(pre + OPENER + s + "}" + post, 0, space) == [Strip(s, space)]
  {
    hide Strip, Balanced, OpensAt;
    BoxThenRest(pre, s, post, space);
    NothingIn(post, space);
  }

  lemma UnclosedTail(mid: string, tail: string, space: char -> bool)
    requires (forall k :: 0 <= k ==> !OpensAt(mid, k)) && Scan(tail, 0, 1).1 != 0
    ensures Boxes(mid + OPENER + tail, 0, space) == []
  {
    hide Scan, Boxes, OpensAt, Find;
    var post := mid + OPENER + tail;
    var rest := OPENER + tail;
    assert post == mid + rest;
    forall i | 0 <= i < |mid| ensures !OpensAt(post, i) { NoOpenerInPlain(mid, rest, i); }
    OpensHere(mid, tail);
    FindIs(post, |mid|);
    ScanShift(mid + OPENER, tail, 0, 1);
    UnclosedBox(post, 0, space);
  }

  lemma OpensHere(mid: string, tail: string)
    ensures OpensAt(mid + OPENER + tail, |mid|)
  {
    assert (mid + OPENER + tail)[|mid|..|mid| + |OPENER|] == OPENER;
  }

  /** Text without an opener, then a box with balanced content. */
  datatype Piece = Piece(plain: string, content: string)

  ghost predicate PieceOk(p: Piece) { Balanced(p.content) && forall k :: 0 <= k ==> !OpensAt(p.plain, k) }

  /** Any number of boxes with text between them. */
  function Wrapped(ps: seq<Piece>): string {
    if ps == [] then "" else ps[0].plain + OPENER + ps[0].content + "}" + Wrapped(ps[1..])
  }

  function Contents(ps: seq<Piece>, space: char -> bool): seq<string> {
    if ps == [] then [] else [Strip(ps[0].content, space)] + Contents(ps[1..], space)
  }

  /** Every complete box counts, in order, whatever follows them. */
  lemma {:induction false} BoxesOfPieces(ps: seq<Piece>, rest: string, space: char -> bool)
    requires forall i :: 0 <= i < |ps| ==> PieceOk(ps[i])
    ensures Boxes(Wrapped(ps) + rest, 0, space) == Contents(ps, space) + Boxes(rest, 0, space)
    decreases |ps|
  {
    hide Boxes, Strip, Balanced, OpensAt;
    if ps == [] {
      assert "" + rest == rest;
      assert [] + Boxes(rest, 0, space) == Boxes(rest, 0, space);
    } else {
      var p, tail := ps[0], Wrapped(ps[1..]) + rest;
      BoxesOfPieces(ps[1..], rest, space);
      BoxThenRest(p.plain, p.content, tail, space);
      Seqs.Assoc(p.plain + OPENER + p.content + "}", Wrapped(ps[1..]), rest);
      Seqs.Assoc([Strip(p.content, space)], Contents(ps[1..], space), Boxes(rest, 0, space));
    }
  }

  /** A trailing box that never closes is ignored and all boxes before it still count, however many. */
  lemma EarlierBoxesKept(ps: seq<Piece>, mid: string, tail: string, space: char -> bool)
    requires (forall i :: 0 <= i < |ps| ==> PieceOk(ps[i])) && (forall k :: 0 <= k ==> !OpensAt(mid, k))
    requires Scan(tail, 0, 1).1 != 0
    ensures Boxes(Wrapped(ps) + (mid + OPENER + tail), 0, space) == Contents(ps, space)
  {
    hide Strip, PieceOk, Scan, Boxes, OpensAt, Wrapped, Contents;
    BoxesOfPieces(ps, mid + OPENER + tail, space);
    UnclosedTail(mid, tail, space);
  }

  /** A text whose first opener is never closed. */
  ghost predicate Unclosed(s: string) { exists tail :: s == OPENER + tail && Scan(tail, 0, 1).1 != 0 }

  /** Complete boxes with text between them, then a text without openers, then nothing or a box that is never closed. */
  ghost predicate Parts(text: string, ps: seq<Piece>, mid: string, rest: string) {
    && text == Wrapped(ps) + (mid + rest) && (forall k :: 0 <= k < |ps| ==> PieceOk(ps[k]))
    && (forall k :: 0 <= k ==> !OpensAt(mid, k)) && (rest == "" || Unclosed(rest))
  }

  /** The contents of the complete boxes of such a text, and nothing else, are found. */
  lemma PartsAnswer(text: string, ps: seq<Piece>, mid: string, rest: string, space: char -> bool)
    requires Parts(text, ps, mid, rest)
    ensures Boxes(text, 0, space) == Contents(ps, space)
  {
    hide Strip, PieceOk, Scan, Boxes, OpensAt, Wrapped, Contents;
    BoxesOfPieces(ps, mid + rest, space);
    if rest == "" {
      assert mid + rest == mid;
      NothingIn(mid, space);
    } else {
      var tail :| rest == OPENER + tail && Scan(tail, 0, 1).1 != 0;
      Seqs.Assoc(mid, OPENER, tail);
      UnclosedTail(mid, tail, space);
    }
  }

  lemma NothingIn(mid: string, space: char -> bool)
    requires forall k :: 0 <= k ==> !OpensAt(mid, k)
    ensures Boxes(mid, 0, space) == []
  {
    hide OpensAt;
    NothingLeft(mid, 0, space);
  }

  /** Every text has such parts, so the lemmas above describe the answer for every input. */
  lemma {:induction false} Decompose(text: string) returns (ps: seq<Piece>, mid: string, rest: string)
    ensures Parts(text, ps, mid, rest)
    decreases |text|
  {
    hide Balanced, OpensAt, Find, Scan, Parts, PieceOk;
    var found := Find(text, 0);
    if found.None? {
      ps, mid, rest := [], text, "";
      PlainParts(text);
    } else {
      var at := found.value;
      var start := at + |OPENER|;
      OpenerInside(text, at);
      PlainBefore(text, at);
      var (j, depth) := Scan(text, start, 1);
      if depth == 0 {
        ClosingBrace(text, start, j);
        var p := Piece(text[..at], text[start..j - 1]);
        PieceIs(p);
        var more;
        more, mid, rest := Decompose(text[j..]);
        ps := [p] + more;
        OneBox(text, at, j);
        ConsParts(p, text[j..], more, mid, rest);
      } else {
        ps, mid, rest := [], text[..at], OPENER + text[start..];
        UnclosedRest(text, start);
        LastParts(text, mid, rest);
      }
    }
  }

  lemma PlainParts(text: string)
    requires forall k :: 0 <= k ==> !OpensAt(text, k)
    ensures Parts(text, [], text, "")
  {
    hide OpensAt;
    NoPieces(text);
  }

  lemma LastParts(text: string, mid: string, rest: string)
    requires text == mid + rest && (forall k :: 0 <= k ==> !OpensAt(mid, k)) && Unclosed(rest)
    ensures Parts(text, [], mid, rest)
  {
    hide OpensAt, Unclosed;
    NoPieces(text);
  }

  lemma ConsParts(p: Piece, after: string, more: seq<Piece>, mid: string, rest: string)
    requires PieceOk(p) && Parts(after, more, mid, rest)
    ensures Parts(p.plain + OPENER + p.content + "}" + after, [p] + more, mid, rest)
  {
    hide OpensAt, Unclosed, PieceOk, Wrapped;
    WrappedCons(p, more);
    Seqs.Assoc(p.plain + OPENER + p.content + "}", Wrapped(more), mid + rest);
  }

  lemma NoPieces(s: string)
    ensures Wrapped([]) + s == s && Wrapped([]) + (s + "") == s
  {}

  lemma PieceIs(p: Piece)
    requires Balanced(p.content) && forall k :: 0 <= k ==> !OpensAt(p.plain, k)
    ensures PieceOk(p)
  {}

  lemma WrappedCons(p: Piece, ps: seq<Piece>)
    ensures Wrapped([p] + ps) == p.plain + OPENER + p.content + "}" + Wrapped(ps)
  {
    assert ([p] + ps)[1..] == ps;
  }

  lemma OneBox(text: string, at: nat, j: nat)
    requires OpensAt(text, at) && at + |OPENER| < j <= |text| && text[j - 1] == '}'
    ensures text == text[..at] + OPENER + text[at + |OPENER|..j - 1] + "}" + text[j..]
  {}

  lemma UnclosedRest(text: string, start: nat)
    requires start <= |text| && Scan(text, start, 1).1 != 0
    ensures Unclosed(OPENER + text[start..])
  {
    hide Scan;
    assert text == text[..start] + text[start..];
    ScanShift(text[..start], text[start..], 0, 1);
  }

  /** The text before the first opener has none, and the opener follows it. */
  lemma PlainBefore(text: string, at: nat)
    requires OpensAt(text, at) && forall i :: 0 <= i < at ==> !OpensAt(text, i)
    ensures (forall k :: 0 <= k ==> !OpensAt(text[..at], k)) && text == text[..at] + (OPENER + text[at + |OPENER|..])
  {
    forall k | 0 <= k ensures !OpensAt(text[..at], k) {
      if k + |OPENER| <= at {
        assert !OpensAt(text, k);
        assert text[..at][k..k + |OPENER|] == text[k..k + |OPENER|];
      }
    }
  }

  /** When the scan closes, it has just passed balanced content and its closing brace. */
  lemma ClosingBrace(text: string, start: nat, j: nat)
    requires start <= |text| && Scan(text, start, 1) == (j, 0)
    ensures start < j <= |text| && text[j - 1] == '}' && Balanced(text[start..j - 1])
  {
    hide Scan, Balanced;
    ScanMeaning(text, start, j - 1);
  }

  lemma FirstOpener(pre: string, s: string, post: string)
    requires forall k :: 0 <= k ==> !OpensAt(pre, k)
    ensures Find(pre + OPENER + s + "}" + post, 0) == Some(|pre|)
  {
    hide Find;
    var text := pre + OPENER + s + "}" + post;
    var rest := OPENER + s + "}" + post;
    assert text == pre + rest;
    forall i | 0 <= i < |pre| ensures !OpensAt(text, i) { NoOpenerInPlain(pre, rest, i); }
    assert text[|pre|..|pre| + |OPENER|] == OPENER;
    FindIs(text, |pre|);
  }

  lemma FindIs(text: string, at: nat)
    requires OpensAt(text, at) && forall i :: 0 <= i < at ==> !OpensAt(text, i)
    ensures Find(text, 0) == Some(at)
  {
    hide OpensAt;
    assert Find(text, 0).Some?;
  }
}
