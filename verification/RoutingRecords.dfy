/**
The binary routing-record loader of scripts/train_predictor.py. A server that is killed mid-write leaves a truncated
last record; loading must return exactly the complete ones.
*/
module RoutingRecords {
  import opened LittleEndian
  import Seqs

  /** One record: layer index, the raw float32 hidden state, and the routed experts. */
  datatype Record = Record(layer: int, hidden: Bytes, experts: seq<int>)

  ghost predicate RecordFits(r: Record, dim: nat) {
    && FitsI32(r.layer) && |r.hidden| == 4 * dim && |r.experts| < 0x8000_0000
    && forall i :: 0 <= i < |r.experts| ==> FitsI32(r.experts[i])
  }

  function Words(xs: seq<int>): (b: Bytes)
    ensures |b| == 4 * |xs|
  {
    if xs == [] then [] else EncodeI32(xs[0]) + Words(xs[1..])
  }

  function ReadWords(b: Bytes, n: nat): (xs: seq<int>)
    requires |b| == 4 * n
    ensures |xs| == n
  {
    if n == 0 then [] else [DecodeI32(b[..4])] + ReadWords(b[4..], n - 1)
  }

  lemma {:induction false} WordsRoundTrip(xs: seq<int>)
    requires forall i :: 0 <= i < |xs| ==> FitsI32(xs[i])
    ensures ReadWords(Words(xs), |xs|) == xs
  {
    if xs != [] {
      DecodeEncodeI32(xs[0]);
      hide EncodeI32, DecodeI32, FitsI32;
      var head, tail := EncodeI32(xs[0]), Words(xs[1..]);
      WordsRoundTrip(xs[1..]);
      assert (head + tail)[..4] == head && (head + tail)[4..] == tail;
      assert Words(xs) == head + tail;
      assert xs == [xs[0]] + xs[1..];
    }
  }

  // ---- the stream

  function RecordSize(r: Record): nat { 8 + |r.hidden| + 4 * |r.experts| }

  function WriteRecord(r: Record): (b: Bytes)
    ensures |b| == RecordSize(r)
  {
    EncodeI32(r.layer) + (EncodeI32(|r.experts|) + (r.hidden + Words(r.experts)))
  }

  function WriteRecords(rs: seq<Record>): Bytes {
    if rs == [] then [] else WriteRecord(rs[0]) + WriteRecords(rs[1..])
  }

  // ---- load_routing_data

  datatype Outcome<T> = Loaded(value: T) | NegativeCount

  /** The record at the front of b, when its count is not negative and its body is complete. */
  function RecordAt(b: Bytes, dim: nat): Record
    requires |b| >= 8 && 0 <= DecodeI32(b[4..8]) && 8 + 4 * dim + 4 * DecodeI32(b[4..8]) <= |b|
  {
    var k: nat := DecodeI32(b[4..8]);
    Record(DecodeI32(b[..4]), b[8..8 + 4 * dim], ReadWords(b[8 + 4 * dim..8 + 4 * dim + 4 * k], k))
  }

  /** What the bytes from the cursor on mean to the loader. */
  function Parse(b: Bytes, dim: nat): Outcome<seq<Record>>
    decreases |b|
  {
    if |b| <= 8 then Loaded([])
    else
      var k := DecodeI32(b[4..8]);
      if k < 0 then NegativeCount
      else if 8 + 4 * dim + 4 * k > |b| then Loaded([])
      else Prepend([RecordAt(b, dim)], Parse(b[8 + 4 * dim + 4 * k..], dim))
  }

  function Prepend(rs: seq<Record>, o: Outcome<seq<Record>>): Outcome<seq<Record>> {
    match o case NegativeCount => NegativeCount case Loaded(more) => Loaded(rs + more)
  }

  lemma PrependStep(rs: seq<Record>, r: Record, o: Outcome<seq<Record>>)
    ensures Prepend(rs, Prepend([r], o)) == Prepend(rs + [r], o)
  {
    if o.Loaded? { assert rs + ([r] + o.value) == rs + [r] + o.value; }
  }

  /** The cursor loop. */
  method LoadRecords(data: Bytes, dim: nat) returns (r: Outcome<seq<Record>>)
    ensures r == Parse(data, dim)
  {
    hide DecodeI32, ReadWords;
    var offset: nat := 0;
    var records: seq<Record> := [];
    assert data[0..] == data;
    assert Prepend([], Parse(data, dim)) == Parse(data, dim) by {
      if Parse(data, dim).Loaded? { assert [] + Parse(data, dim).value == Parse(data, dim).value; }
    }
    while offset < |data| - 8
      invariant offset <= |data|
      invariant Parse(data, dim) == Prepend(records, Parse(data[offset..], dim))
    {
      var rest := data[offset..];
      assert rest[4..8] == data[offset + 4..offset + 8] && rest[..4] == data[offset..offset + 4];
      var k := DecodeI32(data[offset + 4..offset + 8]);
      if k < 0 {
        return NegativeCount;
      }
      var needed := dim * 4 + k * 4;
      if offset + 8 + needed > |data| {
        break;
      }
      var rec := RecordAt(rest, dim);
      assert rest[8 + 4 * dim + 4 * k..] == data[offset + 8 + needed..];
      PrependStep(records, rec, Parse(data[offset + 8 + needed..], dim));
      records := records + [rec];
      offset := offset + 8 + needed;
    }
    assert records + [] == records;
    return Loaded(records);
  }

  // ---- truncation

  /** How many records fit entirely in the first n bytes. */
  function WholeRecords(rs: seq<Record>, n: nat): (k: nat)
    ensures k <= |rs|
  {
    if rs == [] || RecordSize(rs[0]) > n then 0 else 1 + WholeRecords(rs[1..], n - RecordSize(rs[0]))
  }

  /** That is the largest number whose bytes lie within the prefix. */
  lemma {:induction false} WholeRecordsExact(rs: seq<Record>, n: nat)
    ensures var k := WholeRecords(rs, n);
      && |WriteRecords(rs[..k])| <= n
      && (k < |rs| ==> |WriteRecords(rs[..k + 1])| > n)
  {
    hide WriteRecord;
    var k := WholeRecords(rs, n);
    if rs != [] && RecordSize(rs[0]) <= n {
      WholeRecordsExact(rs[1..], n - RecordSize(rs[0]));
      assert rs[..k][1..] == rs[1..][..k - 1];
      if k < |rs| { assert rs[..k + 1][1..] == rs[1..][..k]; }
    } else if rs != [] {
      assert rs[..1] == [rs[0]];
      assert WriteRecords([rs[0]]) == WriteRecord(rs[0]) + WriteRecords([rs[0]][1..]);
    }
  }

  lemma HeadOfRecord(r: Record, dim: nat, rest: Bytes)
    requires RecordFits(r, dim)
    ensures var b := WriteRecord(r) + rest;
      && DecodeI32(b[4..8]) == |r.experts| && |b| >= 8 + 4 * dim + 4 * |r.experts|
      && RecordAt(b, dim) == r && b[8 + 4 * dim + 4 * |r.experts|..] == rest
  {
    DecodeEncodeI32(r.layer);
    DecodeEncodeI32(|r.experts|);
    WordsRoundTrip(r.experts);
    hide EncodeI32, DecodeI32, Words, ReadWords;
    FourParts(EncodeI32(r.layer), EncodeI32(|r.experts|), r.hidden, Words(r.experts), rest);
  }

  lemma FourParts(a: Bytes, b: Bytes, c: Bytes, d: Bytes, rest: Bytes)
    requires |a| == 4 && |b| == 4
    ensures var s := (a + (b + (c + d))) + rest;
      && s[..4] == a && s[4..8] == b && s[8..8 + |c|] == c
      && s[8 + |c|..8 + |c| + |d|] == d && s[8 + |c| + |d|..] == rest
  {
    var s := (a + (b + (c + d))) + rest;
    assert s == a + b + c + d + rest;
    Middle(a, b, c + d + rest);
    Middle(a + b, c, d + rest);
    Middle(a + b + c, d, rest);
    assert a + b + (c + d + rest) == s && a + b + c + (d + rest) == s;
  }

  lemma Middle(a: Bytes, b: Bytes, c: Bytes)
    ensures (a + b + c)[..|a|] == a && (a + b + c)[|a|..|a| + |b|] == b && (a + b + c)[|a| + |b|..] == c
  {}

  /** A proper prefix of one record yields nothing. */
  lemma CutRecord(r: Record, dim: nat, n: nat)
    requires RecordFits(r, dim) && n < RecordSize(r)
    ensures Parse(WriteRecord(r)[..n], dim) == Loaded([])
  {
    var b := WriteRecord(r);
    HeadOfRecord(r, dim, []);
    assert b + [] == b;
    hide WriteRecord, DecodeI32, RecordAt;
    if n > 8 { assert b[..n][4..8] == b[4..8]; }
  }

  /** The prefix ends right behind a record that is a bare 8-byte header, which only width 0 allows. */
  predicate EndsBare(rs: seq<Record>, n: nat) {
    rs != [] && RecordSize(rs[0]) <= n &&
    (if n == RecordSize(rs[0]) then n == 8 else EndsBare(rs[1..], n - RecordSize(rs[0])))
  }

  /** In other words: the whole records fill the prefix and the last of them is bare. */
  lemma {:induction false} EndsBareMeaning(rs: seq<Record>, n: nat)
    ensures var k := WholeRecords(rs, n);
      EndsBare(rs, n) <==> k > 0 && RecordSize(rs[k - 1]) == 8 && |WriteRecords(rs[..k])| == n
  {
    hide WriteRecord;
    var k := WholeRecords(rs, n);
    if rs != [] && RecordSize(rs[0]) <= n {
      var rest := n - RecordSize(rs[0]);
      EndsBareMeaning(rs[1..], rest);
      assert rs[..k][1..] == rs[1..][..k - 1] && rs[..k][0] == rs[0];
      if rest == 0 {
        assert WholeRecords(rs[1..], 0) == 0;
        assert rs[1..][..0] == [];
      } else if k == 1 {
        assert rs[1..][..0] == [];
      }
    }
  }

  /** With hidden states no record is bare. */
  lemma {:induction false} NeverBare(rs: seq<Record>, dim: nat, n: nat)
    requires dim >= 1 && forall i :: 0 <= i < |rs| ==> RecordFits(rs[i], dim)
    ensures !EndsBare(rs, n)
  {
    if rs != [] && RecordSize(rs[0]) < n { NeverBare(rs[1..], dim, n - RecordSize(rs[0])); }
  }

  /** Whatever byte the writer was stopped at, loading returns the records that were completely written, except for a
      bare header at the very end, because the loop stops with 8 bytes left. */
  lemma {:induction false} LoadedPrefix(rs: seq<Record>, dim: nat, n: nat)
    requires n <= |WriteRecords(rs)| && forall i :: 0 <= i < |rs| ==> RecordFits(rs[i], dim)
    ensures EndsBare(rs, n) ==> WholeRecords(rs, n) > 0
    ensures Parse(WriteRecords(rs)[..n], dim) == Loaded(rs[..WholeRecords(rs, n) - (if EndsBare(rs, n) then 1 else 0)])
    decreases |rs|
  {
    hide WriteRecord, Parse, RecordFits;
    var b := WriteRecords(rs)[..n];
    if rs == [] {
      NothingLeft(b, dim);
    } else {
      var r, size := rs[0], RecordSize(rs[0]);
      if n < size {
        assert b == WriteRecord(r)[..n];
        CutRecord(r, dim, n);
      } else if n > 8 {
        var rest := WriteRecords(rs[1..])[..n - size];
        assert b == WriteRecord(r) + rest;
        LoadedPrefix(rs[1..], dim, n - size);
        ParseStep(r, dim, rest);
        OneMore(rs, n);
      } else {
        NothingLeft(b, dim);
      }
    }
  }

  lemma NothingLeft(b: Bytes, dim: nat)
    requires |b| <= 8
    ensures Parse(b, dim) == Loaded([])
  {}

  /** Counting past a first record that is longer than a bare header, or followed by something. */
  lemma OneMore(rs: seq<Record>, n: nat)
    requires rs != [] && RecordSize(rs[0]) <= n && n > 8
    ensures var rest := n - RecordSize(rs[0]);
      var k := WholeRecords(rs[1..], rest) - (if EndsBare(rs[1..], rest) then 1 else 0);
      && k >= 0 ==>
        WholeRecords(rs, n) - (if EndsBare(rs, n) then 1 else 0) == 1 + k && rs[..1 + k] == [rs[0]] + rs[1..][..k]
  {
    if RecordSize(rs[0]) == n { assert !EndsBare(rs[1..], 0); }
  }

  lemma ParseStep(r: Record, dim: nat, rest: Bytes)
    requires RecordFits(r, dim) && |WriteRecord(r) + rest| > 8
    ensures Parse(WriteRecord(r) + rest, dim) == Prepend([r], Parse(rest, dim))
  {
    hide WriteRecord, RecordAt, DecodeI32;
    HeadOfRecord(r, dim, rest);
  }

  /** For every width, loading a byte prefix returns exactly the records wholly contained in it if and only if the
      prefix does not end right behind a bare header; with hidden states it never does. */
  lemma TruncationSafe(rs: seq<Record>, dim: nat, n: nat)
    requires n <= |WriteRecords(rs)| && forall i :: 0 <= i < |rs| ==> RecordFits(rs[i], dim)
    ensures Parse(WriteRecords(rs)[..n], dim) == Loaded(rs[..WholeRecords(rs, n)]) <==> !EndsBare(rs, n)
    ensures dim >= 1 ==> !EndsBare(rs, n)
  {
    hide Parse, WriteRecords, EndsBare, RecordFits, WholeRecords;
    LoadedPrefix(rs, dim, n);
    if dim >= 1 { NeverBare(rs, dim, n); }
    var k := WholeRecords(rs, n);
    assert k > 0 ==> |rs[..k - 1]| != |rs[..k]|;
  }

  /** For any width, zero included: a complete stream is loaded completely exactly when its last record is longer than
      the bare 8-byte header. */
  lemma CompleteStream(rs: seq<Record>, dim: nat)
    requires forall i :: 0 <= i < |rs| ==> RecordFits(rs[i], dim)
    ensures Parse(WriteRecords(rs), dim) ==
      Loaded(if rs == [] || RecordSize(rs[|rs| - 1]) > 8 then rs else rs[..|rs| - 1])
  {
    hide Parse, WriteRecords, EndsBare, RecordFits, WholeRecords;
    var b := WriteRecords(rs);
    LoadedPrefix(rs, dim, |b|);
    AllWhole(rs);
    EndsBareMeaning(rs, |b|);
    assert b[..|b|] == b && rs[..|rs|] == rs;
  }

  lemma {:induction false} AllWhole(rs: seq<Record>)
    ensures WholeRecords(rs, |WriteRecords(rs)|) == |rs|
  {
    if rs != [] { AllWhole(rs[1..]); }
  }

  // ---- padding

  /** experts_padded: rows of one width, missing entries -1. */
  function PadTo(e: seq<int>, width: nat): seq<int>
    requires |e| <= width
  {
    e + seq(width - |e|, i => -1)
  }

  /** What consumers do: skip negative entries. */
  function DropPadding(row: seq<int>): seq<int> {
    if row == [] then [] else OnlyExpert(row[0]) + DropPadding(row[1..])
  }

  function OnlyExpert(x: int): seq<int> { if x >= 0 then [x] else [] }

  lemma {:induction false} DropPaddingAppend(a: seq<int>, b: seq<int>)
    ensures DropPadding(a + b) == DropPadding(a) + DropPadding(b)
  {
    hide OnlyExpert;
    if a == [] {
      assert a + b == b;
    } else {
      assert (a + b)[1..] == a[1..] + b;
      DropPaddingAppend(a[1..], b);
      Seqs.Assoc(OnlyExpert(a[0]), DropPadding(a[1..]), DropPadding(b));
    }
  }

  lemma {:induction false} DropPaddingNone(n: nat)
    ensures DropPadding(seq(n, i => -1)) == []
  {
    if n > 0 {
      DropPaddingNone(n - 1);
      assert seq(n, i => -1)[1..] == seq(n - 1, i => -1);
    }
  }

  lemma {:induction false} DropPaddingKept(e: seq<int>)
    ensures |DropPadding(e)| <= |e|
    ensures DropPadding(e) == e <==> forall i :: 0 <= i < |e| ==> e[i] >= 0
  {
    if e != [] {
      DropPaddingKept(e[1..]);
      assert e == [e[0]] + e[1..];
    }
  }

  /** Dropping the padding gives back a record's expert list exactly when the list has no negative entry. */
  lemma PaddingRoundTrip(e: seq<int>, width: nat)
    requires |e| <= width
    ensures DropPadding(PadTo(e, width)) == e <==> forall i :: 0 <= i < |e| ==> e[i] >= 0
  {
    DropPaddingAppend(e, seq(width - |e|, i => -1));
    DropPaddingNone(width - |e|);
    DropPaddingKept(e);
    assert DropPadding(e) + [] == DropPadding(e);
  }

  /** The end of load_routing_data: the common width and the padded rows. */
  method PadExperts(rs: seq<Record>) returns (rows: seq<seq<int>>, width: nat)
    ensures |rows| == |rs|
    ensures (forall i :: 0 <= i < |rs| ==> |rs[i].experts| <= width && rows[i] == PadTo(rs[i].experts, width))
    ensures if rs == [] then width == 0 else exists i :: 0 <= i < |rs| && |rs[i].experts| == width
    ensures forall i :: 0 <= i < |rs| ==> |rows[i]| == width
    ensures forall i, j :: 0 <= i < |rs| && 0 <= j < width ==>
      rows[i][j] == if j < |rs[i].experts| then rs[i].experts[j] else -1
  {
    width := 0;
    for i := 0 to |rs|
      invariant forall j :: 0 <= j < i ==> |rs[j].experts| <= width
      invariant if i == 0 then width == 0 else exists j :: 0 <= j < i && |rs[j].experts| == width
    {
      if i == 0 || width < |rs[i].experts| {
        width := |rs[i].experts|;
      }
    }
    rows := [];
    for i := 0 to |rs|
      invariant |rows| == i && forall j :: 0 <= j < i ==> rows[j] == PadTo(rs[j].experts, width)
    {
      var row := new int[width](j => -1);
      for j := 0 to |rs[i].experts|
        invariant row[..] == rs[i].experts[..j] + seq(width - j, k => -1)
      {
        row[j] := rs[i].experts[j];
      }
      rows := rows + [row[..]];
    }
  }
}
