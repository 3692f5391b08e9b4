/**
Server-sent events: the frames harness/clients/llamacpp_compat_proxy.py writes, and a reader that follows the event
stream interpretation of section 9.2.6 of the WHATWG HTML standard.
*/
module SseFormat {

  datatype Event = Event(name: string, data: string)

  /** One frame as the proxy writes it. */
  function Frame(e: Event): string { "event: " + e.name + "\n" + ("data: " + e.data + "\n" + "\n") }

  function Stream(es: seq<Event>): string { if es == [] then "" else Frame(es[0]) + Stream(es[1..]) }

  // ---- reading

  predicate IsBreak(c: char) { c == '\n' || c == '\r' }

  /** The length of the line that starts s: the index of the first line break, or |s|. */
  function LineLength(s: string): (n: nat)
    ensures n <= |s|
    ensures forall i :: 0 <= i < n ==> !IsBreak(s[i])
    ensures n < |s| ==> IsBreak(s[n])
  {
    if s == "" || IsBreak(s[0]) then 0 else 1 + LineLength(s[1..])
  }

  /** The text after the line break at n; CR LF counts as one break. */
  function AfterBreak(s: string, n: nat): (rest: string)
    requires n < |s|
    ensures |rest| < |s|
  {
    if s[n] == '\r' && n + 1 < |s| && s[n + 1] == '\n' then s[n + 2..] else s[n + 1..]
  }

  function ColonAt(line: string): (n: nat)
    ensures n <= |line|
    ensures forall i :: 0 <= i < n ==> line[i] != ':'
    ensures n < |line| ==> line[n] == ':'
  {
    if line == "" || line[0] == ':' then 0 else 1 + ColonAt(line[1..])
  }

  /** Field name and value; one leading space of the value is dropped. */
  function Field(line: string): (string, string) {
    var n := ColonAt(line);
    if n == |line| then (line, "")
    else
      var v := line[n + 1..];
      (line[..n], if v != "" && v[0] == ' ' then v[1..] else v)
  }

  /** The event type buffer and the data buffer. */
  datatype Buffers = Buffers(name: string, data: string)

  const EMPTY := Buffers("", "")

  /** A non-blank line updates the buffers; comments and other fields do nothing here. */
  function Update(b: Buffers, line: string): Buffers {
    var (name, value) := Field(line);
    if name == "event" then b.(name := value)
    else if name == "data" then b.(data := b.data + value + "\n")
    else b
  }

  /** A blank line dispatches: without data nothing, otherwise one event whose data loses its last line feed. */
  function Dispatch(b: Buffers): seq<Event> {
    if b.data == "" then [] else [Event(if b.name == "" then "message" else b.name, b.data[..|b.data| - 1])]
  }

  /** The whole stream; an unfinished last line and undispatched buffers are discarded. */
  function Read(s: string, b: Buffers): seq<Event>
    decreases |s|
  {
    var n := LineLength(s);
    if n == |s| then []
    else if n == 0 then Dispatch(b) + Read(AfterBreak(s, 0), EMPTY)
    else Read(AfterBreak(s, n), Update(b, s[..n]))
  }

  // ---- frames read back

  ghost predicate OneLine(s: string) { forall i :: 0 <= i < |s| ==> !IsBreak(s[i]) }

  lemma ReadLine(line: string, rest: string, b: Buffers)
    requires OneLine(line)
    ensures line != "" ==> Read(line + "\n" + rest, b) == Read(rest, Update(b, line))
    ensures line == "" ==> Read(line + "\n" + rest, b) == Dispatch(b) + Read(rest, EMPTY)
  {
    hide Update, Dispatch, LineLength, AfterBreak;
    LineShape(line, rest);
  }

  lemma LineShape(line: string, rest: string)
    requires OneLine(line)
    ensures var s := line + "\n" + rest;
      LineLength(s) == |line| < |s| && s[..|line|] == line && AfterBreak(s, |line|) == rest
  {
    hide LineLength;
    var s := line + "\n" + rest;
    assert s[|line|] == '\n' && s[..|line|] == line && s[|line| + 1..] == rest;
    forall i | 0 <= i < |line| ensures !IsBreak(s[i]) { assert s[i] == line[i]; }
  }

  lemma FieldIs(name: string, value: string)
    requires ':' !in name
    ensures Field(name + ": " + value) == (name, value)
  {
    var line := name + ": " + value;
    var n := ColonAt(line);
    assert line[|name|] == ':';
    assert forall i :: 0 <= i < |name| ==> line[i] == name[i];
    assert line[..n] == name && line[n + 1..] == " " + value;
    assert (" " + value)[1..] == value;
  }

  lemma UpdateEvent(b: Buffers, value: string)
    ensures Update(b, "event: " + value) == b.(name := value)
    ensures Update(b, "data: " + value) == b.(data := b.data + value + "\n")
  {
    FieldIs("event", value);
    FieldIs("data", value);
    assert "event" + ": " + value == "event: " + value;
    assert "data" + ": " + value == "data: " + value;
  }

  ghost predicate Framable(e: Event) { e.name != "" && OneLine(e.name) && OneLine(e.data) }

  lemma FrameReadsBack(e: Event, rest: string)
    requires Framable(e)
    ensures Read(Frame(e) + rest, EMPTY) == [e] + Read(rest, EMPTY)
  {
    hide Read, Update, IsBreak;
    var first, second := "event: " + e.name, "data: " + e.data;
    var b1 := Buffers(e.name, "");
    var b2 := Buffers(e.name, "" + e.data + "\n");
    PrefixOneLine(e.name, e.data);
    Regroup(first, second, rest);
    ReadLine(first, second + "\n" + ("" + "\n" + rest), EMPTY);
    UpdateEvent(EMPTY, e.name);
    ReadLine(second, "" + "\n" + rest, b1);
    UpdateEvent(b1, e.data);
    ReadLine("", rest, b2);
    assert b2.data[..|b2.data| - 1] == e.data;
  }

  lemma PrefixOneLine(a: string, b: string)
    requires OneLine(a) && OneLine(b)
    ensures OneLine("event: " + a) && OneLine("data: " + b)
  {
    assert OneLine("event: ") && OneLine("data: ");
  }

  lemma Regroup(first: string, second: string, rest: string)
    ensures first + "\n" + (second + "\n" + "\n") + rest == first + "\n" + (second + "\n" + ("" + "\n" + rest))
  {
    var l := first + "\n" + (second + "\n" + "\n") + rest;
    var r := first + "\n" + (second + "\n" + ("" + "\n" + rest));
    assert l == first + "\n" + second + "\n" + "\n" + rest;
    assert r == first + "\n" + second + "\n" + "\n" + rest;
  }

  /** Every written stream reads back as exactly its events. */
  lemma {:induction false} StreamReadsBack(es: seq<Event>)
    requires forall i :: 0 <= i < |es| ==> Framable(es[i])
    ensures Read(Stream(es), EMPTY) == es
  {
    hide Read, Frame, Framable;
    if es == [] {
      ReadNothing();
    } else {
      FrameReadsBack(es[0], Stream(es[1..]));
      StreamReadsBack(es[1..]);
      assert es == [es[0]] + es[1..];
    }
  }

  lemma ReadNothing()
    ensures Read("", EMPTY) == []
  {}
}
