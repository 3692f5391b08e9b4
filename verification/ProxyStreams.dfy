/**
The answer side of harness/clients/llamacpp_compat_proxy.py: a chat completion is turned into a Responses or an
Anthropic answer and then into a stream of events from which a client rebuilds the answer.
*/
module ProxyStreams {
  import opened SseFormat
  import Seqs

  // ---- the chat completion and the two answers

  datatype ToolCall = ToolCall(id: string, name: string, arguments: string)
  datatype Chat = Chat(text: string, tools: seq<ToolCall>)

  /** An output item of a Responses answer. A message's content is the list of its parts' texts. */
  datatype Item = Message(id: string, parts: seq<string>) | FunctionCall(id: string, name: string, arguments: string)

  /** A content block of an Anthropic answer; J is the type of parsed JSON arguments. */
  datatype Block<J> = Text(text: string) | ToolUse(id: string, name: string, input: J)

  function CallItem(t: ToolCall): Item { FunctionCall(t.id, t.name, t.arguments) }

  /** responses_json: the tool calls, or else one message with the text. */
  function ResponsesItems(chat: Chat, messageId: string): (items: seq<Item>)
    ensures items != []
  {
    if chat.tools == [] then [Message(messageId, [chat.text])]
    else seq(|chat.tools|, i requires 0 <= i < |chat.tools| => CallItem(chat.tools[i]))
  }

  /** anthropic_json: the text if there is any, then the tool calls; never empty. */
  function AnthropicBlocks<J>(chat: Chat, loads: string -> J): (blocks: seq<Block<J>>)
    ensures blocks != []
  {
    var text := if chat.text == "" then [] else [Text(chat.text)];
    var tools := seq(|chat.tools|, i requires 0 <= i < |chat.tools| =>
      ToolUse(chat.tools[i].id, chat.tools[i].name, loads(chat.tools[i].arguments)));
    if text + tools == [] then [Text("")] else text + tools
  }

  /** The loop of responses_json. */
  method ResponsesJson(chat: Chat, messageId: string) returns (items: seq<Item>)
    ensures items == ResponsesItems(chat, messageId)
    ensures chat.tools == [] ==> items == [Message(messageId, [chat.text])]
    ensures chat.tools != [] ==> |items| == |chat.tools| && forall i :: 0 <= i < |items| ==>
      items[i] == FunctionCall(chat.tools[i].id, chat.tools[i].name, chat.tools[i].arguments)
  {
    items := [];
    for i := 0 to |chat.tools|
      invariant |items| == i && forall k :: 0 <= k < i ==>
        items[k] == FunctionCall(chat.tools[k].id, chat.tools[k].name, chat.tools[k].arguments)
    {
      var t := chat.tools[i];
      items := items + [FunctionCall(t.id, t.name, t.arguments)];
    }
    if items == [] {
      items := [Message(messageId, [chat.text])];
    }
  }

  /** The loop of anthropic_json, with the stop reason. */
  method AnthropicJson<J>(chat: Chat, loads: string -> J) returns (content: seq<Block<J>>, stopReason: string)
    ensures content == AnthropicBlocks(chat, loads)
    ensures var first := if chat.text == "" && chat.tools != [] then 0 else 1;
      && |content| == first + |chat.tools|
      && (first == 1 ==> content[0] == Text(chat.text))
      && forall i :: 0 <= i < |chat.tools| ==> var t := chat.tools[i];
           content[first + i] == ToolUse(t.id, t.name, loads(t.arguments))
    ensures stopReason == if chat.tools == [] then "end_turn" else "tool_use"
  {
    content := [];
    if chat.text != "" {
      content := content + [Text(chat.text)];
    }
    var first := |content|;
    for i := 0 to |chat.tools|
      invariant |content| == first + i && (first == 1 ==> content[0] == Text(chat.text))
      invariant forall k :: 0 <= k < i ==> var t := chat.tools[k];
        content[first + k] == ToolUse(t.id, t.name, loads(t.arguments))
    {
      var t := chat.tools[i];
      content := content + [ToolUse(t.id, t.name, loads(t.arguments))];
    }
    if content == [] {
      content := content + [Text("")];
    }
    stopReason := if chat.tools != [] then "tool_use" else "end_turn";
    assert content == AnthropicBlocks(chat, loads);
  }

  // ---- responses_sse

  datatype REvent =
    | Created
    | ItemAdded(index: nat, item: Item)
    | PartAdded(id: string, index: nat)
    | TextDelta(id: string, index: nat, delta: string)
    | TextDone(id: string, index: nat, text: string)
    | PartDone(id: string, index: nat, text: string)
    | ArgumentsDelta(id: string, index: nat, delta: string)
    | ArgumentsDone(id: string, index: nat, arguments: string, name: string)
    | ItemDone(index: nat, item: Item)
    | Completed(items: seq<Item>)

  /** The text of a message: its first part, or nothing. */
  function MessageText(parts: seq<string>): string { if parts == [] then "" else parts[0] }

  function ItemEvents(i: nat, item: Item): seq<REvent> {
    [ItemAdded(i, item)] +
    (match item
     case Message(id, parts) =>
       var text := MessageText(parts);
       [PartAdded(id, i)] + (if text == "" then [] else [TextDelta(id, i, text)]) +
       [TextDone(id, i, text), PartDone(id, i, text)]
     case FunctionCall(id, name, arguments) =>
       [ArgumentsDelta(id, i, arguments), ArgumentsDone(id, i, arguments, name)]) +
    [ItemDone(i, item)]
  }

  function AllItemEvents(items: seq<Item>, i: nat): seq<REvent> {
    if items == [] then [] else ItemEvents(i, items[0]) + AllItemEvents(items[1..], i + 1)
  }

  function ResponsesEvents(items: seq<Item>): seq<REvent> {
    [Created] + AllItemEvents(items, 0) + [Completed(items)]
  }

  /** The event list as the loop appends it. */
  method ResponsesSse(items: seq<Item>) returns (events: seq<REvent>)
    ensures events == ResponsesEvents(items)
  {
    hide ItemEvents;
    events := [Created];
    for i := 0 to |items|
      invariant events + AllItemEvents(items[i..], i) == [Created] + AllItemEvents(items, 0)
    {
      var item := items[i];
      assert items[i..][0] == item && items[i..][1..] == items[i + 1..];
      Seqs.Assoc(events, ItemEvents(i, item), AllItemEvents(items[i + 1..], i + 1));
      var mine := AppendItem(i, item);
      events := events + mine;
    }
    assert events + [] == events;
    events := events + [Completed(items)];
  }

  method AppendItem(i: nat, item: Item) returns (events: seq<REvent>)
    ensures events == ItemEvents(i, item)
  {
    events := [ItemAdded(i, item)];
    match item {
      case Message(id, parts) =>
        var text := if parts == [] then "" else parts[0];
        events := events + [PartAdded(id, i)];
        if text != "" {
          events := events + [TextDelta(id, i, text)];
        }
        events := events + [TextDone(id, i, text)];
        events := events + [PartDone(id, i, text)];
      case FunctionCall(id, name, arguments) =>
        events := events + [ArgumentsDelta(id, i, arguments)];
        events := events + [ArgumentsDone(id, i, arguments, name)];
    }
    events := events + [ItemDone(i, item)];
  }

  /** An item as announced, and its body as the deltas told it. */
  datatype Entry = Entry(item: Item, body: string)

  /** A client that trusts only brackets and deltas: `done` holds the finished entries, `acc` the open body. */
  datatype Client =
    | Fresh
    | Between(done: seq<Entry>)
    | Open(done: seq<Entry>, item: Item, acc: string, part: bool)
    | Finished(done: seq<Entry>)
    | Broken

  /** Any event out of place or without content, with a wrong index, id or name, or whose final text or item is not
      what was told before, breaks it. */
  function Step(c: Client, e: REvent): Client {
    match e
    case Created => if c.Fresh? then Between([]) else Broken
    case ItemAdded(i, item) => if c.Between? && i == |c.done| then Open(c.done, item, "", false) else Broken
    case PartAdded(id, i) =>
      if c.Open? && c.item.Message? && !c.part && i == |c.done| && id == c.item.id then c.(part := true) else Broken
    case TextDelta(id, i, d) =>
      if c.Open? && c.part && i == |c.done| && id == c.item.id && d != "" then c.(acc := c.acc + d) else Broken
    case TextDone(id, i, t) =>
      if c.Open? && c.part && i == |c.done| && id == c.item.id && t == c.acc then c else Broken
    case PartDone(id, i, t) =>
      if c.Open? && c.part && i == |c.done| && id == c.item.id && t == c.acc then c.(part := false) else Broken
    case ArgumentsDelta(id, i, d) =>
      if c.Open? && c.item.FunctionCall? && i == |c.done| && id == c.item.id then c.(acc := c.acc + d) else Broken
    case ArgumentsDone(id, i, a, name) =>
      if c.Open? && c.item == FunctionCall(id, name, a) && i == |c.done| && a == c.acc then c else Broken
    case ItemDone(i, item) =>
      if c.Open? && !c.part && i == |c.done| && item == c.item then Between(c.done + [Entry(item, c.acc)]) else Broken
    case Completed(items) =>
      if c.Between? && |items| == |c.done| && forall i :: 0 <= i < |items| ==> items[i] == c.done[i].item
      then Finished(c.done) else Broken
  }

  function Replay(c: Client, es: seq<REvent>): Client
    decreases |es|
  {
    if es == [] then c else Replay(Step(c, es[0]), es[1..])
  }

  lemma {:induction false} ReplayAppend(c: Client, a: seq<REvent>, b: seq<REvent>)
    ensures Replay(c, a + b) == Replay(Replay(c, a), b)
    decreases |a|
  {
    hide Step;
    if a == [] {
      assert a + b == b;
    } else {
      assert (a + b)[1..] == a[1..] + b && (a + b)[0] == a[0];
      ReplayAppend(Step(c, a[0]), a[1..], b);
    }
  }

  lemma ReplayOne(c: Client, e: REvent)
    ensures Replay(c, [e]) == Step(c, e)
  {
    assert [e][1..] == [];
    assert Replay(Step(c, e), []) == Step(c, e);
  }

  lemma ReplayTwo(c: Client, e: REvent, f: REvent)
    ensures Replay(c, [e, f]) == Step(Step(c, e), f)
  {
    hide Step;
    assert [e, f][1..] == [f];
    ReplayOne(Step(c, e), f);
  }

  function Body(item: Item): string {
    match item case Message(id, parts) => MessageText(parts) case FunctionCall(id, name, arguments) => arguments
  }

  lemma ReplayItem(done: seq<Entry>, item: Item)
    ensures Replay(Between(done), ItemEvents(|done|, item)) == Between(done + [Entry(item, Body(item))])
  {
    hide Replay;
    var i, c0 := |done|, Between(done);
    var c1 := Open(done, item, "", false);
    var c2 := Open(done, item, Body(item), false);
    var added, ended := ItemAdded(i, item), ItemDone(i, item);
    var mid := ItemEvents(i, item)[1..|ItemEvents(i, item)| - 1];
    assert ItemEvents(i, item) == [added] + mid + [ended];
    ReplayAppend(c0, [added] + mid, [ended]);
    ReplayAppend(c0, [added], mid);
    ReplayOne(c0, added);
    assert Replay(c1, mid) == c2 by { ReplayMiddle(done, item, mid); }
    ReplayOne(c2, ended);
  }

  /** What happens between the brackets of one item. */
  lemma ReplayMiddle(done: seq<Entry>, item: Item, mid: seq<REvent>)
    requires mid == ItemEvents(|done|, item)[1..|ItemEvents(|done|, item)| - 1]
    ensures Replay(Open(done, item, "", false), mid) == Open(done, item, Body(item), false)
  {
    hide Replay;
    var i, c := |done|, Open(done, item, "", false);
    match item
    case FunctionCall(id, name, arguments) =>
      assert mid == [ArgumentsDelta(id, i, arguments), ArgumentsDone(id, i, arguments, name)];
      ReplayTwo(c, ArgumentsDelta(id, i, arguments), ArgumentsDone(id, i, arguments, name));
      assert "" + arguments == arguments;
    case Message(id, parts) =>
      var text := MessageText(parts);
      var inPart := c.(part := true);
      var tail := [TextDone(id, i, text), PartDone(id, i, text)];
      if text == "" {
        assert mid == [PartAdded(id, i)] + tail;
        ReplayAppend(c, [PartAdded(id, i)], tail);
        ReplayOne(c, PartAdded(id, i));
        ReplayTwo(inPart, tail[0], tail[1]);
      } else {
        var front := [PartAdded(id, i), TextDelta(id, i, text)];
        assert mid == front + tail;
        ReplayAppend(c, front, tail);
        ReplayTwo(c, front[0], front[1]);
        assert "" + text == text;
        ReplayTwo(inPart.(acc := text), tail[0], tail[1]);
      }
  }

  function Entries(items: seq<Item>): (es: seq<Entry>)
    ensures |es| == |items|
  {
    if items == [] then [] else [Entry(items[0], Body(items[0]))] + Entries(items[1..])
  }

  lemma {:induction false} ReplayItems(done: seq<Entry>, items: seq<Item>)
    ensures Replay(Between(done), AllItemEvents(items, |done|)) == Between(done + Entries(items))
    decreases |items|
  {
    hide ItemEvents, Step, Body;
    if items == [] {
      assert done + [] == done;
    } else {
      ReplayAppend(Between(done), ItemEvents(|done|, items[0]), AllItemEvents(items[1..], |done| + 1));
      ReplayItem(done, items[0]);
      ReplayItems(done + [Entry(items[0], Body(items[0]))], items[1..]);
      Seqs.Assoc(done, [Entry(items[0], Body(items[0]))], Entries(items[1..]));
    }
  }

  /** Replaying the events of any answer never breaks the client and yields the items with their texts and arguments in
      order. */
  lemma ResponsesReplay(items: seq<Item>)
    ensures Replay(Fresh, ResponsesEvents(items)) == Finished(Entries(items))
  {
    hide AllItemEvents, Step, Replay;
    ReplayAppend(Fresh, [Created] + AllItemEvents(items, 0), [Completed(items)]);
    ReplayAppend(Fresh, [Created], AllItemEvents(items, 0));
    ReplayOne(Fresh, Created);
    ReplayItems([], items);
    assert [] + Entries(items) == Entries(items);
    ReplayOne(Between(Entries(items)), Completed(items));
    StepEnds(items);
  }

  lemma StepEnds(items: seq<Item>)
    ensures Step(Fresh, Created) == Between([])
    ensures Step(Between(Entries(items)), Completed(items)) == Finished(Entries(items))
  {
    forall i | 0 <= i < |items| ensures Entries(items)[i].item == items[i] { EntryAt(items, i); }
  }

  /** What a chat completion's client ends up with: the text when there are no tool calls, otherwise every call with its
      arguments and no text. */
  lemma ResponsesAnswer(chat: Chat, messageId: string)
    ensures Entries(ResponsesItems(chat, messageId)) ==
      if chat.tools == [] then [Entry(Message(messageId, [chat.text]), chat.text)]
      else seq(|chat.tools|, i requires 0 <= i < |chat.tools| => CallEntry(chat.tools[i]))
  {
    var items := ResponsesItems(chat, messageId);
    forall i | 0 <= i < |items| ensures Entries(items)[i] == Entry(items[i], Body(items[i])) { EntryAt(items, i); }
  }

  function CallEntry(t: ToolCall): Entry { Entry(FunctionCall(t.id, t.name, t.arguments), t.arguments) }

  lemma {:induction false} EntryAt(items: seq<Item>, i: nat)
    requires i < |items|
    ensures Entries(items)[i] == Entry(items[i], Body(items[i]))
  {
    if i > 0 { EntryAt(items[1..], i - 1); }
  }

  // ---- anthropic_sse

  datatype AEvent<J> =
    | MessageStart
    | BlockStart(index: nat, block: Block<J>)
    | BlockText(index: nat, text: string)
    | BlockJson(index: nat, partial: string)
    | BlockStop(index: nat)
    | MessageDelta(stopReason: string)
    | MessageStop

  function BlockEvents<J>(i: nat, b: Block<J>, dumps: J -> string): seq<AEvent<J>> {
    [BlockStart(i, b),
     match b case Text(t) => BlockText(i, t) case ToolUse(id, name, input) => BlockJson(i, dumps(input)),
     BlockStop(i)]
  }

  function AllBlockEvents<J>(bs: seq<Block<J>>, i: nat, dumps: J -> string): seq<AEvent<J>> {
    if bs == [] then [] else BlockEvents(i, bs[0], dumps) + AllBlockEvents(bs[1..], i + 1, dumps)
  }

  function AnthropicEvents<J>(bs: seq<Block<J>>, stopReason: string, dumps: J -> string): seq<AEvent<J>> {
    [MessageStart] + AllBlockEvents(bs, 0, dumps) + [MessageDelta(stopReason), MessageStop]
  }

  method AnthropicSse<J>(bs: seq<Block<J>>, stopReason: string, dumps: J -> string) returns (events: seq<AEvent<J>>)
    ensures events == AnthropicEvents(bs, stopReason, dumps)
  {
    events := [MessageStart];
    for i := 0 to |bs|
      invariant events + AllBlockEvents(bs[i..], i, dumps) == [MessageStart] + AllBlockEvents(bs, 0, dumps)
    {
      var b := bs[i];
      assert bs[i..][0] == b && bs[i..][1..] == bs[i + 1..];
      Seqs.Assoc(events, BlockEvents(i, b, dumps), AllBlockEvents(bs[i + 1..], i + 1, dumps));
      ghost var before := events;
      events := events + [BlockStart(i, b)];
      match b {
        case Text(t) => events := events + [BlockText(i, t)];
        case ToolUse(id, name, input) => events := events + [BlockJson(i, dumps(input))];
      }
      events := events + [BlockStop(i)];
      assert events == before + BlockEvents(i, b, dumps);
    }
    assert events + [] == events;
    events := events + [MessageDelta(stopReason), MessageStop];
  }

  /** What a client accumulates per block: text from text deltas, JSON text from JSON deltas. */
  datatype Delta = TextBody(text: string) | JsonBody(json: string)

  /** A block as announced, and its body as the deltas told it. */
  datatype AEntry<J> = AEntry(block: Block<J>, body: Delta)

  datatype AClient<J> =
    | AFresh
    | ABetween(done: seq<AEntry<J>>)
    | AOpen(done: seq<AEntry<J>>, block: Block<J>, body: Delta)
    | AStopping(done: seq<AEntry<J>>, reason: string)
    | AFinished(done: seq<AEntry<J>>, reason: string)
    | ABroken

  function AStep<J>(c: AClient<J>, e: AEvent<J>): AClient<J> {
    match e
    case MessageStart => if c.AFresh? then ABetween([]) else ABroken
    case BlockStart(i, b) =>
      if c.ABetween? && i == |c.done| then AOpen(c.done, b, if b.Text? then TextBody("") else JsonBody(""))
      else ABroken
    case BlockText(i, t) =>
      if c.AOpen? && i == |c.done| && c.body.TextBody? then c.(body := TextBody(c.body.text + t)) else ABroken
    case BlockJson(i, p) =>
      if c.AOpen? && i == |c.done| && c.body.JsonBody? then c.(body := JsonBody(c.body.json + p)) else ABroken
    case BlockStop(i) => if c.AOpen? && i == |c.done| then ABetween(c.done + [AEntry(c.block, c.body)]) else ABroken
    case MessageDelta(r) => if c.ABetween? then AStopping(c.done, r) else ABroken
    case MessageStop => if c.AStopping? then AFinished(c.done, c.reason) else ABroken
  }

  function AReplay<J>(c: AClient<J>, es: seq<AEvent<J>>): AClient<J>
    decreases |es|
  {
    if es == [] then c else AReplay(AStep(c, es[0]), es[1..])
  }

  lemma {:induction false} AReplayAppend<J>(c: AClient<J>, a: seq<AEvent<J>>, b: seq<AEvent<J>>)
    ensures AReplay(c, a + b) == AReplay(AReplay(c, a), b)
    decreases |a|
  {
    hide AStep;
    if a == [] {
      assert a + b == b;
    } else {
      assert (a + b)[1..] == a[1..] + b && (a + b)[0] == a[0];
      AReplayAppend(AStep(c, a[0]), a[1..], b);
    }
  }

  function ABody<J>(b: Block<J>, dumps: J -> string): Delta {
    match b case Text(t) => TextBody(t) case ToolUse(id, name, input) => JsonBody(dumps(input))
  }

  lemma AReplayBlock<J>(done: seq<AEntry<J>>, b: Block<J>, dumps: J -> string)
    ensures AReplay(ABetween(done), BlockEvents(|done|, b, dumps)) == ABetween(done + [AEntry(b, ABody(b, dumps))])
  {
    var es := BlockEvents(|done|, b, dumps);
    var c1 := AStep(ABetween(done), es[0]);
    var c2 := AStep(c1, es[1]);
    var c3 := AStep(c2, es[2]);
    assert es[1..][0] == es[1] && es[1..][1..] == [es[2]] && [es[2]][1..] == [];
    assert AReplay<J>(c3, []) == c3;
    assert AReplay(c2, [es[2]]) == c3;
    if b.Text? { assert "" + b.text == b.text; } else { assert "" + dumps(b.input) == dumps(b.input); }
  }

  function AEntries<J>(bs: seq<Block<J>>, dumps: J -> string): seq<AEntry<J>> {
    if bs == [] then [] else [AEntry(bs[0], ABody(bs[0], dumps))] + AEntries(bs[1..], dumps)
  }

  lemma {:induction false} AReplayBlocks<J>(done: seq<AEntry<J>>, bs: seq<Block<J>>, dumps: J -> string)
    ensures AReplay(ABetween(done), AllBlockEvents(bs, |done|, dumps)) == ABetween(done + AEntries(bs, dumps))
    decreases |bs|
  {
    hide BlockEvents, AStep, ABody;
    if bs == [] {
      assert done + [] == done;
    } else {
      AReplayAppend(ABetween(done), BlockEvents(|done|, bs[0], dumps), AllBlockEvents(bs[1..], |done| + 1, dumps));
      AReplayBlock(done, bs[0], dumps);
      var first := AEntry(bs[0], ABody(bs[0], dumps));
      AReplayBlocks(done + [first], bs[1..], dumps);
      Seqs.Assoc(done, [first], AEntries(bs[1..], dumps));
    }
  }

  lemma {:induction false} AEntriesAt<J>(bs: seq<Block<J>>, dumps: J -> string)
    ensures |AEntries(bs, dumps)| == |bs|
    ensures forall i :: 0 <= i < |bs| ==> AEntries(bs, dumps)[i] == AEntry(bs[i], ABody(bs[i], dumps))
  {
    if bs != [] { AEntriesAt(bs[1..], dumps); }
  }

  /** For a chat completion: text, when there is any or nothing else to say, is never dropped, and every call follows
      with its arguments parsed and printed again. */
  lemma AnthropicAnswer<J>(chat: Chat, loads: string -> J, dumps: J -> string)
    ensures AEntries(AnthropicBlocks(chat, loads), dumps) ==
      (if chat.text == "" && chat.tools != [] then [] else [AEntry(Text(chat.text), TextBody(chat.text))])
      + seq(|chat.tools|, i requires 0 <= i < |chat.tools| => ACallEntry(chat.tools[i], loads, dumps))
  {
    AEntriesAt(AnthropicBlocks(chat, loads), dumps);
  }

  function ACallEntry<J>(t: ToolCall, loads: string -> J, dumps: J -> string): AEntry<J> {
    AEntry(ToolUse(t.id, t.name, loads(t.arguments)), JsonBody(dumps(loads(t.arguments))))
  }

  /** Replaying the Anthropic events yields every block's text or JSON input, in order, and the stop reason. */
  lemma AnthropicReplay<J>(bs: seq<Block<J>>, stopReason: string, dumps: J -> string)
    ensures AReplay(AFresh, AnthropicEvents(bs, stopReason, dumps)) == AFinished(AEntries(bs, dumps), stopReason)
  {
    hide AllBlockEvents;
    var start: seq<AEvent<J>> := [MessageStart];
    var ending: seq<AEvent<J>> := [MessageDelta(stopReason), MessageStop];
    var mid := AllBlockEvents(bs, 0, dumps);
    AReplayAppend(AFresh, start + mid, ending);
    AReplayAppend(AFresh, start, mid);
    assert start[1..] == [] && AReplay<J>(ABetween([]), []) == ABetween([]);
    assert AReplay(AFresh, start) == ABetween([]);
    AReplayBlocks([], bs, dumps);
    assert [] + AEntries(bs, dumps) == AEntries(bs, dumps);
    var c := AStopping(AEntries(bs, dumps), stopReason);
    assert ending[1..] == [MessageStop] && ending[1..][1..] == [];
    assert AReplay<J>(AFinished(AEntries(bs, dumps), stopReason), []) == AFinished(AEntries(bs, dumps), stopReason);
    assert AReplay(c, ending[1..]) == AFinished(AEntries(bs, dumps), stopReason);
  }

  // ---- on the wire

  function REventName(e: REvent): (n: string) {
    match e
    case Created => "response.created"
    case ItemAdded(_, _) => "response.output_item.added"
    case PartAdded(_, _) => "response.content_part.added"
    case TextDelta(_, _, _) => "response.output_text.delta"
    case TextDone(_, _, _) => "response.output_text.done"
    case PartDone(_, _, _) => "response.content_part.done"
    case ArgumentsDelta(_, _, _) => "response.function_call_arguments.delta"
    case ArgumentsDone(_, _, _, _) => "response.function_call_arguments.done"
    case ItemDone(_, _) => "response.output_item.done"
    case Completed(_) => "response.completed"
  }

  lemma NamesFramable(e: REvent)
    ensures REventName(e) != "" && OneLine(REventName(e))
  {
    hide OneLine;
    match e
    case Created => CreatedLine();
    case ItemAdded(_, _) => ItemAddedLine();
    case PartAdded(_, _) => PartAddedLine();
    case TextDelta(_, _, _) => TextDeltaLine();
    case TextDone(_, _, _) => TextDoneLine();
    case PartDone(_, _, _) => PartDoneLine();
    case ArgumentsDelta(_, _, _) => ArgumentsDeltaLine();
    case ArgumentsDone(_, _, _, _) => ArgumentsDoneLine();
    case ItemDone(_, _) => ItemDoneLine();
    case Completed(_) => CompletedLine();
  }

  lemma CreatedLine()
    ensures OneLine("response.created")
  {}

  lemma ItemAddedLine()
    ensures OneLine("response.output_item.added")
  {}

  lemma PartAddedLine()
    ensures OneLine("response.content_part.added")
  {}

  lemma TextDeltaLine()
    ensures OneLine("response.output_text.delta")
  {}

  lemma TextDoneLine()
    ensures OneLine("response.output_text.done")
  {}

  lemma PartDoneLine()
    ensures OneLine("response.content_part.done")
  {}

  lemma ArgumentsDeltaLine()
    ensures OneLine("response.function_call_arguments.delta")
  {}

  lemma ArgumentsDoneLine()
    ensures OneLine("response.function_call_arguments.done")
  {}

  lemma ItemDoneLine()
    ensures OneLine("response.output_item.done")
  {}

  lemma CompletedLine()
    ensures OneLine("response.completed")
  {}

  /** json.dumps and json.loads on event payloads: one line of text (control characters are escaped), invertible. */
  ghost predicate JsonCodec<E(!new)>(dumps: E -> string, loads: string -> E) {
    forall e :: OneLine(dumps(e)) && loads(dumps(e)) == e
  }

  function Wire<E>(es: seq<E>, name: E -> string, dumps: E -> string): (w: seq<Event>)
    ensures |w| == |es|
  {
    seq(|es|, i requires 0 <= i < |es| => Event(name(es[i]), dumps(es[i])))
  }

  function Unwire<E>(w: seq<Event>, loads: string -> E): (es: seq<E>)
    ensures |es| == |w|
  {
    seq(|w|, i requires 0 <= i < |w| => loads(w[i].data))
  }

  lemma WireReadsBack<E(!new)>(es: seq<E>, name: E -> string, dumps: E -> string, loads: string -> E)
    requires JsonCodec(dumps, loads) && forall e :: name(e) != "" && OneLine(name(e))
    ensures Unwire(Read(Stream(Wire(es, name, dumps)), EMPTY), loads) == es
  {
    hide Read, Stream;
    var w := Wire(es, name, dumps);
    forall i | 0 <= i < |w| ensures Framable(w[i]) { assert OneLine(dumps(es[i])); }
    StreamReadsBack(w);
  }

  /** End to end: reading the bytes of a Responses stream and replaying it rebuilds the answer. */
  lemma ResponsesEndToEnd(items: seq<Item>, dumps: REvent -> string, loads: string -> REvent)
    requires JsonCodec(dumps, loads)
    ensures var text := Stream(Wire(ResponsesEvents(items), REventName, dumps));
      Replay(Fresh, Unwire(Read(text, EMPTY), loads)) == Finished(Entries(items))
  {
    hide Read, Stream, ResponsesEvents, REventName, Replay;
    forall e: REvent ensures REventName(e) != "" && OneLine(REventName(e)) { NamesFramable(e); }
    WireReadsBack(ResponsesEvents(items), REventName, dumps, loads);
    ResponsesReplay(items);
  }

  function AEventName<J>(e: AEvent<J>): (n: string)
    ensures n != "" && OneLine(n)
  {
    match e
    case MessageStart => "message_start"
    case BlockStart(_, _) => "content_block_start"
    case BlockText(_, _) => "content_block_delta"
    case BlockJson(_, _) => "content_block_delta"
    case BlockStop(_) => "content_block_stop"
    case MessageDelta(_) => "message_delta"
    case MessageStop => "message_stop"
  }

  lemma AnthropicEndToEnd<J(!new)>(bs: seq<Block<J>>, stopReason: string, dumpInput: J -> string,
                                   dumps: AEvent<J> -> string, loads: string -> AEvent<J>)
    requires JsonCodec(dumps, loads)
    ensures var text := Stream(Wire(AnthropicEvents(bs, stopReason, dumpInput), AEventName, dumps));
      AReplay(AFresh, Unwire(Read(text, EMPTY), loads)) == AFinished(AEntries(bs, dumpInput), stopReason)
  {
    hide Read, Stream, AnthropicEvents, AEventName, AReplay;
    WireReadsBack(AnthropicEvents(bs, stopReason, dumpInput), AEventName, dumps, loads);
    AnthropicReplay(bs, stopReason, dumpInput);
  }
}
