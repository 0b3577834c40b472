/** The event stream as text: a reference parser over the whole input, and the
    properties of line splitting that make chunked parsing possible. */
module SseFormat {
  import opened Wrappers
  import opened Text

  const DATA := "data:"

  // ----------------------------------------------------------- reference parser

  function TrimCarriageReturns(s: string): string
  {
    if s != "" && s[|s| - 1] == '\r' then TrimCarriageReturns(s[..|s| - 1]) else s
  }

  function Join(lines: seq<string>): string
  {
    if |lines| == 0 then "" else if |lines| == 1 then lines[0] else lines[0] + [LF] + Join(lines[1..])
  }

  /** The data lines of the event being read, and the payloads dispatched so far. */
  datatype Parsed = Parsed(data: seq<string>, payloads: seq<string>)

  /** One line: a blank one dispatches, a data line accumulates, any other is ignored. */
  function Consume(p: Parsed, raw: string): Parsed
  {
    var line := TrimCarriageReturns(raw);
    if line == "" then
      if p.data == [] then p else Parsed([], p.payloads + [Join(p.data)])
    else if DATA <= line then p.(data := p.data + [TrimSpace(line[|DATA|..])])
    else p
  }

  function ConsumeAll(p: Parsed, lines: seq<string>): Parsed
    decreases |lines|
  {
    if lines == [] then p else ConsumeAll(Consume(p, lines[0]), lines[1..])
  }

  const START := Parsed([], [])

  /** The payloads of a whole stream. */
  function Payloads(stream: string): seq<string>
  {
    ConsumeAll(START, CompleteLines(stream)).payloads
  }

  // --------------------------------------------------------------------- cutting

  lemma {:induction false} ConsumeConcat(p: Parsed, a: seq<string>, b: seq<string>)
    ensures ConsumeAll(p, a + b) == ConsumeAll(ConsumeAll(p, a), b)
    decreases |a|
  {
    if a == [] {
      assert a + b == b;
    } else {
      assert (a + b)[0] == a[0] && (a + b)[1..] == a[1..] + b;
      ConsumeConcat(Consume(p, a[0]), a[1..], b);
    }
  }

  lemma {:induction false} PayloadsGrow(p: Parsed, lines: seq<string>)
    ensures p.payloads <= ConsumeAll(p, lines).payloads
    decreases |lines|
  {
    if lines != [] {
      PayloadsGrow(Consume(p, lines[0]), lines[1..]);
    }
  }

  /** A connection cut at any byte delivers a prefix of the payloads, never a mangled one. */
  lemma CutStreamGivesPrefix(a: string, stream: string)
    requires a <= stream
    ensures Payloads(a) <= Payloads(stream)
  {
    var b := stream[|a|..];
    assert stream == a + b;
    LinesOfConcat(a, b);
    ConsumeConcat(START, CompleteLines(a), CompleteLines(Tail(a) + b));
    PayloadsGrow(ConsumeAll(START, CompleteLines(a)), CompleteLines(Tail(a) + b));
  }

  // ---------------------------------------------------------------------- events

  /** `payload` is the JSON text of the event. */
  datatype Event = Event(id: string, kind: string, payload: string)

  datatype Item = Heartbeat | Emit(event: Event)

  const HEARTBEAT := ": heartbeat\n\n"

  function HeaderText(e: Event): string
  {
    "id: " + e.id + "\n" + (if e.kind != "" then "event: " + e.kind + "\n" else "")
  }

  function EventText(e: Event): string
  {
    HeaderText(e) + ("data: " + e.payload + "\n\n")
  }

  function ItemText(item: Item): string
  {
    match item case Heartbeat => HEARTBEAT case Emit(e) => EventText(e)
  }

  function ItemPayloads(item: Item): seq<string>
  {
    match item case Heartbeat => [] case Emit(e) => [e.payload]
  }

  function Printed(items: seq<Item>): string
  {
    if items == [] then "" else ItemText(items[0]) + Printed(items[1..])
  }

  function PayloadsOf(items: seq<Item>): seq<string>
  {
    if items == [] then [] else ItemPayloads(items[0]) + PayloadsOf(items[1..])
  }

  /** Ids and kinds on one line, JSON text on one line and without outer space. */
  predicate OneLine(e: Event)
  {
    !Contains(e.id, LF) && !Contains(e.kind, LF) && !Contains(e.payload, LF) && Trimmed(e.payload)
  }

  /** Trailing carriage returns aside, a line keeps its first character. */
  lemma {:induction false} TrimmedLineStart(line: string)
    requires line != "" && line[0] != '\r'
    ensures var t := TrimCarriageReturns(line); t != "" && t <= line
  {
    if line[|line| - 1] == '\r' {
      TrimmedLineStart(line[..|line| - 1]);
    }
  }

  /** `id:` and `event:` lines and comments change nothing. */
  lemma IgnoredLine(p: Parsed, line: string)
    requires line != "" && line[0] != 'd' && line[0] != '\r'
    ensures Consume(p, line) == p
  {
    TrimmedLineStart(line);
    var t := TrimCarriageReturns(line);
    assert t[0] == line[0];
    assert !(DATA <= t) by {
      assert DATA[0] == 'd';
    }
  }

  lemma DataLine(p: Parsed, payload: string)
    requires Trimmed(payload)
    ensures Consume(p, "data: " + payload) == p.(data := p.data + [payload])
  {
    var line := "data: " + payload;
    assert line[|line| - 1] != '\r' by {
      if payload != "" {
        assert line[|line| - 1] == payload[|payload| - 1];
      }
    }
    assert TrimCarriageReturns(line) == line;
    assert DATA <= line;
    var value := line[|DATA|..];
    assert value == " " + payload;
    assert LeadingSpace(value) == 1 && value[1..] == payload;
    assert TrimLeft(value) == TrimLeft(payload);
    TrimSpaceTrims(payload);
  }

  /** One terminated line at the front of the stream is consumed first. */
  lemma ConsumeFront(p: Parsed, line: string, rest: string)
    requires !Contains(line, LF)
    ensures ConsumeAll(p, CompleteLines(line + [LF] + rest)) == ConsumeAll(Consume(p, line), CompleteLines(rest))
  {
    FirstLine(line, rest);
    var lines := CompleteLines(line + [LF] + rest);
    assert lines[0] == line && lines[1..] == CompleteLines(rest);
  }

  lemma HeartbeatParses(p: Parsed, rest: string)
    requires p.data == []
    ensures ConsumeAll(p, CompleteLines(HEARTBEAT + rest)) == ConsumeAll(p, CompleteLines(rest))
  {
    var line := ": heartbeat";
    assert HEARTBEAT + rest == line + [LF] + ("" + [LF] + rest);
    ConsumeFront(p, line, "" + [LF] + rest);
    IgnoredLine(p, line);
    ConsumeFront(p, "", rest);
  }

  /** The id line and the optional event line, in front of whatever follows. */
  lemma HeaderParses(p: Parsed, e: Event, rest: string)
    requires !Contains(e.id, LF) && !Contains(e.kind, LF)
    ensures ConsumeAll(p, CompleteLines(HeaderText(e) + rest)) == ConsumeAll(p, CompleteLines(rest))
  {
    var id, kind := "id: " + e.id, "event: " + e.kind;
    NoLineFeed("id: ", e.id);
    NoLineFeed("event: ", e.kind);
    IgnoredLine(p, id);
    IgnoredLine(p, kind);
    ConsumeFront(p, kind, rest);
    if e.kind == "" {
      assert HeaderText(e) + rest == id + [LF] + rest;
      ConsumeFront(p, id, rest);
    } else {
      assert HeaderText(e) + rest == id + [LF] + (kind + [LF] + rest);
      ConsumeFront(p, id, kind + [LF] + rest);
    }
  }

  /** The data line and the blank line that dispatches it. */
  lemma BodyParses(p: Parsed, payload: string, rest: string)
    requires p.data == [] && !Contains(payload, LF) && Trimmed(payload)
    ensures ConsumeAll(p, CompleteLines("data: " + payload + "\n\n" + rest))
            == ConsumeAll(p.(payloads := p.payloads + [payload]), CompleteLines(rest))
  {
    var data, blank := "data: " + payload, "" + [LF] + rest;
    NoLineFeed("data: ", payload);
    assert data + "\n\n" + rest == data + [LF] + blank;
    ConsumeFront(p, data, blank);
    DataLine(p, payload);
    ConsumeFront(Parsed([payload], p.payloads), "", rest);
  }

  lemma EventParses(p: Parsed, e: Event, rest: string)
    requires p.data == [] && OneLine(e)
    ensures ConsumeAll(p, CompleteLines(EventText(e) + rest))
            == ConsumeAll(p.(payloads := p.payloads + [e.payload]), CompleteLines(rest))
  {
    var body := "data: " + e.payload + "\n\n";
    HeaderParses(p, e, body + rest);
    Regroup(HeaderText(e), body, rest);
    BodyParses(p, e.payload, rest);
    assert EventText(e) == HeaderText(e) + body;
  }

  lemma NoLineFeed(prefix: string, s: string)
    requires !Contains(prefix, LF) && !Contains(s, LF)
    ensures !Contains(prefix + s, LF)
  {
  }

  lemma ItemParses(payloads: seq<string>, item: Item, rest: string)
    requires item.Emit? ==> OneLine(item.event)
    ensures ConsumeAll(Parsed([], payloads), CompleteLines(ItemText(item) + rest))
            == ConsumeAll(Parsed([], payloads + ItemPayloads(item)), CompleteLines(rest))
  {
    var p := Parsed([], payloads);
    match item {
      case Heartbeat =>
        HeartbeatParses(p, rest);
        assert payloads + ItemPayloads(item) == payloads;
      case Emit(e) =>
        EventParses(p, e, rest);
    }
  }

  lemma {:induction false} PrintedParses(payloads: seq<string>, items: seq<Item>)
    requires forall item | item in items :: item.Emit? ==> OneLine(item.event)
    ensures ConsumeAll(Parsed([], payloads), CompleteLines(Printed(items)))
            == Parsed([], payloads + PayloadsOf(items))
    decreases |items|
  {
    if items == [] {
      NoLines(payloads);
      assert payloads + [] == payloads;
    } else {
      var item, rest := items[0], items[1..];
      assert item in items;
      PrintedParses(payloads + ItemPayloads(item), rest);
      PrintedStep(payloads, item, Printed(rest), PayloadsOf(rest));
    }
  }

  lemma PrintedStep(payloads: seq<string>, item: Item, text: string, later: seq<string>)
    requires item.Emit? ==> OneLine(item.event)
    requires ConsumeAll(Parsed([], payloads + ItemPayloads(item)), CompleteLines(text))
             == Parsed([], payloads + ItemPayloads(item) + later)
    ensures ConsumeAll(Parsed([], payloads), CompleteLines(ItemText(item) + text))
            == Parsed([], payloads + (ItemPayloads(item) + later))
  {
    ItemParses(payloads, item, text);
    Regroup(payloads, ItemPayloads(item), later);
  }

  lemma NoLines(payloads: seq<string>)
    ensures ConsumeAll(Parsed([], payloads), CompleteLines("")) == Parsed([], payloads)
  {
  }

  /** Printing events, with heartbeats anywhere between them, and parsing the
      result gives the payloads back in order. */
  lemma RoundTrip(items: seq<Item>)
    requires forall item | item in items :: item.Emit? ==> OneLine(item.event)
    ensures Payloads(Printed(items)) == PayloadsOf(items)
  {
    PrintedParses([], items);
    assert [] + PayloadsOf(items) == PayloadsOf(items);
  }

  // ------------------------------------------------------- lines of the reference

  /** Carriage returns at the end of a line make no difference. */
  lemma {:induction false} CarriageReturnsIgnored(p: Parsed, line: string, n: nat)
    ensures Consume(p, line + Repeated('\r', n)) == Consume(p, line)
    decreases n
  {
    if n == 0 {
      assert line + "" == line;
    } else {
      var longer := line + Repeated('\r', n - 1);
      assert line + Repeated('\r', n) == longer + "\r";
      assert (longer + "\r")[..|longer|] == longer;
      assert TrimCarriageReturns(longer + "\r") == TrimCarriageReturns(longer);
      CarriageReturnsIgnored(p, line, n - 1);
    }
  }

  function Repeated(c: char, n: nat): string
  {
    seq(n, _ => c)
  }

  /** Splitting joined lines gives them back. */
  lemma {:induction false} JoinSplits(lines: seq<string>)
    requires lines != [] && forall line | line in lines :: !Contains(line, LF)
    ensures SplitLines(Join(lines)) == lines
    decreases |lines|
  {
    assert lines[0] in lines;
    if |lines| == 1 {
      assert IndexOf(lines[0], LF) == |lines[0]|;
    } else {
      JoinSplits(lines[1..]);
      FirstLine(lines[0], Join(lines[1..]));
      assert Join(lines) == lines[0] + [LF] + Join(lines[1..]);
      Regroup([lines[0]], CompleteLines(Join(lines[1..])), [Tail(Join(lines[1..]))]);
    }
  }

  /** Data lines as they may be sent for one event. */
  function DataLines(lines: seq<string>): string
  {
    if lines == [] then "" else "data: " + lines[0] + [LF] + DataLines(lines[1..])
  }

  lemma DataLineFront(p: Parsed, line: string, later: string)
    requires !Contains(line, LF) && Trimmed(line)
    ensures ConsumeAll(p, CompleteLines("data: " + line + [LF] + later)) == ConsumeAll(p.(data := p.data + [line]), CompleteLines(later))
  {
    NoLineFeed("data: ", line);
    ConsumeFront(p, "data: " + line, later);
    DataLine(p, line);
  }

  lemma {:induction false} DataLinesAccumulate(p: Parsed, lines: seq<string>, rest: string)
    requires forall line | line in lines :: !Contains(line, LF) && Trimmed(line)
    ensures ConsumeAll(p, CompleteLines(DataLines(lines) + rest)) == ConsumeAll(p.(data := p.data + lines), CompleteLines(rest))
    decreases |lines|
  {
    if lines == [] {
      assert "" + rest == rest && p.data + [] == p.data;
    } else {
      var line, more := lines[0], lines[1..];
      assert line in lines;
      Regroup("data: " + line + [LF], DataLines(more), rest);
      DataLineFront(p, line, DataLines(more) + rest);
      DataLinesAccumulate(p.(data := p.data + [line]), more, rest);
      Regroup(p.data, [line], more);
      assert [line] + more == lines;
    }
  }

  /** An event sent over several data lines is one payload, those lines joined. */
  lemma DataLinesAreOnePayload(payloads: seq<string>, lines: seq<string>, rest: string)
    requires lines != [] && forall line | line in lines :: !Contains(line, LF) && Trimmed(line)
    ensures ConsumeAll(Parsed([], payloads), CompleteLines(DataLines(lines) + ([LF] + rest)))
            == ConsumeAll(Parsed([], payloads + [Join(lines)]), CompleteLines(rest))
  {
    var p := Parsed([], payloads);
    DataLinesAccumulate(p, lines, [LF] + rest);
    assert [] + lines == lines;
    BlankFront(Parsed(lines, payloads), rest);
  }

  lemma BlankFront(p: Parsed, rest: string)
    ensures ConsumeAll(p, CompleteLines([LF] + rest)) == ConsumeAll(Consume(p, ""), CompleteLines(rest))
  {
    ConsumeFront(p, "", rest);
    assert "" + [LF] + rest == [LF] + rest;
  }

  // ------------------------------------------------ as the standard would read it

  /** The state of an event stream parser of section 9.2.6 of the HTML Living Standard:
      the data, event type and last event ID buffers, and the events dispatched. */
  datatype Standard = Standard(data: string, kind: string, lastId: string, events: seq<Event>)

  const FRESH := Standard("", "", "", [])

  function StandardField(st: Standard, field: string, value: string): Standard
  {
    if field == "event" then st.(kind := value)
    else if field == "data" then st.(data := st.data + value + [LF])
    else if field == "id" && !Contains(value, '\0') then st.(lastId := value)
    else st
  }

  function StandardLine(st: Standard, line: string): Standard
  {
    if line == "" then
      if st.data == "" then st.(kind := "")
      else Standard("", "", st.lastId, st.events + [Event(st.lastId, st.kind, st.data[..|st.data| - 1])])
    else
      var i := IndexOf(line, ':');
      if i == 0 then st
      else if i == |line| then StandardField(st, line, "")
      else
        var value := line[i + 1..];
        StandardField(st, line[..i], if value != "" && value[0] == ' ' then value[1..] else value)
  }

  function StandardLines(st: Standard, lines: seq<string>): Standard
    decreases |lines|
  {
    if lines == [] then st else StandardLines(StandardLine(st, lines[0]), lines[1..])
  }

  lemma StandardFront(st: Standard, line: string, rest: string)
    requires !Contains(line, LF)
    ensures StandardLines(st, CompleteLines(line + [LF] + rest)) == StandardLines(StandardLine(st, line), CompleteLines(rest))
  {
    FirstLine(line, rest);
    var lines := CompleteLines(line + [LF] + rest);
    assert lines[0] == line && lines[1..] == CompleteLines(rest);
  }

  lemma FieldLine(st: Standard, field: string, value: string)
    requires field != "" && !Contains(field, ':')
    ensures StandardLine(st, field + ": " + value) == StandardField(st, field, value)
  {
    var line := field + ": " + value;
    assert line == field + [':'] + (" " + value);
    IndexAfter(field, ':', " " + value);
    assert line[..|field|] == field && line[|field| + 1..] == " " + value;
    assert (" " + value)[1..] == value;
  }

  /** What the standard needs of an event: one line each, and an identifier it stores. */
  predicate Standardly(e: Event)
  {
    OneLine(e) && !Contains(e.id, '\0')
  }

  lemma StandardHeartbeat(st: Standard, rest: string)
    requires st.data == "" && st.kind == ""
    ensures StandardLines(st, CompleteLines(HEARTBEAT + rest)) == StandardLines(st, CompleteLines(rest))
  {
    var line := ": heartbeat";
    assert HEARTBEAT + rest == line + [LF] + ("" + [LF] + rest);
    StandardFront(st, line, "" + [LF] + rest);
    assert IndexOf(line, ':') == 0;
    StandardFront(st, "", rest);
  }

  lemma FieldFront(st: Standard, field: string, value: string, rest: string)
    requires field != "" && !Contains(field, ':') && !Contains(field + ": ", LF) && !Contains(value, LF)
    ensures StandardLines(st, CompleteLines(field + ": " + value + [LF] + rest))
            == StandardLines(StandardField(st, field, value), CompleteLines(rest))
  {
    NoLineFeed(field + ": ", value);
    StandardFront(st, field + ": " + value, rest);
    FieldLine(st, field, value);
  }

  lemma IdFront(st: Standard, id: string, rest: string)
    requires !Contains(id, LF) && !Contains(id, '\0')
    ensures StandardLines(st, CompleteLines("id: " + id + "\n" + rest)) == StandardLines(st.(lastId := id), CompleteLines(rest))
  {
    assert "id" + ": " == "id: ";
    FieldFront(st, "id", id, rest);
  }

  lemma KindFront(st: Standard, kind: string, rest: string)
    requires !Contains(kind, LF)
    ensures StandardLines(st, CompleteLines("event: " + kind + "\n" + rest)) == StandardLines(st.(kind := kind), CompleteLines(rest))
  {
    assert "event" + ": " == "event: ";
    FieldFront(st, "event", kind, rest);
  }

  lemma StandardHeader(st: Standard, e: Event, rest: string)
    requires Standardly(e) && st.kind == ""
    ensures StandardLines(st, CompleteLines(HeaderText(e) + rest)) == StandardLines(st.(lastId := e.id, kind := e.kind), CompleteLines(rest))
  {
    var id := "id: " + e.id + "\n";
    if e.kind == "" {
      assert HeaderText(e) == id;
      IdFront(st, e.id, rest);
    } else {
      var kind := "event: " + e.kind + "\n";
      Regroup(id, kind, rest);
      IdFront(st, e.id, kind + rest);
      KindFront(st.(lastId := e.id), e.kind, rest);
    }
  }

  lemma StandardEvent(st: Standard, e: Event, rest: string)
    requires Standardly(e) && st.data == "" && st.kind == ""
    ensures StandardLines(st, CompleteLines(EventText(e) + rest))
            == StandardLines(Standard("", "", e.id, st.events + [e]), CompleteLines(rest))
  {
    var body := "data: " + e.payload + "\n\n";
    StandardHeader(st, e, body + rest);
    Regroup(HeaderText(e), body, rest);
    var named := st.(lastId := e.id, kind := e.kind);
    var data, blank := "data" + ": " + e.payload, "" + [LF] + rest;
    NoLineFeed("data: ", e.payload);
    assert body + rest == data + [LF] + blank;
    StandardFront(named, data, blank);
    FieldLine(named, "data", e.payload);
    var read := named.(data := "" + e.payload + [LF]);
    StandardFront(read, "", rest);
    assert read.data[..|read.data| - 1] == e.payload;
  }

  function EventsOf(items: seq<Item>): seq<Event>
  {
    if items == [] then [] else (if items[0].Emit? then [items[0].event] else []) + EventsOf(items[1..])
  }

  lemma {:induction false} StandardPrinted(st: Standard, items: seq<Item>)
    requires st.data == "" && st.kind == ""
    requires forall item | item in items :: item.Emit? ==> Standardly(item.event)
    ensures StandardLines(st, CompleteLines(Printed(items))).events == st.events + EventsOf(items)
    decreases |items|
  {
    if items == [] {
      assert CompleteLines("") == [] && st.events + [] == st.events;
    } else {
      var item, rest := items[0], items[1..];
      assert item in items;
      match item {
        case Heartbeat =>
          StandardHeartbeat(st, Printed(rest));
          StandardPrinted(st, rest);
          assert [] + EventsOf(rest) == EventsOf(rest);
        case Emit(e) =>
          StandardEvent(st, e, Printed(rest));
          StandardPrinted(Standard("", "", e.id, st.events + [e]), rest);
          Regroup(st.events, [e], EventsOf(rest));
      }
    }
  }

  /** A parser that follows the standard reads what the server prints, with heartbeats
      anywhere between, as exactly the events: identifier, type and data. */
  lemma StandardReads(items: seq<Item>)
    requires forall item | item in items :: item.Emit? ==> Standardly(item.event)
    ensures StandardLines(FRESH, CompleteLines(Printed(items))).events == EventsOf(items)
  {
    StandardPrinted(FRESH, items);
    assert [] + EventsOf(items) == EventsOf(items);
  }
}
