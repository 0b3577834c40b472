/** Both ends of the event stream: the server loops that print it, and the client
    loop that parses it from whatever pieces the connection delivers. */
module SseStream {
  import opened Wrappers
  import opened Text
  import opened SseFormat

  // ---------------------------------------------------------------------- client

  datatype Finish = EndOfStream | ReadFailed | Cancelled

  /** JSON decoding keeps the payloads that are events and drops the others. */
  function Decoded<E>(decode: string -> Option<E>, payloads: seq<string>): seq<E>
  {
    if payloads == [] then []
    else
      var n := |payloads| - 1;
      Decoded(decode, payloads[..n]) + (match decode(payloads[n]) case Some(e) => [e] case None => [])
  }

  lemma {:induction false} DecodedGrows<E>(decode: string -> Option<E>, a: seq<string>, b: seq<string>)
    requires a <= b
    ensures Decoded(decode, a) <= Decoded(decode, b)
    decreases |b|
  {
    if a != b {
      assert a <= b[..|b| - 1];
      DecodedGrows(decode, a, b[..|b| - 1]);
    }
  }

  /** Decoding by parts: one payload at a time, in order. */
  lemma {:induction false} DecodedByParts<E>(decode: string -> Option<E>, a: seq<string>, payload: string, b: seq<string>)
    ensures Decoded(decode, a + [payload] + b)
            == Decoded(decode, a) + (if decode(payload).Some? then [decode(payload).value] else []) + Decoded(decode, b)
    decreases |b|
  {
    var all := a + [payload] + b;
    if b == [] {
      assert all == a + [payload];
      DecodedOne(decode, a, payload);
      assert Decoded(decode, a + [payload]) + [] == Decoded(decode, a + [payload]);
    } else {
      var n := |b| - 1;
      assert all[..|all| - 1] == a + [payload] + b[..n] && all[|all| - 1] == b[n];
      DecodedByParts(decode, a, payload, b[..n]);
    }
  }

  /** When every payload decodes, none is lost. */
  lemma {:induction false} AllDecoded<E>(decode: string -> Option<E>, payloads: seq<string>)
    requires forall p | p in payloads :: decode(p).Some?
    ensures |Decoded(decode, payloads)| == |payloads|
    ensures forall i | 0 <= i < |payloads| :: decode(payloads[i]) == Some(Decoded(decode, payloads)[i])
  {
    if payloads != [] {
      AllDecoded(decode, payloads[..|payloads| - 1]);
    }
  }

  function Concat(chunks: seq<string>): string
  {
    if chunks == [] then "" else Concat(chunks[..|chunks| - 1]) + chunks[|chunks| - 1]
  }

  /** The inner loop of parseSSE: every complete line in the buffer, until none is left
      or the context is done when an event is ready. */
  method ProcessLines<E>(buffer: string, pending: seq<string>, ghost before: seq<string>, sent: seq<E>, looks0: nat,
                         done: nat -> bool, decode: string -> Option<E>)
    returns (buf: string, dataLines: seq<string>, ghost payloads: seq<string>, out: seq<E>, looks: nat, cancelled: bool)
    requires sent == Decoded(decode, before)
    ensures cancelled ==> exists i :: done(i)
    ensures var p := ConsumeAll(Parsed(pending, before), CompleteLines(buffer));
            && out == Decoded(decode, payloads) && payloads <= p.payloads
            && (!cancelled ==> Parsed(dataLines, payloads) == p && buf == Tail(buffer))
  {
    buf, dataLines, payloads, out, looks := buffer, pending, before, sent, looks0;
    ghost var p := ConsumeAll(Parsed(pending, before), CompleteLines(buffer));
    while true
      invariant Tail(buf) == Tail(buffer)
      invariant ConsumeAll(Parsed(dataLines, payloads), CompleteLines(buf)) == p
      invariant out == Decoded(decode, payloads)
      decreases |buf|
    {
      var idx := IndexOf(buf, LF);
      if idx == |buf| {
        return buf, dataLines, payloads, out, looks, false;
      }
      PayloadsGrow(Parsed(dataLines, payloads), CompleteLines(buf));
      TakeLine(Parsed(dataLines, payloads), buf, idx);
      var line := TrimCarriageReturns(buf[..idx]);
      buf := buf[idx + 1..];
      if line == "" {
        if |dataLines| > 0 {
          var payload := Join(dataLines);
          dataLines := [];
          var event := decode(payload);
          if event.Some? {
            if done(looks) {
              return buf, dataLines, payloads, out, looks, true;
            }
            looks := looks + 1;
            out := out + [event.value];
          }
          DecodedOne(decode, payloads, payload);
          payloads := payloads + [payload];
        }
      } else if DATA <= line {
        dataLines := dataLines + [TrimSpace(line[|DATA|..])];
      }
    }
  }

  lemma TakeLine(p: Parsed, buf: string, idx: nat)
    requires idx == IndexOf(buf, LF) < |buf|
    ensures ConsumeAll(p, CompleteLines(buf)) == ConsumeAll(Consume(p, buf[..idx]), CompleteLines(buf[idx + 1..]))
    ensures Tail(buf) == Tail(buf[idx + 1..])
  {
    var lines := CompleteLines(buf);
    assert lines[0] == buf[..idx] && lines[1..] == CompleteLines(buf[idx + 1..]);
  }

  lemma DecodedOne<E>(decode: string -> Option<E>, payloads: seq<string>, payload: string)
    ensures Decoded(decode, payloads + [payload])
            == Decoded(decode, payloads) + (match decode(payload) case Some(e) => [e] case None => [])
  {
    assert (payloads + [payload])[..|payloads|] == payloads;
  }

  /** parseSSE. `chunks` are what the connection delivers, the last one together with
      `ending`; `done(i)` is whether the i-th look at the context finds it done. However
      the stream is cut, the events are those of the whole stream. */
  method ParseSSE<E>(chunks: seq<string>, ending: Finish, done: nat -> bool, decode: string -> Option<E>)
    returns (out: seq<E>, finish: Finish)
    requires |chunks| > 0 && !ending.Cancelled?
    ensures !finish.Cancelled? ==> finish == ending && out == Decoded(decode, Payloads(Concat(chunks)))
    ensures finish.Cancelled? ==> out <= Decoded(decode, Payloads(Concat(chunks)))
    ensures finish.Cancelled? ==> exists i :: done(i)
  {
    out := [];
    var buf: string, dataLines: seq<string> := "", [];
    var looks := 0;
    ghost var payloads: seq<string> := [];
    NoLines([]);
    for i := 0 to |chunks|
      invariant buf == Tail(Concat(chunks[..i]))
      invariant Parsed(dataLines, payloads) == ConsumeAll(START, CompleteLines(Concat(chunks[..i])))
      invariant out == Decoded(decode, payloads)
    {
      if done(looks) {
        PrefixOfChunks(chunks, i);
        DecodedGrows(decode, payloads, Payloads(Concat(chunks)));
        return out, Cancelled;
      }
      looks := looks + 1;
      OneMoreChunk(chunks, i);
      var cancelled;
      buf, dataLines, payloads, out, looks, cancelled :=
        ProcessLines(buf + chunks[i], dataLines, payloads, out, looks, done, decode);
      if cancelled {
        PrefixOfChunks(chunks, i + 1);
        DecodedGrows(decode, payloads, Payloads(Concat(chunks)));
        return out, Cancelled;
      }
    }
    assert chunks[..|chunks|] == chunks;
    if ending.ReadFailed? && done(looks) {
      return out, Cancelled;
    }
    finish := ending;
  }

  /** The lines of one more chunk come after those before it, from the tail on. */
  lemma OneMoreChunk(chunks: seq<string>, i: nat)
    requires i < |chunks|
    ensures var a, b := Concat(chunks[..i]), Concat(chunks[..i + 1]);
            && ConsumeAll(START, CompleteLines(b))
               == ConsumeAll(ConsumeAll(START, CompleteLines(a)), CompleteLines(Tail(a) + chunks[i]))
            && Tail(b) == Tail(Tail(a) + chunks[i])
  {
    var a := Concat(chunks[..i]);
    assert chunks[..i + 1][..i] == chunks[..i];
    LinesOfConcat(a, chunks[i]);
    ConsumeConcat(START, CompleteLines(a), CompleteLines(Tail(a) + chunks[i]));
  }

  /** What the first chunks gave is the beginning of what they all give. */
  lemma PrefixOfChunks(chunks: seq<string>, i: nat)
    requires i <= |chunks|
    ensures Payloads(Concat(chunks[..i])) <= Payloads(Concat(chunks))
  {
    ConcatPrefix(chunks, i);
    CutStreamGivesPrefix(Concat(chunks[..i]), Concat(chunks));
  }

  lemma {:induction false} ConcatPrefix(chunks: seq<string>, i: nat)
    requires i <= |chunks|
    ensures Concat(chunks[..i]) <= Concat(chunks)
    decreases |chunks|
  {
    if i < |chunks| {
      var shorter := chunks[..|chunks| - 1];
      assert shorter[..i] == chunks[..i];
      ConcatPrefix(shorter, i);
    } else {
      assert chunks[..i] == chunks;
    }
  }

  // ---------------------------------------------------------------------- server

  /** What the select loop sees next: an event, an event with no JSON text, a heartbeat
      tick, or the end. */
  datatype Signal = Arrived(event: Event) | Unencodable(kind: string) | Tick | Ended

  const DEVICE_KINDS := {
    "agent.awaiting_approval", "deployment.completed", "ci.failed", "backup.failed",
    "service.unhealthy", "service.healthy", "host.disk_low", "syncthing.conflict",
    "environment.changed", "companion.revoked"
  }

  predicate DeviceRelevant(kind: string)
  {
    kind in DEVICE_KINDS || "workspace." <= kind
  }

  /** Whether the handler returns at this signal; the companion stream skips an irrelevant
      event before it is encoded. */
  predicate Ends(signal: Signal, companion: bool)
  {
    signal.Ended? || (signal.Unencodable? && (companion ==> DeviceRelevant(signal.kind)))
  }

  /** The kinds of event a device is told about, read off the text. */
  lemma DeviceRelevantIs(kind: string)
    ensures DeviceRelevant(kind) <==>
              || kind in {"agent.awaiting_approval", "deployment.completed", "ci.failed", "backup.failed", "service.unhealthy",
                          "service.healthy", "host.disk_low", "syncthing.conflict", "environment.changed", "companion.revoked"}
              || exists rest :: kind == "workspace." + rest
  {
    if "workspace." <= kind {
      assert kind == "workspace." + kind[|"workspace."|..];
    }
  }

  function OwedFor(signal: Signal, companion: bool): seq<Item>
  {
    match signal
    case Tick => [Heartbeat]
    case Arrived(e) => if companion && !DeviceRelevant(e.kind) then [] else [Emit(e)]
    case _ => []
  }

  /** What a stream owes its client for the signals before the one that ends it. */
  function Owed(signals: seq<Signal>, companion: bool): seq<Item>
  {
    if signals == [] || Ends(signals[0], companion) then []
    else OwedFor(signals[0], companion) + Owed(signals[1..], companion)
  }

  lemma PrintedOwed(signals: seq<Signal>, companion: bool)
    requires signals != [] && !Ends(signals[0], companion)
    ensures Printed(Owed(signals, companion))
            == Printed(OwedFor(signals[0], companion)) + Printed(Owed(signals[1..], companion))
  {
    var first, rest := OwedFor(signals[0], companion), Owed(signals[1..], companion);
    if first == [] {
      assert first + rest == rest;
    } else {
      assert first == [first[0]] && first[1..] == [];
      assert (first + rest)[0] == first[0] && (first + rest)[1..] == rest;
    }
  }

  /** The response writer: it takes `capacity` bytes in all, then every write fails. */
  class Response {
    var wire: string
    const capacity: nat

    constructor (capacity: nat)
      ensures wire == "" && this.capacity == capacity
    {
      this.wire, this.capacity := "", capacity;
    }

    /** The first `n` bytes of `text` that still fit. */
    static function Fitting(text: string, n: nat): (part: string)
      ensures part <= text && (|text| <= n ==> part == text) && (|text| > n ==> |part| == n)
    {
      if |text| <= n then text else text[..n]
    }

    method Write(text: string) returns (ok: bool)
      requires |wire| <= capacity
      modifies this
      ensures wire == Fitting(old(wire) + text, capacity)
      ensures ok <==> |old(wire)| + |text| <= capacity
    {
      var room := capacity - |wire|;
      ok := |text| <= room;
      assert old(wire) + text[..if ok then |text| else room] == Fitting(old(wire) + text, capacity);
      wire := wire + text[..if ok then |text| else room];
    }

    /** writeSSEEvent: the id, the event name unless it is empty, and the data. */
    method WriteEvent(e: Event) returns (ok: bool)
      requires |wire| <= capacity
      modifies this
      ensures wire == Fitting(old(wire) + EventText(e), capacity)
      ensures ok <==> |old(wire)| + |EventText(e)| <= capacity
    {
      ghost var w0 := wire;
      var id := "id: " + e.id + "\n";
      var kind := if e.kind != "" then "event: " + e.kind + "\n" else "";
      var data := "data: " + e.payload + "\n\n";
      assert EventText(e) == id + kind + data;
      assert w0 + EventText(e) == w0 + id + kind + data;
      ok := Write(id);
      if !ok {
        return;
      }
      if e.kind != "" {
        ok := Write(kind);
        if !ok {
          return;
        }
      }
      assert wire == w0 + id + kind;
      ok := Write(data);
    }

    /** One turn of the select loop; not `ok` when the handler returns. */
    method Send(signal: Signal, companion: bool) returns (ok: bool)
      requires |wire| <= capacity
      modifies this
      ensures wire == Fitting(old(wire) + Printed(OwedFor(signal, companion)), capacity)
      ensures signal.Tick? ==> wire == Fitting(old(wire) + ": heartbeat\n\n", capacity)
      ensures ok <==> |old(wire)| + |Printed(OwedFor(signal, companion))| <= capacity && !Ends(signal, companion)
    {
      ok := true;
      match signal {
        case Tick =>
          assert Printed([Heartbeat]) == HEARTBEAT;
          ok := Write(HEARTBEAT);
        case Arrived(e) =>
          if !companion || DeviceRelevant(e.kind) {
            assert Printed([Emit(e)]) == EventText(e);
            ok := WriteEvent(e);
          } else {
            assert wire + "" == wire;
          }
        case Unencodable(kind) =>
          ok := companion && !DeviceRelevant(kind);
          assert wire + "" == wire;
        case Ended =>
          ok := false;
          assert wire + "" == wire;
      }
    }

    /** That turn, on the way to all that is `owed`. */
    method Turn(signals: seq<Signal>, i: nat, companion: bool, ghost owed: string) returns (ok: bool)
      requires i < |signals| && |wire| <= capacity
      requires owed == wire + Printed(Owed(signals[i..], companion))
      modifies this
      ensures ok ==> |wire| <= capacity && owed == wire + Printed(Owed(signals[i + 1..], companion))
      ensures !ok ==> wire == Fitting(owed, capacity)
    {
      TurnOwed(wire, signals, i, companion, owed, capacity);
      ok := Send(signals[i], companion);
    }

    /** handleStreamEvents, and with `companion` handleCompanionStreamEvents: the wire
        carries exactly what is owed, or, when a write fails, the part that fitted. */
    method Stream(signals: seq<Signal>, companion: bool)
      requires wire == ""
      modifies this
      ensures wire == Fitting(Printed(Owed(signals, companion)), capacity)
    {
      var i := 0;
      ghost var owed := Printed(Owed(signals, companion));
      assert signals[0..] == signals;
      while i < |signals|
        invariant i <= |signals|
        invariant |wire| <= capacity
        invariant owed == wire + Printed(Owed(signals[i..], companion))
      {
        var ok := Turn(signals, i, companion, owed);
        if !ok {
          return;
        }
        i := i + 1;
      }
      assert Printed([]) == "";
    }
  }

  /** One turn of the loop: `owed` splits at the next signal, and if that signal does
      not fit, what follows it does not matter. */
  lemma SplitOwed(before: string, signals: seq<Signal>, i: nat, companion: bool, owed: string, capacity: nat)
    requires i < |signals| && !Ends(signals[i], companion) && |before| <= capacity
    requires owed == before + Printed(Owed(signals[i..], companion))
    ensures var text := Printed(OwedFor(signals[i], companion));
            && owed == before + text + Printed(Owed(signals[i + 1..], companion))
            && (|before| + |text| > capacity ==>
                  Response.Fitting(before + text, capacity) == Response.Fitting(owed, capacity))
            && (|before| + |text| <= capacity ==> Response.Fitting(before + text, capacity) == before + text)
  {
    assert signals[i..][1..] == signals[i + 1..];
    PrintedOwed(signals[i..], companion);
    SplitText(before, Printed(OwedFor(signals[i], companion)), Printed(Owed(signals[i + 1..], companion)), capacity);
  }

  /** The same where the signal may end the stream: then nothing more is owed. */
  lemma TurnOwed(before: string, signals: seq<Signal>, i: nat, companion: bool, owed: string, capacity: nat)
    requires i < |signals| && |before| <= capacity
    requires owed == before + Printed(Owed(signals[i..], companion))
    ensures var text := Printed(OwedFor(signals[i], companion));
            && (Ends(signals[i], companion) ==> owed == before && text == "" && Response.Fitting(owed, capacity) == before)
            && (!Ends(signals[i], companion) ==>
                  && owed == before + text + Printed(Owed(signals[i + 1..], companion))
                  && Response.Fitting(before + text, capacity)
                     == (if |before| + |text| > capacity then Response.Fitting(owed, capacity) else before + text))
  {
    if Ends(signals[i], companion) {
      assert signals[i..][0] == signals[i];
      assert before + "" == before;
    } else {
      SplitOwed(before, signals, i, companion, owed, capacity);
    }
  }

  lemma SplitText(before: string, text: string, later: string, capacity: nat)
    requires |before| <= capacity
    ensures before + (text + later) == before + text + later
    ensures |before| + |text| > capacity ==>
              Response.Fitting(before + text, capacity) == Response.Fitting(before + (text + later), capacity)
  {
  }

  // ------------------------------------------------------------------- end to end

  function Relevant(signals: seq<Signal>, companion: bool): seq<string>
  {
    if signals == [] || Ends(signals[0], companion) then []
    else if signals[0].Arrived? && (companion ==> DeviceRelevant(signals[0].event.kind))
    then [signals[0].event.payload] + Relevant(signals[1..], companion)
    else Relevant(signals[1..], companion)
  }

  /** What is delivered, signal by signal: an event on the plain stream, and on the
      companion stream one a device is told about; nothing for a heartbeat; nothing more
      after the end. */
  lemma RelevantIs(signal: Signal, rest: seq<Signal>, companion: bool)
    ensures signal.Arrived? && (!companion || DeviceRelevant(signal.event.kind)) ==>
              Relevant([signal] + rest, companion) == [signal.event.payload] + Relevant(rest, companion)
    ensures signal.Tick? || (companion && signal.Arrived? && !DeviceRelevant(signal.event.kind)) ==>
              Relevant([signal] + rest, companion) == Relevant(rest, companion)
    ensures signal.Ended? ==> Relevant([signal] + rest, companion) == []
    ensures Relevant([], companion) == []
  {
    assert ([signal] + rest)[1..] == rest;
  }

  lemma {:induction false} OwedPayloads(signals: seq<Signal>, companion: bool)
    requires forall s | s in signals :: s.Arrived? ==> OneLine(s.event)
    ensures PayloadsOf(Owed(signals, companion)) == Relevant(signals, companion)
    ensures forall item | item in Owed(signals, companion) :: item.Emit? ==> OneLine(item.event)
    decreases |signals|
  {
    if signals != [] && !Ends(signals[0], companion) {
      var first, rest := OwedFor(signals[0], companion), Owed(signals[1..], companion);
      assert signals[0] in signals;
      OwedPayloads(signals[1..], companion);
      if first != [] {
        assert (first + rest)[0] == first[0] && (first + rest)[1..] == rest;
      } else {
        assert first + rest == rest;
      }
    }
  }

  /** Server to client, through any interleaving of heartbeats, any point where the
      connection breaks, and any chunking: the client gets the payloads of the
      (device-relevant) events in order, all of them when everything was written. */
  method ServeAndParse<E>(signals: seq<Signal>, companion: bool, response: Response, chunks: seq<string>,
                          done: nat -> bool, decode: string -> Option<E>)
    returns (out: seq<E>, finish: Finish)
    requires response.wire == "" && |chunks| > 0
    requires forall s | s in signals :: s.Arrived? ==> OneLine(s.event)
    requires Concat(chunks) == Response.Fitting(Printed(Owed(signals, companion)), response.capacity)
    modifies response
    ensures response.wire == Concat(chunks)
    ensures out <= Decoded(decode, Relevant(signals, companion))
    ensures !finish.EndOfStream? ==> finish.Cancelled? && exists i :: done(i)
    ensures finish.EndOfStream? && |Printed(Owed(signals, companion))| <= response.capacity ==>
              out == Decoded(decode, Relevant(signals, companion))
  {
    response.Stream(signals, companion);
    out, finish := ParseSSE(chunks, EndOfStream, done, decode);
    DeliveredPrefix(signals, companion, response.capacity);
    DecodedGrows(decode, Payloads(Concat(chunks)), Relevant(signals, companion));
  }

  lemma DeliveredPrefix(signals: seq<Signal>, companion: bool, capacity: nat)
    requires forall s | s in signals :: s.Arrived? ==> OneLine(s.event)
    ensures var text := Printed(Owed(signals, companion));
            && Payloads(Response.Fitting(text, capacity)) <= Relevant(signals, companion)
            && (|text| <= capacity ==> Payloads(Response.Fitting(text, capacity)) == Relevant(signals, companion))
  {
    var text := Printed(Owed(signals, companion));
    OwedPayloads(signals, companion);
    RoundTrip(Owed(signals, companion));
    CutStreamGivesPrefix(Response.Fitting(text, capacity), text);
  }
}
