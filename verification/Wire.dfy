/** From values to values over the wire: printing, sending, receiving, and the loop that reads commands
    out of a line. */
module Wire {
  import opened Bytes
  import opened Json
  import opened Wrappers
  import ParseSpec
  import Parser
  import RoundTrip
  import opened Terminated
  import Ipc
  import Buffer

  /** What stands between commands is skipped by a narrower rule than the parser's own. */
  predicate IsGap(b: byte) {
    b == SPACE || b == NEWLINE || b == RETURN || b == TAB
  }

  function SkipGaps(s: bytes): (r: bytes)
    ensures |r| <= |s|
  {
    if s == [] || !IsGap(s[0]) then s else SkipGaps(s[1..])
  }

  /** The values `process_incoming_json` hands on from a text, up to the first one it cannot parse. */
  function Commands(text: bytes): seq<Json>
    decreases |text|
  {
    var t := SkipGaps(text);
    if t == [] then []
    else
      match ParseSpec.ParseBuffer(t + [NUL], false)
      case None => []
      case Some((v, rest)) =>
        TextKeepsTerminator(t);
        [v] + Commands(t[|t| + 1 - |rest|..])
  }

  lemma GapAt(s: bytes, at: nat)
    requires at < |s|
    ensures IsGap(s[at]) ==> SkipGaps(s[at..]) == SkipGaps(s[at + 1..])
    ensures !IsGap(s[at]) ==> SkipGaps(s[at..]) == s[at..]
  {
    assert s[at..][1..] == s[at + 1..];
  }

  /** One command at the front of a text that starts with none of the gaps. */
  lemma CommandAt(text: bytes, at: nat, v: Json, end: nat)
    requires at < |text| && !IsGap(text[at]) && end <= |text| - at + 1
    requires ParseSpec.ParseBuffer(text[at..] + [NUL], false) == Some((v, (text[at..] + [NUL])[end..]))
    ensures 0 < end <= |text| - at && Commands(text[at..]) == [v] + Commands(text[at + end..])
  {
    hide ParseSpec.ParseBuffer;
    var t := text[at..];
    GapAt(text, at);
    TextKeepsTerminator(t);
    assert t[end..] == text[at + end..];
  }

  lemma NothingLeft(text: bytes, at: nat)
    requires at == |text|
    ensures Commands(text[at..]) == []
  {
  }

  lemma GapSkipped(text: bytes, at: nat)
    requires at < |text| && IsGap(text[at])
    ensures Commands(text[at..]) == Commands(text[at + 1..])
  {
    hide ParseSpec.ParseBuffer;
    GapAt(text, at);
  }

  lemma NoCommandAt(text: bytes, at: nat)
    requires at < |text| && !IsGap(text[at]) && ParseSpec.ParseBuffer(text[at..] + [NUL], false) == None
    ensures Commands(text[at..]) == []
  {
    GapAt(text, at);
  }

  /** `process_incoming_json` on a message of the wire, which may hold NULs. */
  method ProcessIncoming(msg: bytes) returns (commands: seq<Json>)
    ensures commands == Commands(CString(msg))
  {
    hide Commands, ParseSpec.ParseBuffer, CString;
    ghost var text := CString(msg);
    commands := [];
    var p: nat := 0;
    assert text[0..] == text && [] + Commands(text) == Commands(text);
    while p < |msg| && msg[p] != NUL
      invariant p <= |text| && Commands(text) == commands + Commands(text[p..])
      decreases |text| - p
    {
      assert text[p] == msg[p];
      while p < |msg| && msg[p] != NUL && IsGap(msg[p])
        invariant p <= |text| && Commands(text) == commands + Commands(text[p..])
        decreases |text| - p
      {
        GapSkipped(text, p);
        p := p + 1;
      }
      if p >= |msg| || msg[p] == NUL {
        break;
      }
      var t := CString(msg[p..]);
      CStringFrom(msg, p);
      var r, end := Parser.ParseWithLength(t + [NUL], false);
      if r.None? {
        NoCommandAt(text, p);
        break;
      }
      CommandAt(text, p, r.value, end);
      commands := commands + [r.value];
      p := p + end;
    }
    if p == |text| { NothingLeft(text, p); }
    assert commands + [] == commands;
  }

  /** What an event brings: which of the three it is, what a write comes back with, and what reads do. */
  datatype Event = Event(error: bool, writable: bool, readable: bool, w: Ipc.WriteResult, script: seq<Ipc.ReadResult>)

  /** How much is still to be written after the event. */
  function LeftPending(pending: nat, e: Event): nat {
    if !e.error && e.writable && e.w.Wrote? then pending - Min(pending, e.w.n) else pending
  }

  /** The event gets as far as reading. */
  predicate Reads(pending: nat, e: Event) {
    e.readable && !e.error && !(e.writable && e.w.WriteFailed? && pending > 0)
  }

  /** `handle_client_event`: one flush, one line, and its commands. The connection is given up exactly when the
      event is an error, the flush fails, or no whole line comes before a read without data, be it only that
      the rest of the line has not arrived yet. */
  method HandleClientEvent(conn: Ipc.IpcConn, e: Event) returns (disconnect: bool, commands: seq<Json>)
    requires conn.Valid() && forall i :: 0 <= i < |e.script| ==> Ipc.IsRead(e.script[i])
    requires e.w.Wrote? ==> e.w.n <= conn.outBuf.len - conn.outPos
    modifies conn, conn.readBuf, conn.readBuf.data, conn.outBuf
    ensures conn.Valid() && conn.sent == old(conn.sent)
    ensures conn.outBuf.len - conn.outPos == LeftPending(old(conn.outBuf.len - conn.outPos), e)
    ensures conn.readBuf.data == old(conn.readBuf.data) || fresh(conn.readBuf.data)
    ensures var o := Ipc.ReadLine(old(conn.readBuf.Contents()), e.script);
            if !Reads(old(conn.outBuf.len - conn.outPos), e) then
              && disconnect == (e.error || (e.writable && e.w.WriteFailed? && old(conn.outPos < conn.outBuf.len)))
              && conn.readBuf.Contents() == old(conn.readBuf.Contents()) && conn.received == old(conn.received)
              && conn.returned == old(conn.returned) && commands == []
            else
              && disconnect == !o.r.Message?
              && conn.readBuf.Contents() == o.left
              && conn.received == old(conn.received) + Ipc.Delivered(e.script[..o.used])
              && conn.returned == old(conn.returned) + (if o.r.Message? then [o.r.msg] else [])
              && commands == if o.r.Message? then Commands(CString(o.r.msg)) else []
  {
    hide Commands, CString, Ipc.ReadLine, Ipc.Framed, Ipc.Delivered, Buffer.HwBuffer.Valid;
    disconnect, commands := e.error, [];
    if !disconnect && e.writable {
      var flushed := conn.Flush(e.w);
      disconnect := flushed.Broken?;
    }
    if !disconnect && e.readable {
      var res, _ := conn.Recv(e.script);
      if res.Message? {
        commands := ProcessIncoming(res.msg);
      } else {
        disconnect := true;
      }
    }
  }

  // ----- several values in one text -----

  /** A value as it stands in a text: what is before it and how it is printed. */
  datatype Printed = Printed(gap: bytes, value: Json, format: bool)

  function TextOf(ps: seq<Printed>, last: bytes): bytes {
    if ps == [] then last else ps[0].gap + (Render(ps[0].value, ps[0].format, 0) + TextOf(ps[1..], last))
  }

  function ValuesOf(ps: seq<Printed>): seq<Json> {
    if ps == [] then [] else [ps[0].value] + ValuesOf(ps[1..])
  }

  /** Spaces, line feeds, carriage returns and tabs. */
  predicate AreGaps(s: bytes) {
    forall i :: 0 <= i < |s| ==> s[i] == 32 || s[i] == 10 || s[i] == 13 || s[i] == 9
  }

  /** Only gaps stand between the values, and behind each is no byte a number could go on with. */
  ghost predicate Separated(ps: seq<Printed>, last: bytes) {
    if ps == [] then AreGaps(last)
    else
      AreGaps(ps[0].gap) && Sendable(ps[0].value) && RoundTrip.Stops(TextOf(ps[1..], last)) && Separated(ps[1..], last)
  }

  lemma {:induction false} GapsSkipped(w: bytes, s: bytes)
    requires AreGaps(w)
    ensures Commands(w + s) == Commands(s)
  {
    hide Commands;
    if w == [] {
      assert w + s == s;
    } else {
      GapsSkipped(w[1..], s);
      assert (w + s)[0..] == w + s && (w + s)[1..] == w[1..] + s;
      GapSkipped(w + s, 0);
    }
  }

  /** A printed value at the front of a text, read by the parser. */
  lemma ValueInFront(v: Json, format: bool, t: bytes)
    requires Sendable(v) && RoundTrip.Stops(t)
    ensures var text := Render(v, format, 0) + t;
            && text != [] && !IsGap(text[0])
            && ParseSpec.ParseBuffer(text + [NUL], false) == Some((v, t + [NUL]))
  {
    hide Render, ParseSpec.ParseValue, ParseSpec.SkipBlanks, ParseSpec.SkipBom;
    RenderStarts(v, format, 0);
    var s := Render(v, format, 0) + (t + [NUL]);
    assert Render(v, format, 0) + t + [NUL] == s;
    RoundTrip.NoBom(s);
    RoundTrip.NoBlanks(s);
    RoundTrip.ValueParses(v, format, 0, 0, t + [NUL]);
  }

  /** Any values printed one after another in one text are all read, in order. */
  lemma {:induction false} CommandsOfSeveral(ps: seq<Printed>, last: bytes)
    requires Separated(ps, last)
    ensures Commands(TextOf(ps, last)) == ValuesOf(ps)
  {
    hide Commands, Render, ParseSpec.ParseBuffer;
    if ps == [] {
      GapsSkipped(last, []);
      assert last + [] == last;
      var none: bytes := [];
      assert none[0..] == none;
      NothingLeft([], 0);
    } else {
      var v, format, t := ps[0].value, ps[0].format, TextOf(ps[1..], last);
      var text := Render(v, format, 0) + t;
      GapsSkipped(ps[0].gap, text);
      ValueInFront(v, format, t);
      var end := |Render(v, format, 0)|;
      assert text[0..] == text && (text + [NUL])[end..] == t + [NUL] && text[end..] == t;
      CommandAt(text, 0, v, end);
      CommandsOfSeveral(ps[1..], last);
    }
  }

  // ----- end to end -----

  /** The messages a list of values is sent as: each printed without formatting. */
  function Messages(values: seq<Json>): seq<bytes> {
    seq(|values|, i requires 0 <= i < |values| => Render(values[i], false, 0))
  }

  ghost predicate Sendable(v: Json) {
    Wf(v) && Nesting(v) <= ParseSpec.NESTING_LIMIT
  }

  lemma RenderedIsLine(v: Json)
    ensures Ipc.IsLine(Render(v, false, 0))
  {
    RenderBytes(v, false, 0);
  }

  /** A printed value read as commands is that one value. */
  lemma CommandsOfRendered(v: Json)
    requires Sendable(v)
    ensures Commands(CString(Render(v, false, 0))) == [v]
  {
    hide Render, ParseSpec.ParseBuffer, Commands, CString;
    var text := Render(v, false, 0);
    RenderBytes(v, false, 0);
    RenderStarts(v, false, 0);
    CStringOfTerminated(text, []);
    RoundTrip.TextRoundTrip(v, false, false);
    assert text[0..] == text && (text + [NUL])[|text|..] == [NUL];
    CommandAt(text, 0, v, |text|);
    NothingLeft(text, |text|);
  }

  /** The commands of a run of messages. */
  function AllCommands(ms: seq<bytes>): seq<Json> {
    if ms == [] then [] else Commands(CString(ms[0])) + AllCommands(ms[1..])
  }

  lemma {:induction false} AllCommandsOfMessages(values: seq<Json>)
    requires forall i :: 0 <= i < |values| ==> Sendable(values[i])
    ensures AllCommands(Messages(values)) == values
  {
    hide Commands, Render;
    if values != [] {
      CommandsOfRendered(values[0]);
      AllCommandsOfMessages(values[1..]);
      assert Messages(values)[1..] == Messages(values[1..]);
      assert [values[0]] + values[1..] == values;
    }
  }

  /** Any list of values, each sent as one line, under any partial writes and any chunking of the reads:
      what has been received and processed is the first of those values, in order, and all of them once
      nothing is left on the way. */
  lemma EndToEnd(sender: Ipc.IpcConn, receiver: Ipc.IpcConn, values: seq<Json>)
    requires sender.Valid() && receiver.Valid()
    requires forall i :: 0 <= i < |values| ==> Sendable(values[i])
    requires sender.sent == Messages(values) && receiver.received <= sender.written
    ensures |receiver.returned| <= |values| && AllCommands(receiver.returned) == values[..|receiver.returned|]
    ensures (sender.outPos == sender.outBuf.len && receiver.received == sender.written &&
             Ipc.IsLine(receiver.readBuf.Contents())) ==> AllCommands(receiver.returned) == values
  {
    hide Commands, Render;
    forall i | 0 <= i < |values| ensures Ipc.IsLine(sender.sent[i]) {
      RenderedIsLine(values[i]);
    }
    Ipc.Delivery(sender, receiver);
    var n := |receiver.returned|;
    assert receiver.returned == sender.sent[..n] == Messages(values[..n]);
    AllCommandsOfMessages(values[..n]);
  }

  // ----- runs of events -----

  /** What a run of events comes to: whether the connection survives, the lines returned, and the bytes that were
      read. */
  datatype Served = Served(alive: bool, lines: seq<bytes>, arrived: bytes)

  function ServedBy(buffered: bytes, pending: nat, events: seq<Event>): Served
    decreases |events|
  {
    if events == [] then Served(true, [], [])
    else
      var e, others := events[0], events[1..];
      if Reads(pending, e) then
        var o := Ipc.ReadLine(buffered, e.script);
        var arrived := Ipc.Delivered(e.script[..o.used]);
        if !o.r.Message? then Served(false, [], arrived)
        else
          var s := ServedBy(o.left, LeftPending(pending, e), others);
          Served(s.alive, [o.r.msg] + s.lines, arrived + s.arrived)
      else if e.error || (e.writable && e.w.WriteFailed? && pending > 0) then Served(false, [], [])
      else ServedBy(buffered, LeftPending(pending, e), others)
  }

  predicate Survives(buffered: bytes, pending: nat, e: Event) {
    && !e.error && !(e.writable && e.w.WriteFailed? && pending > 0)
    && (e.readable ==> Ipc.ReadLine(buffered, e.script).r.Message?)
  }

  /** No error, no failing write, and every read event completes a line. */
  predicate SurvivesAll(buffered: bytes, pending: nat, events: seq<Event>)
    decreases |events|
  {
    events == [] ||
    (Survives(buffered, pending, events[0]) &&
     SurvivesAll(if events[0].readable then Ipc.ReadLine(buffered, events[0].script).left else buffered,
                 LeftPending(pending, events[0]), events[1..]))
  }

  function ReadEvents(events: seq<Event>): nat {
    if events == [] then 0 else (if events[0].readable then 1 else 0) + ReadEvents(events[1..])
  }

  /** A connection survives exactly when every event is survived, and then each read event has returned a line. */
  lemma {:induction false} ServedAlive(buffered: bytes, pending: nat, events: seq<Event>)
    ensures var s := ServedBy(buffered, pending, events);
            && (s.alive <==> SurvivesAll(buffered, pending, events))
            && (s.alive ==> |s.lines| == ReadEvents(events))
    decreases |events|
  {
    hide Ipc.ReadLine, Ipc.Delivered;
    if events != [] {
      var e := events[0];
      var left := if e.readable then Ipc.ReadLine(buffered, e.script).left else buffered;
      ServedAlive(left, LeftPending(pending, e), events[1..]);
    }
  }

  /** A read that brings only the start of a line is not survived. */
  lemma PartialLine()
    ensures var e := Event(false, false, true, Ipc.WriteAgain, [Ipc.Data([123]), Ipc.ReadAgain]);
            ServedBy([], 0, [e]) == Served(false, [], [123])
  {
    var script := [Ipc.Data([123]), Ipc.ReadAgain];
    var none: bytes, m: bytes := [], [123];
    assert script[1..] == [Ipc.ReadAgain] && none + m == m;
    assert Ipc.ReadLine(none, script) == Ipc.Reading(Ipc.Again, m, 2);
    assert script[..2] == script && script[..1] == [Ipc.Data(m)] && script[..0] == [];
    assert Ipc.Delivered(script[..1]) == none + m;
    assert Ipc.Delivered(script) == m + none;
  }

  lemma {:induction false} AllCommandsAppend(ms: seq<bytes>, m: bytes)
    ensures AllCommands(ms + [m]) == AllCommands(ms) + Commands(CString(m))
  {
    hide Commands, CString;
    var last := Commands(CString(m));
    if ms == [] {
      assert [] + [m] == [m] && [m][1..] == [];
      assert AllCommands([m]) == last + AllCommands([]);
    } else {
      AllCommandsAppend(ms[1..], m);
      assert (ms + [m])[1..] == ms[1..] + [m];
      var first, mid := Commands(CString(ms[0])), AllCommands(ms[1..]);
      assert first + (mid + last) == first + mid + last;
    }
  }

  /** Any run of events does to the connection exactly what `ServedBy` says: it survives if and only if there is no
      error, no write fails and every read event completes a line, and what is handed on are the commands of the lines
      returned. On a new connection, if the bytes that arrive start a stream of printed values, those commands are the
      first of these values, in order. */
  method ServeEvents(conn: Ipc.IpcConn, events: seq<Event>, ghost values: seq<Json>)
    returns (alive: bool, commands: seq<Json>)
    requires conn.Valid()
    requires forall n, i :: 0 <= n < |events| && 0 <= i < |events[n].script| ==> Ipc.IsRead(events[n].script[i])
    modifies conn, conn.readBuf, conn.readBuf.data, conn.outBuf
    ensures conn.Valid()
    ensures var s := ServedBy(old(conn.readBuf.Contents()), old(conn.outBuf.len - conn.outPos), events);
            && alive == s.alive && commands == AllCommands(s.lines)
            && conn.returned == old(conn.returned) + s.lines && conn.received == old(conn.received) + s.arrived
    ensures alive <==> SurvivesAll(old(conn.readBuf.Contents()), old(conn.outBuf.len - conn.outPos), events)
    ensures alive ==> |conn.returned| == |old(conn.returned)| + ReadEvents(events)
    ensures var s := ServedBy(old(conn.readBuf.Contents()), old(conn.outBuf.len - conn.outPos), events);
            old(conn.received) == [] && AllSendable(values) && s.arrived <= Ipc.Framed(Messages(values)) ==>
              |s.lines| <= |values| && commands == values[..|s.lines|]
  {
    hide AllCommands, SurvivesAll, ServedBy, After, Ipc.Framed, AllSendable, Buffer.HwBuffer.Valid;
    ghost var all := ServedBy(conn.readBuf.Contents(), conn.outBuf.len - conn.outPos, events);
    ServedAlive(conn.readBuf.Contents(), conn.outBuf.len - conn.outPos, events);
    NothingServed(conn.readBuf.Contents(), conn.outBuf.len - conn.outPos, events);
    alive, commands := true, [];
    ghost var so := Served(true, [], []);
    assert events[0..] == events;
    var n := 0;
    while alive && n < |events|
      invariant n <= |events| && conn.Valid() && alive == so.alive
      invariant conn.readBuf.data == old(conn.readBuf.data) || fresh(conn.readBuf.data)
      invariant conn.returned == old(conn.returned) + so.lines && conn.received == old(conn.received) + so.arrived
      invariant commands == AllCommands(so.lines)
      invariant all == After(so, conn.readBuf.Contents(), conn.outBuf.len - conn.outPos, events[n..])
      decreases alive, |events| - n
    {
      commands, alive, so := ServeOne(conn, events, n, commands, so, old(conn.returned), old(conn.received));
      n := n + 1;
    }
    ServedNoMore(so, conn.readBuf.Contents(), conn.outBuf.len - conn.outPos, events, n);
    NewConnection(conn, old(conn.returned), old(conn.received), old(conn.readBuf.Contents()), all, values);
  }

  /** One event of a run. */
  method ServeOne(conn: Ipc.IpcConn, events: seq<Event>, n: nat, commands: seq<Json>, ghost so: Served,
                  ghost returned: seq<bytes>, ghost received: bytes)
    returns (more: seq<Json>, alive: bool, ghost now: Served)
    requires conn.Valid() && n < |events| && so.alive && commands == AllCommands(so.lines)
    requires conn.returned == returned + so.lines && conn.received == received + so.arrived
    requires forall i :: 0 <= i < |events[n].script| ==> Ipc.IsRead(events[n].script[i])
    modifies conn, conn.readBuf, conn.readBuf.data, conn.outBuf
    ensures conn.Valid() && (conn.readBuf.data == old(conn.readBuf.data) || fresh(conn.readBuf.data))
    ensures more == AllCommands(now.lines) && alive == now.alive
    ensures conn.returned == returned + now.lines && conn.received == received + now.arrived
    ensures After(so, old(conn.readBuf.Contents()), old(conn.outBuf.len - conn.outPos), events[n..]) ==
            After(now, conn.readBuf.Contents(), conn.outBuf.len - conn.outPos, events[n + 1..])
  {
    hide AllCommands, ServedBy, Ipc.ReadLine, Ipc.Delivered, Commands, CString, Ipc.Framed, Buffer.HwBuffer.Valid;
    var e := events[n];
    ServedNext(so, conn.readBuf.Contents(), conn.outBuf.len - conn.outPos, events, n);
    var w := if e.w.Wrote? then Ipc.Wrote(Min(e.w.n, conn.outBuf.len - conn.outPos)) else e.w;
    ghost var got, o := Reads(conn.outBuf.len - conn.outPos, e), Ipc.ReadLine(conn.readBuf.Contents(), e.script);
    var disconnect, found := HandleClientEvent(conn, e.(w := w));
    now := Served(!disconnect, so.lines, so.arrived);
    if got {
      now := now.(arrived := so.arrived + Ipc.Delivered(e.script[..o.used]));
      if o.r.Message? {
        AllCommandsAppend(so.lines, o.r.msg);
        now := now.(lines := so.lines + [o.r.msg]);
      }
    }
    more, alive := commands + found, !disconnect;
  }

  /** What a run comes to that has come to `so`, with these events left. */
  function After(so: Served, buffered: bytes, pending: nat, events: seq<Event>): Served {
    if !so.alive then so
    else
      var s := ServedBy(buffered, pending, events);
      Served(s.alive, so.lines + s.lines, so.arrived + s.arrived)
  }

  lemma NothingServed(buffered: bytes, pending: nat, events: seq<Event>)
    ensures After(Served(true, [], []), buffered, pending, events) == ServedBy(buffered, pending, events)
    ensures AllCommands([]) == []
  {
  }

  lemma ServedNext(so: Served, buffered: bytes, pending: nat, events: seq<Event>, n: nat)
    requires n < |events| && so.alive
    ensures var e, all := events[n], After(so, buffered, pending, events[n..]);
            if Reads(pending, e) then
              var o := Ipc.ReadLine(buffered, e.script);
              var arrived := so.arrived + Ipc.Delivered(e.script[..o.used]);
              all == if !o.r.Message? then Served(false, so.lines, arrived)
                     else After(Served(true, so.lines + [o.r.msg], arrived), o.left, LeftPending(pending, e),
                                events[n + 1..])
            else
              all == if e.error || (e.writable && e.w.WriteFailed? && pending > 0) then so.(alive := false)
                     else After(so, buffered, LeftPending(pending, e), events[n + 1..])
  {
    hide Ipc.ReadLine, Ipc.Delivered;
    assert events[n..][1..] == events[n + 1..];
  }

  lemma ServedNoMore(so: Served, buffered: bytes, pending: nat, events: seq<Event>, n: nat)
    requires n <= |events| && (so.alive ==> n == |events|)
    ensures After(so, buffered, pending, events[n..]) == so
  {
  }

  /** On a connection that had received nothing. */
  lemma NewConnection(conn: Ipc.IpcConn, returned: seq<bytes>, received: bytes, buffered: bytes, s: Served,
                      values: seq<Json>)
    requires conn.Valid() && received == Ipc.Framed(returned) + buffered
    requires conn.returned == returned + s.lines && conn.received == received + s.arrived
    ensures received == [] && AllSendable(values) && s.arrived <= Ipc.Framed(Messages(values)) ==>
              |s.lines| <= |values| && AllCommands(s.lines) == values[..|s.lines|]
  {
    hide AllCommands, AllSendable, Messages;
    if received == [] && AllSendable(values) && s.arrived <= Ipc.Framed(Messages(values)) {
      NothingReturned(returned, buffered);
      assert conn.returned == s.lines && conn.received == s.arrived;
      CommandsOfStream(conn, values);
    }
  }

  lemma NothingReturned(returned: seq<bytes>, buffered: bytes)
    requires Ipc.Framed(returned) + buffered == []
    ensures returned == [] && buffered == []
  {
  }

  ghost predicate AllSendable(values: seq<Json>) {
    forall i :: 0 <= i < |values| ==> Sendable(values[i])
  }

  /** A connection that has received the start of a stream of printed values. */
  lemma CommandsOfStream(conn: Ipc.IpcConn, values: seq<Json>)
    requires conn.Valid() && conn.received <= Ipc.Framed(Messages(values)) && AllSendable(values)
    ensures |conn.returned| <= |values| && AllCommands(conn.returned) == values[..|conn.returned|]
  {
    hide Commands, Render, Ipc.Framed;
    var ms := Messages(values);
    forall i | 0 <= i < |values| ensures Ipc.IsLine(ms[i]) {
      RenderedIsLine(values[i]);
    }
    Ipc.LinesOfPrefix(conn.returned, conn.readBuf.Contents(), ms);
    var n := |conn.returned|;
    assert conn.returned == ms[..n] == Messages(values[..n]);
    AllCommandsOfMessages(values[..n]);
  }
}
