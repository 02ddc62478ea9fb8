/** One connection of the plugin wire: newline-framed messages over partial reads and writes. */
module Ipc {
  import opened Bytes
  import opened Buffer

  const READ_SIZE: nat := 4096

  /** What one `read` can come back with. */
  datatype ReadResult = Data(chunk: bytes) | ReadAgain | Interrupted | Closed | ReadFailed

  predicate IsRead(r: ReadResult) {
    r.Data? ==> 0 < |r.chunk| <= READ_SIZE
  }

  /** What one `write` of the pending bytes can come back with. */
  datatype WriteResult = Wrote(n: nat) | WriteAgain | WriteFailed

  datatype Received = Message(msg: bytes) | Again | Reset | Failed

  datatype Flushed = Done | Pending | Broken

  /** Messages as they travel. */
  function Framed(ms: seq<bytes>): bytes {
    if ms == [] then [] else ms[0] + [NEWLINE] + Framed(ms[1..])
  }

  predicate IsLine(m: bytes) {
    NEWLINE !in m
  }

  predicate AreLines(ms: seq<bytes>) {
    forall i :: 0 <= i < |ms| ==> IsLine(ms[i])
  }

  lemma {:induction false} FramedAppend(ms: seq<bytes>, m: bytes)
    ensures Framed(ms + [m]) == Framed(ms) + m + [NEWLINE]
  {
    if ms == [] {
      assert [] + [m] == [m];
      assert Framed([m]) == m + [NEWLINE] + Framed([]);
    } else {
      FramedAppend(ms[1..], m);
      assert (ms + [m])[1..] == ms[1..] + [m];
    }
  }

  /** Where the first line of a stream ends. */
  function LineEnd(s: bytes): (n: nat)
    ensures n <= |s|
  {
    if s == [] || s[0] == NEWLINE then 0 else 1 + LineEnd(s[1..])
  }

  lemma {:induction false} LineEndOfFramed(m: bytes, x: bytes)
    requires IsLine(m)
    ensures LineEnd(m + [NEWLINE] + x) == |m|
  {
    if m != [] {
      assert m[0] in m;
      LineEndOfFramed(m[1..], x);
      assert (m + [NEWLINE] + x)[1..] == m[1..] + [NEWLINE] + x;
    }
  }

  lemma {:induction false} LineEndOfPrefix(s: bytes, t: bytes)
    requires s <= t && LineEnd(s) < |s|
    ensures LineEnd(t) == LineEnd(s)
  {
    if s[0] != NEWLINE {
      LineEndOfPrefix(s[1..], t[1..]);
    }
  }

  lemma FirstLine(m: bytes, x: bytes, n: bytes, y: bytes)
    requires IsLine(m) && IsLine(n) && m + [NEWLINE] + x <= n + [NEWLINE] + y
    ensures m == n && x <= y
  {
    var s, t := m + [NEWLINE] + x, n + [NEWLINE] + y;
    LineEndOfFramed(m, x);
    LineEndOfFramed(n, y);
    LineEndOfPrefix(s, t);
    assert m == s[..|m|] && n == t[..|m|];
    assert x == s[|m| + 1..] && y == t[|m| + 1..];
  }

  /** Framing is injective: of two streams where one starts the other, the shorter one's messages come
      first in the longer one, and equal streams without an unfinished line have the same messages. */
  lemma {:induction false} LinesOfPrefix(ms: seq<bytes>, rest: bytes, ns: seq<bytes>)
    requires AreLines(ms) && AreLines(ns)
    requires Framed(ms) + rest <= Framed(ns)
    ensures ms <= ns
    ensures Framed(ms) + rest == Framed(ns) && IsLine(rest) ==> ms == ns && rest == []
  {
    if ms == [] {
      assert Framed(ms) + rest == rest;
      if ns != [] && rest == Framed(ns) {
        assert rest[|ns[0]|] == NEWLINE;
      }
    } else {
      var x := Framed(ms[1..]) + rest;
      assert Framed(ms) + rest == ms[0] + [NEWLINE] + x;
      FirstLine(ms[0], x, ns[0], Framed(ns[1..]));
      LinesOfPrefix(ms[1..], rest, ns[1..]);
    }
  }

  lemma Split(written: bytes, pending: bytes, n: nat)
    requires n <= |pending|
    ensures written + pending == written + pending[..n] + pending[n..]
  {
  }

  lemma PendingGrows(written: bytes, before: bytes, at: nat, msg: bytes)
    requires at <= |before|
    ensures written + before[at..] + msg + [NEWLINE] == written + (before + msg + [NEWLINE])[at..]
  {
    assert (before + msg + [NEWLINE])[at..] == before[at..] + msg + [NEWLINE];
  }

  lemma Regroup(framed: bytes, before: bytes, msg: bytes, rest: bytes)
    requires before == msg + [NEWLINE] + rest
    ensures framed + before == framed + msg + [NEWLINE] + rest
  {
  }

  /** How receiving ends: what comes back, what stays buffered, and how many reads it takes. */
  datatype Reading = Reading(r: Received, left: bytes, used: nat)

  /** Receiving with these bytes buffered and these reads to come: the first line, or the first read without data if no
      line is complete before it. */
  function ReadLine(buffered: bytes, script: seq<ReadResult>): (o: Reading)
    ensures o.used <= |script|
    decreases |script|
  {
    if NEWLINE in buffered
      then Reading(Message(buffered[..LineEnd(buffered)]), Drop(buffered, LineEnd(buffered) + 1), 0)
    else if script == [] then Reading(Again, buffered, 0)
    else
      match script[0]
      case Data(chunk) => OneMore(ReadLine(buffered + chunk, script[1..]))
      case Interrupted => OneMore(ReadLine(buffered, script[1..]))
      case ReadAgain => Reading(Again, buffered, 1)
      case Closed => Reading(Reset, buffered, 1)
      case ReadFailed => Reading(Failed, buffered, 1)
  }

  function OneMore(o: Reading): Reading {
    o.(used := o.used + 1)
  }

  lemma {:induction false} LineEndAt(s: bytes, at: nat)
    requires at < |s| && s[at] == NEWLINE && IsLine(s[..at])
    ensures LineEnd(s) == at
  {
    if at > 0 {
      assert s[0] in s[..at] && s[1..][..at - 1] == s[..at][1..];
      LineEndAt(s[1..], at - 1);
    }
  }

  /** After `used` reads these bytes are buffered, and all goes on from there. */
  predicate IsUnderWay(buffered: bytes, used: nat, before: bytes, script: seq<ReadResult>) {
    used <= |script| &&
    var o := ReadLine(buffered, script[used..]);
    ReadLine(before, script) == o.(used := o.used + used)
  }

  lemma UnderWayAtFirst(buffered: bytes, script: seq<ReadResult>)
    ensures IsUnderWay(buffered, 0, buffered, script)
  {
    assert script[0..] == script;
  }

  /** One read, at a time when no line is buffered. */
  lemma UnderWayAgain(buffered: bytes, used: nat, before: bytes, script: seq<ReadResult>)
    requires IsUnderWay(buffered, used, before, script) && IsLine(buffered)
    ensures used == |script| ==> ReadLine(before, script) == Reading(Again, buffered, used)
    ensures used < |script| && script[used].Data? ==>
              IsUnderWay(buffered + script[used].chunk, used + 1, before, script)
    ensures used < |script| && script[used].Interrupted? ==> IsUnderWay(buffered, used + 1, before, script)
    ensures used < |script| && script[used].ReadAgain? ==>
              ReadLine(before, script) == Reading(Again, buffered, used + 1)
    ensures used < |script| && script[used].Closed? ==> ReadLine(before, script) == Reading(Reset, buffered, used + 1)
    ensures used < |script| && script[used].ReadFailed? ==>
              ReadLine(before, script) == Reading(Failed, buffered, used + 1)
  {
    if used < |script| {
      assert script[used..][1..] == script[used + 1..];
    }
  }

  lemma UnderWayToLine(buffered: bytes, used: nat, at: nat, before: bytes, script: seq<ReadResult>)
    requires IsUnderWay(buffered, used, before, script)
    requires at < |buffered| && buffered[at] == NEWLINE && IsLine(buffered[..at])
    ensures ReadLine(before, script) == Reading(Message(buffered[..at]), buffered[at + 1..], used)
  {
    LineEndAt(buffered, at);
  }

  class IpcConn {
    const readBuf: HwBuffer
    const outBuf: HwBuffer
    var outPos: nat
    /** Everything that has happened on the wire: bytes read and messages returned; messages sent and
        bytes written. */
    ghost var received: bytes
    ghost var returned: seq<bytes>
    ghost var sent: seq<bytes>
    ghost var written: bytes

    ghost predicate Valid()
      reads this, readBuf, outBuf, readBuf.data, outBuf.data
    {
      && readBuf != outBuf && readBuf.data != outBuf.data
      && readBuf.Valid() && outBuf.Valid() && outPos <= outBuf.len
      && AreLines(returned)
      && received == Framed(returned) + readBuf.Contents()
      && Framed(sent) == written + outBuf.Contents()[outPos..]
    }

    constructor ()
      ensures Valid() && fresh(readBuf) && fresh(outBuf) && fresh(readBuf.data) && fresh(outBuf.data)
      ensures received == [] && returned == [] && sent == [] && written == []
    {
      var r := new HwBuffer();
      var w := new HwBuffer();
      readBuf, outBuf, outPos := r, w, 0;
      received, returned, sent, written := [], [], [], [];
    }

    /** `memchr` for a newline in the read buffer. */
    method FindNewline() returns (found: bool, at: nat)
      requires Valid()
      ensures found ==> at < readBuf.len && readBuf.data[at] == NEWLINE && IsLine(readBuf.Contents()[..at])
      ensures !found ==> IsLine(readBuf.Contents())
    {
      found, at := false, 0;
      while at < readBuf.len
        invariant at <= readBuf.len && IsLine(readBuf.data[..at])
      {
        if readBuf.data[at] == NEWLINE {
          found := true;
          assert readBuf.Contents()[..at] == readBuf.data[..at];
          return;
        }
        at := at + 1;
      }
    }

    /** Takes the line that ends at `at` out of the read buffer and moves the rest to the front. */
    method TakeLine(at: nat) returns (msg: bytes)
      requires Valid() && at < readBuf.len && readBuf.data[at] == NEWLINE
      modifies readBuf`len, readBuf.data
      ensures readBuf.Valid() && readBuf.data == old(readBuf.data)
      ensures old(readBuf.Contents()) == msg + [NEWLINE] + readBuf.Contents()
      ensures msg == old(readBuf.Contents()[..at])
    {
      var data := readBuf.data;
      msg := data[..at];
      var consume := at + 1;
      var remaining := readBuf.len - consume;
      ghost var rest := data[consume..readBuf.len];
      assert readBuf.Contents() == msg + [NEWLINE] + rest;
      for i := 0 to remaining
        modifies data
        invariant data[..i] == rest[..i]
        invariant forall k :: consume + i <= k < consume + remaining ==> data[k] == rest[k - consume]
      {
        data[i] := data[consume + i];
      }
      assert data[..remaining] == rest;
      readBuf.len := remaining;
    }

    /** The line that ends at `at` becomes a returned message. */
    method ReturnLine(at: nat) returns (msg: bytes)
      requires Valid() && at < readBuf.len && readBuf.data[at] == NEWLINE && IsLine(readBuf.Contents()[..at])
      modifies this`returned, readBuf`len, readBuf.data
      ensures Valid() && readBuf.data == old(readBuf.data) && returned == old(returned) + [msg]
      ensures msg == old(readBuf.Contents()[..at]) && readBuf.Contents() == old(readBuf.Contents())[at + 1..]
    {
      hide Framed;
      ghost var framed, before := Framed(returned), readBuf.Contents();
      msg := TakeLine(at);
      FramedAppend(returned, msg);
      Regroup(framed, before, msg, readBuf.Contents());
      returned := returned + [msg];
    }

    /** Bytes just read go behind those already in the buffer. */
    method Feed(chunk: bytes)
      requires Valid()
      modifies this`received, readBuf, readBuf.data
      ensures Valid() && (readBuf.data == old(readBuf.data) || fresh(readBuf.data))
      ensures received == old(received) + chunk && readBuf.Contents() == old(readBuf.Contents()) + chunk
    {
      hide Framed;
      ghost var before := readBuf.Contents();
      readBuf.Append(chunk);
      received := received + chunk;
      assert Framed(returned) + before + chunk == Framed(returned) + (before + chunk);
    }

    /** `ipc_conn_recv`. The reads it makes come back with the results in `script`, one after another,
        and with nothing more to read once they are used up. */
    method Recv(script: seq<ReadResult>) returns (r: Received, used: nat)
      requires Valid()
      requires forall i :: 0 <= i < |script| ==> IsRead(script[i])
      modifies this`received, this`returned, readBuf, readBuf.data
      ensures Valid() && used <= |script|
      ensures readBuf.data == old(readBuf.data) || fresh(readBuf.data)
      ensures received == old(received) + Delivered(script[..used])
      ensures returned == if r.Message? then old(returned) + [r.msg] else old(returned)
      ensures !r.Message? ==> IsLine(readBuf.Contents())
      ensures Reading(r, readBuf.Contents(), used) == ReadLine(old(readBuf.Contents()), script)
    {
      hide Framed, Delivered, ReadLine, IsUnderWay;
      used := 0;
      NothingDelivered(script[..0]);
      ghost var before := readBuf.Contents();
      UnderWayAtFirst(before, script);
      while true
        invariant Valid() && used <= |script| && IsUnderWay(readBuf.Contents(), used, before, script)
        invariant readBuf.data == old(readBuf.data) || fresh(readBuf.data)
        invariant received == old(received) + Delivered(script[..used]) && returned == old(returned)
        decreases |script| - used
      {
        var found, at := FindNewline();
        if found {
          UnderWayToLine(readBuf.Contents(), used, at, before, script);
          var msg := ReturnLine(at);
          return Message(msg), used;
        }
        UnderWayAgain(readBuf.Contents(), used, before, script);
        if used == |script| {
          return Again, used;
        }
        var got := script[used];
        DeliveredAppend(script, used);
        used := used + 1;
        match got
        case Data(chunk) => Feed(chunk);
        case ReadAgain => return Again, used;
        case Interrupted =>
        case Closed => return Reset, used;
        case ReadFailed => return Failed, used;
      }
    }

    /** `ipc_conn_flush`: one `write` of what is pending, if anything is. */
    method Flush(w: WriteResult) returns (r: Flushed)
      requires Valid()
      requires w.Wrote? ==> w.n <= outBuf.len - outPos
      modifies this`outPos, this`written, outBuf`len
      ensures Valid() && old(written) <= written
      ensures |written| == |old(written)| + if old(outPos < outBuf.len) && w.Wrote? then w.n else 0
      ensures outBuf.len as int - outPos ==
                old(outBuf.len as int - outPos) - if old(outPos < outBuf.len) && w.Wrote? then w.n else 0
      ensures r.Broken? <==> old(outPos < outBuf.len) && w.WriteFailed?
      ensures r.Done? <==> !r.Broken? && written == Framed(sent)
    {
      if outPos >= outBuf.len {
        assert outBuf.Contents()[outPos..] == [];
        return Done;
      }
      match w
      case WriteAgain => return Pending;
      case WriteFailed => return Broken;
      case Wrote(n) =>
        hide Framed;
        ghost var pending := outBuf.Contents()[outPos..];
        Split(written, pending, n);
        written := written + pending[..n];
        outPos := outPos + n;
        assert outBuf.Contents()[outPos..] == pending[n..];
        if outPos >= outBuf.len {
          outBuf.Clear();
          outPos := 0;
          return Done;
        }
        return Pending;
    }

    /** A message and its newline go behind what is pending. */
    method Queue(msg: bytes)
      requires Valid()
      modifies this`sent, outBuf, outBuf.data
      ensures Valid() && sent == old(sent) + [msg]
      ensures outBuf.len == old(outBuf.len) + |msg| + 1
      ensures outBuf.data == old(outBuf.data) || fresh(outBuf.data)
    {
      hide Framed;
      ghost var before := outBuf.Contents();
      outBuf.Append(msg);
      outBuf.Append([NEWLINE]);
      FramedAppend(sent, msg);
      sent := sent + [msg];
      PendingGrows(written, before, outPos, msg);
      assert outBuf.Contents() == before + msg + [NEWLINE];
    }

    /** `ipc_conn_send`: whatever the write does, the message is queued with its newline. */
    method Send(msg: bytes, w: WriteResult) returns (ok: bool)
      requires Valid()
      requires w.Wrote? ==> w.n <= outBuf.len - outPos + |msg| + 1
      modifies this`outPos, this`written, this`sent, outBuf, outBuf.data
      ensures Valid() && sent == old(sent) + [msg] && old(written) <= written
      ensures |written| == |old(written)| + if w.Wrote? then w.n else 0
      ensures ok <==> !w.WriteFailed?
      ensures outBuf.data == old(outBuf.data) || fresh(outBuf.data)
    {
      Queue(msg);
      var r := Flush(w);
      ok := !r.Broken?;
    }

    method HasPending() returns (pending: bool)
      requires Valid()
      ensures pending <==> written != Framed(sent)
    {
      pending := outBuf.len > outPos;
    }
  }

  /** The bytes a run of reads delivers. */
  function Delivered(script: seq<ReadResult>): bytes {
    if script == [] then []
    else Delivered(script[..|script| - 1]) + match script[|script| - 1] case Data(c) => c case _ => []
  }

  lemma NothingDelivered(script: seq<ReadResult>)
    requires script == []
    ensures Delivered(script) == []
  {
  }

  lemma DeliveredAppend(script: seq<ReadResult>, used: nat)
    requires used < |script|
    ensures Delivered(script[..used + 1]) ==
            Delivered(script[..used]) + match script[used] case Data(c) => c case _ => []
  {
    assert script[..used + 1][..used] == script[..used];
  }

  /** Any two connections, one reading what the other has written so far: if no message holds a newline, the messages
      returned are the first of those sent, in order. Once everything is written, read and returned they are all of
      those sent if and only if no message holds a newline. */
  lemma Delivery(sender: IpcConn, receiver: IpcConn)
    requires sender.Valid() && receiver.Valid() && receiver.received <= sender.written
    ensures AreLines(sender.sent) ==> receiver.returned <= sender.sent
    ensures (sender.outPos == sender.outBuf.len && receiver.received == sender.written &&
             IsLine(receiver.readBuf.Contents())) ==> (receiver.returned == sender.sent <==> AreLines(sender.sent))
  {
    if AreLines(sender.sent) {
      LinesOfPrefix(receiver.returned, receiver.readBuf.Contents(), sender.sent);
    }
  }

  /** The answer `{}` to a query is sent with a newline of its own, which makes two messages of it. */
  lemma NewlineInMessage()
    ensures Framed([[123, 125, NEWLINE]]) == Framed([[123, 125], []]) && !AreLines([[123, 125, NEWLINE]])
  {
    var none: bytes, m: bytes, ms: seq<bytes> := [], [123, 125, NEWLINE], [[123, 125], []];
    assert ms[1..] == [none];
    assert Framed([none]) == none + [NEWLINE] + Framed([]);
    assert Framed(ms) == [123, 125] + [NEWLINE] + Framed(ms[1..]);
    assert m[2] == NEWLINE;
  }
}
