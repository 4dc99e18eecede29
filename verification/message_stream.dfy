/**
  Length-prefixed framing over a TCP byte stream: each message is a u32 length and its payload.
  `SplitFrames` is the reference reading of a whole byte stream; the class buffers the stream in
  pieces, and every run of its calls is shown to deliver what the reference reads.
 */
module MessageStream {
  import opened Bytes

  const READ_CHUNK_BYTES := 16384
  const MAX_FRAME_BYTES := 2097152
  const MAX_RECV_BUFFER_BYTES := 2113536  // MAX_FRAME_BYTES + READ_CHUNK_BYTES
  const COMPACT_THRESHOLD_BYTES := 65536

  // ---------------------------------------------------------------- reference framing

  type Message = seq<Byte>

  function Frame(m: Message): (s: seq<Byte>)
    ensures |s| == 4 + |m|
  {
    U32(|m|) + m
  }

  function Frames(ms: seq<Message>): (s: seq<Byte>) {
    if ms == [] then [] else Frame(ms[0]) + Frames(ms[1..])
  }

  /** What a byte stream says: its complete messages, the bytes after them, and whether a length is too large. */
  datatype Split = Split(messages: seq<Message>, rest: seq<Byte>, ok: bool)

  function SplitFrames(s: seq<Byte>): (r: Split)
    ensures |r.rest| <= |s|
    decreases |s|
  {
    if |s| < 4 then Split([], s, true)
    else
      var len := ReadU32(s, 0);
      if len > MAX_FRAME_BYTES then Split([], s, false)
      else if |s| < 4 + len then Split([], s, true)
      else
        var tail := SplitFrames(s[4 + len..]);
        Split([s[4..4 + len]] + tail.messages, tail.rest, tail.ok)
  }

  /** One step of the reading, at a position inside a buffer. */
  lemma SplitAt(buf: seq<Byte>, at: nat)
    requires at <= |buf|
    ensures |buf| - at < 4 ==> SplitFrames(buf[at..]) == Split([], buf[at..], true)
    ensures |buf| - at >= 4 ==>
              var len := ReadU32(buf, at);
              SplitFrames(buf[at..]) ==
              if len > MAX_FRAME_BYTES then Split([], buf[at..], false)
              else if |buf| - at < 4 + len then Split([], buf[at..], true)
              else var tail := SplitFrames(buf[at + 4 + len..]);
                Split([buf[at + 4..at + 4 + len]] + tail.messages, tail.rest, tail.ok)
  {
    hide ReadU32;
    if |buf| - at >= 4 {
      ReadU32Suffix(buf, at);
      var len := ReadU32(buf, at);
      if |buf| - at >= 4 + len {
        assert buf[at..][4..4 + len] == buf[at + 4..at + 4 + len];
        assert buf[at..][4 + len..] == buf[at + 4 + len..];
      }
    }
  }

  ghost predicate Sendable(ms: seq<Message>, limit: nat) {
    forall m :: m in ms ==> |m| <= limit
  }

  lemma FramesAppend(a: seq<Message>, b: seq<Message>)
    ensures Frames(a + b) == Frames(a) + Frames(b)
  {
    if a == [] {
      assert a + b == b;
    } else {
      assert (a + b)[1..] == a[1..] + b;
      FramesAppend(a[1..], b);
      Associative(Frame(a[0]), Frames(a[1..]), Frames(b));
    }
  }

  /** Reading a stream that starts with a frame. */
  lemma SplitFrame(m: Message, s: seq<Byte>)
    requires |m| <= MAX_FRAME_BYTES
    ensures SplitFrames(Frame(m) + s)
         == var tail := SplitFrames(s); Split([m] + tail.messages, tail.rest, tail.ok)
  {
    hide U32, ReadU32;
    var all := Frame(m) + s;
    assert all == [] + U32(|m|) + (m + s);
    ReadU32In(|m|, [], m + s);
    assert all[4..4 + |m|] == m && all[4 + |m|..] == s;
  }

  /** Splitting loses and invents no byte. */
  lemma {:induction false} SplitKeepsBytes(s: seq<Byte>)
    ensures Frames(SplitFrames(s).messages) + SplitFrames(s).rest == s
    ensures Sendable(SplitFrames(s).messages, MAX_FRAME_BYTES)
    decreases |s|
  {
    hide U32, ReadU32;
    if |s| >= 4 {
      var len := ReadU32(s, 0);
      if len <= MAX_FRAME_BYTES && |s| >= 4 + len {
        var m, tail := s[4..4 + len], SplitFrames(s[4 + len..]);
        SplitKeepsBytes(s[4 + len..]);
        FrontFrame(s);
        assert ([m] + tail.messages)[1..] == tail.messages;
        hide Frame;
        Associative(Frame(m), Frames(tail.messages), tail.rest);
      }
    }
  }

  lemma FrontFrame(s: seq<Byte>)
    requires |s| >= 4 && |s| >= 4 + ReadU32(s, 0)
    ensures var len := ReadU32(s, 0);
            Frame(s[4..4 + len]) + s[4 + len..] == s
  {
    LeOfValue(s[0..4]);
    assert s[0..4] == s[..4];
    var len := ReadU32(s, 0);
    hide U32, ReadU32;
    assert s == s[..4] + s[4..4 + len] + s[4 + len..];
  }

  /** Reading a stream that starts with frames, and reading what a split leaves over. */
  lemma {:induction false} SplitAfterFrames(ms: seq<Message>, s: seq<Byte>)
    requires Sendable(ms, MAX_FRAME_BYTES)
    ensures SplitFrames(Frames(ms) + s)
         == var tail := SplitFrames(s); Split(ms + tail.messages, tail.rest, tail.ok)
  {
    hide SplitFrames, Frame;
    if ms == [] {
      assert Frames(ms) + s == s;
    } else {
      assert ms[0] in ms;
      SplitAfterFrames(ms[1..], s);
      SplitFrame(ms[0], Frames(ms[1..]) + s);
      Associative(Frame(ms[0]), Frames(ms[1..]), s);
      Associative([ms[0]], ms[1..], SplitFrames(s).messages);
    }
  }

  lemma {:induction false} RestIsIncomplete(s: seq<Byte>)
    requires SplitFrames(s).ok
    ensures SplitFrames(SplitFrames(s).rest) == Split([], SplitFrames(s).rest, true)
    decreases |s|
  {
    hide U32, ReadU32;
    if |s| >= 4 && |s| >= 4 + ReadU32(s, 0) {
      RestIsIncomplete(s[4 + ReadU32(s, 0)..]);
    }
  }

  /** A receiver that has any prefix of the sent bytes reads a prefix of the sent messages, and less than one
      more frame. */
  lemma {:induction false} SplitOfSent(s: seq<Byte>, sent: seq<Message>, limit: nat)
    requires s <= Frames(sent) && Sendable(sent, limit) && limit <= MAX_FRAME_BYTES
    ensures SplitFrames(s).ok && SplitFrames(s).messages <= sent && |SplitFrames(s).rest| < 4 + limit
    ensures s == Frames(sent) ==> SplitFrames(s) == Split(sent, [], true)
    decreases |s|
  {
    hide SplitFrames, Frame;
    if sent == [] {
      ShortStream(s);
    } else {
      var m, later := sent[0], Frames(sent[1..]);
      assert m in sent;
      if |s| < 4 + |m| {
        assert s == (Frame(m) + later)[..|s|] == Frame(m)[..|s|];
        if |s| < 4 {
          ShortStream(s);
        } else {
          HeaderRead(m, |s|);
        }
      } else {
        var tail := s[4 + |m|..];
        assert s == Frame(m) + tail && tail <= later by {
          assert s[..4 + |m|] == (Frame(m) + later)[..4 + |m|] == Frame(m);
          assert (Frame(m) + later)[4 + |m|..] == later;
        }
        SplitOfSent(tail, sent[1..], limit);
        SplitFrame(m, tail);
        assert sent == [m] + sent[1..];
      }
    }
  }

  lemma ShortStream(s: seq<Byte>)
    requires |s| < 4
    ensures SplitFrames(s) == Split([], s, true)
  {
  }

  lemma HeaderRead(m: Message, n: nat)
    requires |m| <= MAX_FRAME_BYTES && 4 <= n < 4 + |m|
    ensures SplitFrames(Frame(m)[..n]) == Split([], Frame(m)[..n], true)
  {
    hide U32, ReadU32;
    ReadU32In(|m|, [], m);
    assert Frame(m) == [] + U32(|m|) + m;
    ReadU32Prefix(Frame(m)[..n], 0, Frame(m)[n..]);
    assert Frame(m)[..n] + Frame(m)[n..] == Frame(m);
  }

  // ---------------------------------------------------------------- receive buffer

  /** One result of reading the socket before it reports that it is empty. */
  datatype Read = Data(bytes: seq<Byte>) | Failed

  function Received(pieces: seq<Read>): (s: seq<Byte>) {
    if pieces == [] then []
    else (if pieces[0].Data? then pieces[0].bytes else []) + Received(pieces[1..])
  }

  /** `buf` from `head` on has not been delivered yet; the bytes before it are dead. */
  datatype Buffer = Buffer(buf: seq<Byte>, head: nat) {
    ghost predicate Valid() {
      head <= |buf| <= MAX_RECV_BUFFER_BYTES
    }

    function Unconsumed(): (s: seq<Byte>)
      requires Valid()
    {
      buf[head..]
    }
  }

  /** Reading until the socket is empty: stops at an error and at the first read that does not fit. */
  function Pumped(b: Buffer, pieces: seq<Read>): (r: (Buffer, bool))
    requires b.Valid()
    ensures r.0.Valid() && r.0.head == b.head
    decreases |pieces|
  {
    if pieces == [] then (b, true)
    else match pieces[0]
      case Failed => (b, false)
      case Data(bytes) =>
        if |b.buf| + |bytes| > MAX_RECV_BUFFER_BYTES then (b, false)
        else Pumped(b.(buf := b.buf + bytes), pieces[1..])
  }

  /** The compaction test of the source, where the quotient is exact for sizes below 2^24. */
  predicate NeedsCompaction(head: nat, size: nat) {
    head > COMPACT_THRESHOLD_BYTES || (size > 0 && head as real / size as real > 0.5)
  }

  lemma CompactionTest(head: nat, size: nat)
    requires head <= size
    ensures NeedsCompaction(head, size) <==> head > COMPACT_THRESHOLD_BYTES || 2 * head > size
  {
    if size > 0 {
      QuotientAboveHalf(head as real, size as real);
    }
  }

  lemma QuotientAboveHalf(x: real, y: real)
    requires y > 0.0
    ensures x / y > 0.5 <==> x > 0.5 * y
  {
    var q := x / y;
    assert q * y == x;
    assert (q - 0.5) * y == q * y - 0.5 * y;
    if q > 0.5 {
      assert (q - 0.5) * y > 0.0;
    } else {
      assert (0.5 - q) * y >= 0.0;
      assert (0.5 - q) * y == 0.5 * y - q * y;
    }
  }

  /** What a drain does: the messages delivered, the buffer left, the bytes moved to compact it. */
  datatype Drain = Drain(buffer: Buffer, delivered: seq<Message>, moved: nat, ok: bool)

  function Drained(b: Buffer): (d: Drain)
    requires b.Valid()
    ensures d.buffer.Valid()
  {
    var split := SplitFrames(b.Unconsumed());
    var head := |b.buf| - |split.rest|;
    if !split.ok then Drain(Buffer([], 0), split.messages, 0, false)
    else if NeedsCompaction(head, |b.buf|) then Drain(Buffer(split.rest, 0), split.messages, |split.rest|, true)
    else Drain(Buffer(b.buf, head), split.messages, 0, true)
  }

  class MessageStream {
    var connected: bool  // a socket is attached
    var recvBuf: seq<Byte>
    var recvHead: nat

    ghost predicate Valid()
      reads this
    {
      State().Valid()
    }

    ghost function State(): (b: Buffer)
      reads this
    {
      Buffer(recvBuf, recvHead)
    }

    constructor (connected: bool)
      ensures Valid() && State() == Buffer([], 0) && this.connected == connected
    {
      this.connected := connected;
      recvBuf, recvHead := [], 0;
    }

    /** Writes the length and then the payload; `headerSent` and `payloadSent` are what the two socket writes
        return. */
    method Send(data: Message, headerSent: bool, payloadSent: bool) returns (ok: bool, written: seq<Byte>)
      ensures ok <==> connected && |data| <= MAX_FRAME_BYTES && headerSent && payloadSent
      ensures ok ==> written == Frame(data)
      ensures !ok ==> written == [] || written == U32(|data|)
    {
      if !connected || |data| > MAX_FRAME_BYTES || !headerSent {
        return false, [];
      }
      written := U32(|data|);
      if !payloadSent {
        return false, written;
      }
      return true, written + data;
    }

    method RecvCompact() returns (ghost moved: nat)
      requires Valid()
      modifies this`recvBuf, this`recvHead
      ensures Valid() && recvHead == 0 && recvBuf == old(State().Unconsumed())
      ensures moved == if old(recvHead) == 0 then 0 else |recvBuf|
    {
      if recvHead == 0 {
        return 0;
      }
      recvBuf := recvBuf[recvHead..];
      recvHead := 0;
      moved := |recvBuf|;
    }

    method PumpReads(pieces: seq<Read>) returns (ok: bool)
      requires Valid()
      modifies this`recvBuf
      ensures Valid()
      ensures ok <==> connected && Pumped(old(State()), pieces).1
      ensures connected ==> State() == Pumped(old(State()), pieces).0
      ensures !connected ==> State() == old(State())
    {
      if !connected {
        return false;
      }
      var i := 0;
      while i < |pieces|
        invariant i <= |pieces| && Valid()
        invariant Pumped(State(), pieces[i..]) == Pumped(old(State()), pieces)
      {
        if pieces[i].Failed? || |recvBuf| + |pieces[i].bytes| > MAX_RECV_BUFFER_BYTES {
          return false;
        }
        recvBuf := recvBuf + pieces[i].bytes;
        assert pieces[i..][1..] == pieces[i + 1..];
        i := i + 1;
      }
      return true;
    }

    /** `delivered` lists the payloads the callback is given, in order. */
    method DrainComplete() returns (ok: bool, delivered: seq<Message>, ghost moved: nat)
      requires Valid()
      modifies this`recvBuf, this`recvHead
      ensures Valid() && Drained(old(State())) == Drain(State(), delivered, moved, ok)
    {
      hide ReadU32, SplitFrames;
      delivered, moved := [], 0;
      ghost var all := SplitFrames(State().Unconsumed());
      while |recvBuf| - recvHead >= 4
        invariant Valid() && recvBuf == old(recvBuf)
        invariant var tail := SplitFrames(State().Unconsumed());
                  all == Split(delivered + tail.messages, tail.rest, tail.ok)
        decreases |recvBuf| - recvHead
      {
        SplitAt(recvBuf, recvHead);
        var len := ReadU32(recvBuf, recvHead);
        if len > MAX_FRAME_BYTES {
          recvBuf, recvHead := [], 0;
          return false, delivered, 0;
        }
        if |recvBuf| - recvHead < 4 + len {
          break;
        }
        delivered := delivered + [recvBuf[recvHead + 4..recvHead + 4 + len]];
        recvHead := recvHead + (4 + len);
      }
      SplitAt(recvBuf, recvHead);
      CompactionTest(recvHead, |recvBuf|);
      if NeedsCompaction(recvHead, |recvBuf|) {
        moved := RecvCompact();
      }
      ok := true;
    }

    method Poll(pieces: seq<Read>) returns (ok: bool, delivered: seq<Message>)
      requires Valid()
      modifies this`recvBuf, this`recvHead
      ensures Valid()
      ensures var pumped := Pumped(old(State()), pieces);
              if connected && pumped.1
              then var d := Drained(pumped.0); State() == d.buffer && delivered == d.delivered && ok == d.ok
              else !ok && delivered == [] && State() == if connected then pumped.0 else old(State())
    {
      ok := PumpReads(pieces);
      if !ok {
        return false, [];
      }
      ghost var moved;
      ok, delivered, moved := DrainComplete();
    }
  }

  // ---------------------------------------------------------------- runs

  datatype Call = Pump(pieces: seq<Read>) | DrainComplete

  /** The outcome of a sequence of calls on a connected stream: everything received and delivered so far, the
      bytes moved by compactions, and whether every call returned true. */
  datatype Run = Run(buffer: Buffer, received: seq<Byte>, delivered: seq<Message>, moved: nat, ok: bool)

  function Then(before: Run, call: Call): (r: Run)
    requires before.buffer.Valid()
    ensures r.buffer.Valid()
  {
    match call
    case Pump(pieces) =>
      var pumped := Pumped(before.buffer, pieces);
      Run(pumped.0, before.received + Received(pieces), before.delivered, before.moved, before.ok && pumped.1)
    case DrainComplete =>
      var d := Drained(before.buffer);
      Run(d.buffer, before.received, before.delivered + d.delivered, before.moved + d.moved, before.ok && d.ok)
  }

  function Execute(calls: seq<Call>): (r: Run)
    ensures r.buffer.Valid()
  {
    if calls == [] then Run(Buffer([], 0), [], [], 0, true)
    else Then(Execute(calls[..|calls| - 1]), calls[|calls| - 1])
  }

  /** A pump succeeds exactly when no read fails and everything fits; then it appends what it received. */
  lemma {:induction false} PumpAppends(b: Buffer, pieces: seq<Read>)
    requires b.Valid()
    decreases |pieces|
    ensures Pumped(b, pieces).1
       <==> (forall r :: r in pieces ==> r.Data?) && |b.buf| + |Received(pieces)| <= MAX_RECV_BUFFER_BYTES
    ensures Pumped(b, pieces).1 ==> Pumped(b, pieces).0 == b.(buf := b.buf + Received(pieces))
  {
    if pieces != [] {
      assert forall r :: r in pieces <==> r == pieces[0] || r in pieces[1..];
      if pieces[0].Data? && |b.buf| + |pieces[0].bytes| <= MAX_RECV_BUFFER_BYTES {
        PumpAppends(b.(buf := b.buf + pieces[0].bytes), pieces[1..]);
        Associative(b.buf, pieces[0].bytes, Received(pieces[1..]));
      }
    }
  }

  /** One drain takes whole frames off the front of the unconsumed bytes. */
  lemma DrainTakesFrames(b: Buffer)
    requires b.Valid() && Drained(b).ok
    ensures var d := Drained(b);
            && Frames(d.delivered) + d.buffer.Unconsumed() == b.Unconsumed()
            && Sendable(d.delivered, MAX_FRAME_BYTES)
            && SplitFrames(d.buffer.Unconsumed()) == Split([], d.buffer.Unconsumed(), true)
  {
    hide SplitFrames, NeedsCompaction;
    var split := SplitFrames(b.Unconsumed());
    SplitKeepsBytes(b.Unconsumed());
    RestIsIncomplete(b.Unconsumed());
    assert b.buf[|b.buf| - |split.rest|..] == b.Unconsumed()[|b.Unconsumed()| - |split.rest|..] == split.rest;
    assert split.rest[0..] == split.rest;
  }

  /** A drain fails exactly at a length above the limit; then it has delivered every message before that, and the
      stream is reset. */
  lemma OversizeResets(b: Buffer)
    requires b.Valid()
    ensures var d, rest := Drained(b), SplitFrames(b.Unconsumed()).rest;
            && Frames(d.delivered) + rest == b.Unconsumed() && Sendable(d.delivered, MAX_FRAME_BYTES)
            && (d.ok <==> |rest| < 4 || ReadU32(rest, 0) <= MAX_FRAME_BYTES)
            && (!d.ok ==> d.buffer == Buffer([], 0) && d.moved == 0)
  {
    hide ReadU32, SplitFrames, NeedsCompaction;
    SplitKeepsBytes(b.Unconsumed());
    StopsAtOversize(b.Unconsumed());
  }

  lemma {:induction false} StopsAtOversize(s: seq<Byte>)
    ensures var split := SplitFrames(s);
            split.ok <==> |split.rest| < 4 || ReadU32(split.rest, 0) <= MAX_FRAME_BYTES
    decreases |s|
  {
    hide ReadU32;
    if |s| >= 4 && ReadU32(s, 0) <= MAX_FRAME_BYTES && |s| >= 4 + ReadU32(s, 0) {
      StopsAtOversize(s[4 + ReadU32(s, 0)..]);
    }
  }

  lemma {:induction false} RunKeepsBytes(calls: seq<Call>)
    requires Execute(calls).ok
    ensures var r := Execute(calls);
            Frames(r.delivered) + r.buffer.Unconsumed() == r.received && Sendable(r.delivered, MAX_FRAME_BYTES)
  {
    hide SplitFrames, Drained, Pumped;
    if calls != [] {
      var before := Execute(calls[..|calls| - 1]);
      RunKeepsBytes(calls[..|calls| - 1]);
      match calls[|calls| - 1]
      case Pump(pieces) =>
        PumpAppends(before.buffer, pieces);
        var after := before.buffer.(buf := before.buffer.buf + Received(pieces));
        assert after.Unconsumed() == before.buffer.Unconsumed() + Received(pieces);
        Associative(Frames(before.delivered), before.buffer.Unconsumed(), Received(pieces));
      case DrainComplete =>
        var d := Drained(before.buffer);
        DrainTakesFrames(before.buffer);
        FramesAppend(before.delivered, d.delivered);
        Associative(Frames(before.delivered), Frames(d.delivered), d.buffer.Unconsumed());
    }
  }

  /** In every run whose calls all succeed, the delivered messages and the unconsumed bytes together say exactly
      what the received stream says, whatever the chunking and the compactions; re-framed, they are the received
      bytes. */
  lemma RunDelivers(calls: seq<Call>)
    requires Execute(calls).ok
    ensures var r := Execute(calls);
            var tail := SplitFrames(r.buffer.Unconsumed());
            && Frames(r.delivered) + r.buffer.Unconsumed() == r.received
            && SplitFrames(r.received) == Split(r.delivered + tail.messages, tail.rest, tail.ok)
  {
    RunKeepsBytes(calls);
    SplitAfterFrames(Execute(calls).delivered, Execute(calls).buffer.Unconsumed());
  }

  ghost predicate JustDrained(calls: seq<Call>) {
    calls != [] && calls[|calls| - 1] == DrainComplete
  }

  /** Right after a drain the delivered messages are the messages of the received stream: they do not depend on
      how the bytes were cut into reads or pumps, nor on when earlier drains ran. */
  lemma DrainDeliversStream(calls: seq<Call>)
    requires Execute(calls).ok && JustDrained(calls)
    ensures SplitFrames(Execute(calls).received)
         == Split(Execute(calls).delivered, Execute(calls).buffer.Unconsumed(), true)
  {
    RunDelivers(calls);
    DrainTakesFrames(Execute(calls[..|calls| - 1]).buffer);
    assert Execute(calls).delivered + [] == Execute(calls).delivered;
  }

  /** A receiver of sent messages delivers a prefix of them, and all of them once it has all bytes and has
      drained. */
  lemma RunDeliversSent(calls: seq<Call>, sent: seq<Message>)
    requires Execute(calls).ok && Sendable(sent, MAX_FRAME_BYTES) && Execute(calls).received <= Frames(sent)
    ensures Execute(calls).delivered <= sent
    ensures JustDrained(calls) && Execute(calls).received == Frames(sent) ==> Execute(calls).delivered == sent
  {
    var r := Execute(calls);
    RunDelivers(calls);
    SplitOfSent(r.received, sent, MAX_FRAME_BYTES);
    assert r.delivered <= SplitFrames(r.received).messages;
    if JustDrained(calls) {
      DrainDeliversStream(calls);
    }
  }

  // ---------------------------------------------------------------- compaction

  /** Over any run, compactions move at most 32 bytes for each byte consumed, counting only bytes before the
      dead prefix. */
  lemma {:induction false} CompactionCost(calls: seq<Call>)
    requires Execute(calls).ok
    ensures var r := Execute(calls);
            && r.buffer.head + |r.buffer.Unconsumed()| <= |r.received|
            && r.moved <= 32 * (|r.received| - |r.buffer.Unconsumed()| - r.buffer.head)
  {
    hide SplitFrames;
    if calls != [] {
      var before := Execute(calls[..|calls| - 1]);
      CompactionCost(calls[..|calls| - 1]);
      match calls[|calls| - 1]
      case Pump(pieces) => PumpAppends(before.buffer, pieces);
      case DrainComplete =>
        var rest := SplitFrames(before.buffer.Unconsumed()).rest;
        CompactionTest(|before.buffer.buf| - |rest|, |before.buffer.buf|);
    }
  }

  /** After a drain the dead prefix is at most 64 KiB and at most as long as the live bytes. */
  lemma DeadPrefixBounded(b: Buffer)
    requires b.Valid() && Drained(b).ok
    ensures var after := Drained(b).buffer;
            after.head <= COMPACT_THRESHOLD_BYTES && after.head <= |after.Unconsumed()|
  {
    CompactionTest(|b.buf| - |SplitFrames(b.Unconsumed()).rest|, |b.buf|);
  }

  // ---------------------------------------------------------------- refused backlogs

  /** Messages of this size leave room for a dead prefix and a read. */
  const SAFE_FRAME_BYTES := 2031613  // MAX_FRAME_BYTES - COMPACT_THRESHOLD_BYTES - 3

  lemma ReadFits(calls: seq<Call>, bytes: seq<Byte>)
    requires Execute(calls).ok && |Execute(calls).buffer.buf| + |bytes| <= MAX_RECV_BUFFER_BYTES
    ensures Execute(calls + [Pump([Data(bytes)])]).ok
  {
    hide Pumped, Drained;
    assert (calls + [Pump([Data(bytes)])])[..|calls|] == calls;
    assert Received([Data(bytes)]) == bytes + Received([]) == bytes;
    PumpAppends(Execute(calls).buffer, [Data(bytes)]);
  }

  lemma JustDrainedDeadPrefix(calls: seq<Call>)
    requires Execute(calls).ok && JustDrained(calls)
    ensures Execute(calls).buffer.head <= COMPACT_THRESHOLD_BYTES
  {
    hide Drained;
    DeadPrefixBounded(Execute(calls[..|calls| - 1]).buffer);
  }

  /** After a drain one more read of such messages fits. */
  lemma SmallMessagesFit(calls: seq<Call>, sent: seq<Message>, bytes: seq<Byte>)
    requires Execute(calls).ok && JustDrained(calls)
    requires Sendable(sent, SAFE_FRAME_BYTES) && Execute(calls).received <= Frames(sent)
    requires 0 < |bytes| <= READ_CHUNK_BYTES
    ensures Execute(calls + [Pump([Data(bytes)])]).ok
  {
    hide Execute, JustDrained, Sendable, Frames, SplitFrames;
    DrainDeliversStream(calls);
    SplitOfSent(Execute(calls).received, sent, SAFE_FRAME_BYTES);
    JustDrainedDeadPrefix(calls);
    ReadFits(calls, bytes);
  }

  /** Draining sent bytes succeeds. */
  lemma SentBytesDrain(calls: seq<Call>, sent: seq<Message>)
    requires Execute(calls).ok && Sendable(sent, MAX_FRAME_BYTES) && Execute(calls).received <= Frames(sent)
    ensures Execute(calls + [DrainComplete]).ok
  {
    hide SplitFrames;
    var next := calls + [DrainComplete];
    assert next[..|next| - 1] == calls;
    RunDelivers(calls);
    SplitOfSent(Execute(calls).received, sent, MAX_FRAME_BYTES);
  }

  function Joined(cuts: seq<seq<Byte>>): (s: seq<Byte>) {
    if cuts == [] then [] else Joined(cuts[..|cuts| - 1]) + cuts[|cuts| - 1]
  }

  /** A receiver that makes one read a pump and drains after each. */
  function ReadAndDrain(cuts: seq<seq<Byte>>): (calls: seq<Call>) {
    if cuts == [] then []
    else ReadAndDrain(cuts[..|cuts| - 1]) + [Pump([Data(cuts[|cuts| - 1])])] + [DrainComplete]
  }

  /** Such a receiver never refuses sent messages that leave room for a dead prefix and a read, however they are
      cut into reads, and delivers them all once it has read them. */
  lemma {:induction false} DrainingReceiverAccepts(cuts: seq<seq<Byte>>, sent: seq<Message>)
    requires Sendable(sent, SAFE_FRAME_BYTES) && Joined(cuts) <= Frames(sent)
    requires forall i :: 0 <= i < |cuts| ==> 0 < |cuts[i]| <= READ_CHUNK_BYTES
    ensures var r := Execute(ReadAndDrain(cuts));
            r.ok && r.received == Joined(cuts) && (Joined(cuts) == Frames(sent) ==> r.delivered == sent)
  {
    hide Execute, Frames, Sendable;
    if cuts == [] {
      assert Execute([]).ok && Execute([]).received == [] && Execute([]).delivered == [] by { NothingExecuted(); }
      NoFrames(sent);
    } else {
      var before, last := cuts[..|cuts| - 1], cuts[|cuts| - 1];
      var calls := ReadAndDrain(before);
      var pumped := calls + [Pump([Data(last)])];
      PrefixOfPrefix(Joined(before), last, Frames(sent));
      DrainingReceiverAccepts(before, sent);
      if calls == [] {
        NothingExecuted();
        ReadFits([], last);
      } else {
        SmallMessagesFit(calls, sent, last);
      }
      ReceivedThen(calls, last);
      ReceivedThen(pumped, []);
      assert Sendable(sent, MAX_FRAME_BYTES) by { SmallerSendable(sent); }
      SentBytesDrain(pumped, sent);
      RunDeliversSent(pumped + [DrainComplete], sent);
    }
  }

  lemma NothingExecuted()
    ensures Execute([]) == Run(Buffer([], 0), [], [], 0, true)
  {
  }

  lemma SmallerSendable(sent: seq<Message>)
    requires Sendable(sent, SAFE_FRAME_BYTES)
    ensures Sendable(sent, MAX_FRAME_BYTES)
  {
  }

  lemma PrefixOfPrefix(a: seq<Byte>, b: seq<Byte>, s: seq<Byte>)
    requires a + b <= s
    ensures a <= s
  {
    assert (a + b)[..|a|] == a;
  }

  lemma ReceivedThen(calls: seq<Call>, bytes: seq<Byte>)
    ensures Execute(calls + [Pump([Data(bytes)])]).received == Execute(calls).received + bytes
    ensures Execute(calls + [DrainComplete]).received == Execute(calls).received
  {
    hide Drained, Pumped;
    assert (calls + [Pump([Data(bytes)])])[..|calls|] == calls && (calls + [DrainComplete])[..|calls|] == calls;
    assert Received([Data(bytes)]) == bytes + Received([]) == bytes;
  }

  lemma NoFrames(sent: seq<Message>)
    ensures Frames(sent) == [] ==> sent == []
  {
  }

  /** Larger messages can be refused although `Send` accepts them: when all but one byte of a frame of the
      maximal size is buffered, a full read does not fit, even though nothing is dead and the receiver drained
      before it. */
  lemma LegalStreamRefused(m: Message, next: Message, early: seq<Read>, bytes: seq<Byte>)
    requires |m| == MAX_FRAME_BYTES && |next| == READ_CHUNK_BYTES
    requires (forall r :: r in early ==> r.Data?) && Received(early) == Frame(m)[..|m| + 3]
    requires bytes == Frame(m)[|m| + 3..] + Frame(next)[..READ_CHUNK_BYTES - 1]
    ensures Received(early) + bytes <= Frames([m, next]) && |bytes| == READ_CHUNK_BYTES
    ensures Execute([Pump(early), DrainComplete]).ok
    ensures !Execute([Pump(early), DrainComplete, Pump([Data(bytes)])]).ok
  {
    hide SplitFrames, Drained, Frame;
    var full := Buffer(Frame(m)[..|m| + 3], 0);
    assert [] + Received(early) == full.buf;
    PumpAppends(Buffer([], 0), early);
    DrainOfAlmostWholeFrame(m);
    var first, second := [Pump(early)], [Pump(early), DrainComplete];
    var third := [Pump(early), DrainComplete, Pump([Data(bytes)])];
    assert first[..0] == [] && second[..1] == first && third[..2] == second;
    assert Execute([]).buffer == Buffer([], 0);
    assert Execute(first).buffer == full && Execute(first).ok;
    assert Execute(second).buffer == full && Execute(second).ok;
    assert Received([Data(bytes)]) == bytes + Received([]);
    PumpAppends(full, [Data(bytes)]);
    TwoFrames(m, next);
  }

  lemma DrainOfAlmostWholeFrame(m: Message)
    requires |m| == MAX_FRAME_BYTES
    ensures var full := Buffer(Frame(m)[..|m| + 3], 0);
            Drained(full) == Drain(full, [], 0, true)
  {
    hide SplitFrames, Frame;
    var full := Buffer(Frame(m)[..|m| + 3], 0);
    assert full.Unconsumed() == full.buf;
    HeaderRead(m, |m| + 3);
    CompactionTest(0, |m| + 3);
  }

  lemma TwoFrames(m: Message, next: Message)
    ensures Frames([m, next]) == Frame(m) + Frame(next)
  {
    assert [m, next][1..] == [next];
    assert Frames([next]) == Frame(next) + Frames([]);
  }
}
