/**
 The probe's WebSocket client (beam/scripts/platform_probe.py, class `WebSocket`): buffered reads
 over a socket that hands out its bytes in arbitrary chunks, and reassembly of text messages.

 A deadline may expire before any socket read, unless the peer is prompt; every contract says what then
 still holds.
 */
module WebSocketClient {
  import opened Basics
  import opened WebSocketFrames

  datatype Failure =
    | Timeout
    | ConnectionClosed
    | BadFrame(refusal: Refusal)
    | NewTextTooSoon
    | Unsupported(opcode: Opcode)
    | MessageTooLarge
    | InvalidUtf8
    | SecretExposure
    | HandshakeTooLarge
    | HandshakeRejected

  datatype Result<+T> = Ok(value: T) | Fail(failure: Failure)

  /** The peer, seen through a socket: `stream` is all it will ever send. */
  class Socket {
    ghost const stream: seq<byte>
    // Everything, the end included, comes before any deadline.
    const prompt: bool
    var unread: seq<byte>
    var sent: seq<byte>

    constructor (incoming: seq<byte>, prompt: bool)
      ensures stream == unread == incoming && sent == [] && this.prompt == prompt
    {
      stream, unread, sent, this.prompt := incoming, incoming, [], prompt;
    }

    /** Some non-empty chunk of at most `limit` bytes, or nothing at the end of the stream. */
    method Recv(limit: nat) returns (chunk: seq<byte>)
      requires limit > 0
      modifies this`unread
      ensures chunk + unread == old(unread)
      ensures |chunk| <= limit
      ensures chunk == [] <==> old(unread) == []
    {
      if unread == [] {
        return [];
      }
      var n: nat :| 1 <= n <= limit && n <= |unread|;
      chunk, unread := unread[..n], unread[n..];
    }

    method SendAll(bytes: seq<byte>)
      modifies this`sent
      ensures sent == old(sent) + bytes
    {
      sent := sent + bytes;
    }
  }

  // ----- reassembly, on values -----

  predicate IsData(f: Frame) {
    f.opcode < 8
  }

  function DataFrames(frames: seq<Frame>): seq<Frame> {
    if frames == [] then []
    else (if IsData(frames[0]) then [frames[0]] else []) + DataFrames(frames[1..])
  }

  /** The text carried by a run of frames: the payloads of its data frames, joined. */
  function Body(frames: seq<Frame>): seq<byte> {
    if frames == [] then []
    else (if IsData(frames[0]) then frames[0].payload else []) + Body(frames[1..])
  }

  /** One pong for every ping, with its payload, in order. */
  function Pongs(frames: seq<Frame>): seq<Frame> {
    if frames == [] then []
    else
      (if frames[0].opcode == PING then [Frame(PONG, true, frames[0].payload)] else [])
      + Pongs(frames[1..])
  }

  /** Payloads are joined in the order of their frames, and only those of data frames. */
  lemma {:induction false} BodyLaws(a: seq<Frame>, b: seq<Frame>, f: Frame)
    ensures Body(a + b) == Body(a) + Body(b)
    ensures Body([f]) == if f.opcode < 8 then f.payload else []
  {
    assert Body([f]) == (if IsData(f) then f.payload else []) by {
      assert [f][1..] == [] && Body([]) == [];
    }
    if a == [] {
      assert a + b == b;
    } else {
      BodyLaws(a[1..], b, f);
      assert (a + b)[1..] == a[1..] + b;
      Associates(if IsData(a[0]) then a[0].payload else [], Body(a[1..]), Body(b));
    }
  }

  lemma Associates<T>(x: seq<T>, y: seq<T>, z: seq<T>)
    ensures x + (y + z) == (x + y) + z
  {
  }

  /** Pings, and nothing else, are answered, in their order and with their payloads. */
  lemma {:induction false} PongsLaws(a: seq<Frame>, b: seq<Frame>, f: Frame)
    ensures Pongs(a + b) == Pongs(a) + Pongs(b)
    ensures Pongs([f]) == if f.opcode == 9 then [Frame(10, true, f.payload)] else []
  {
    assert [f][1..] == [] && Pongs([]) == [];
    if a == [] {
      assert a + b == b;
    } else {
      PongsLaws(a[1..], b, f);
      assert (a + b)[1..] == a[1..] + b;
    }
  }

  /**
   One fragmented text message as section 5.4 of RFC 6455 describes it: a text frame and its
   continuations, of which exactly the last is final, with pings and pongs anywhere before the end.
   */
  ghost predicate IsMessage(frames: seq<Frame>) {
    IsRest(frames, false)
  }

  /** A message, or what is still to come of one when `started` says that its text frame was seen. */
  ghost predicate IsRest(frames: seq<Frame>, started: bool) {
    && frames != []
    && IsData(frames[|frames| - 1])
    && (forall i | 0 <= i < |frames| :: frames[i].opcode in {CONTINUATION, TEXT, PING, PONG})
    && IsMessageData(DataFrames(frames), if started then CONTINUATION else TEXT)
  }

  ghost predicate IsMessageData(data: seq<Frame>, first: Opcode) {
    && data != []
    && data[0].opcode == first
    && (forall i | 0 < i < |data| :: data[i].opcode == CONTINUATION)
    && (forall i | 0 <= i < |data| :: data[i].final <==> i == |data| - 1)
  }

  /** The same, as the assembly loop goes through it. */
  predicate Completes(frames: seq<Frame>, started: bool) {
    && frames != []
    && (if frames[0].opcode in {PING, PONG} then Completes(frames[1..], started)
        else
          && frames[0].opcode == (if started then CONTINUATION else TEXT)
          && (if frames[0].final then |frames| == 1 else Completes(frames[1..], true)))
  }

  lemma {:induction false} CompletesIsMessage(frames: seq<Frame>, started: bool)
    ensures Completes(frames, started) <==> IsRest(frames, started)
  {
    hide IsRest;
    if frames == [] {
      NothingIsRest(started);
    } else if frames[0].opcode in {PING, PONG} {
      CompletesIsMessage(frames[1..], started);
      RestAfterControl(frames, started);
    } else {
      CompletesIsMessage(frames[1..], true);
      RestAfterData(frames, started);
    }
  }

  lemma NothingIsRest(started: bool)
    ensures !IsRest([], started)
  {
  }

  lemma RestAfterControl(frames: seq<Frame>, started: bool)
    requires frames != [] && frames[0].opcode in {PING, PONG}
    ensures IsRest(frames, started) <==> IsRest(frames[1..], started)
  {
    hide IsMessageData;
    var tail := frames[1..];
    assert DataFrames(frames) == DataFrames(tail);
    assert forall i | 0 < i < |frames| :: frames[i] == tail[i - 1];
    assert forall i | 0 <= i < |tail| :: tail[i] == frames[i + 1];
  }

  lemma RestAfterData(frames: seq<Frame>, started: bool)
    requires frames != [] && frames[0].opcode !in {PING, PONG}
    ensures IsRest(frames, started) <==>
      && frames[0].opcode == (if started then CONTINUATION else TEXT)
      && (if frames[0].final then |frames| == 1 else IsRest(frames[1..], true))
  {
    hide IsMessageData, DataFrames;
    var f, tail := frames[0], frames[1..];
    assert forall i | 0 < i < |frames| :: frames[i] == tail[i - 1];
    assert forall i | 0 <= i < |tail| :: tail[i] == frames[i + 1];
    if f.opcode in {CONTINUATION, TEXT} {
      DataOf(frames);
      MessageDataStep(f, DataFrames(tail), if started then CONTINUATION else TEXT);
      if tail != [] && IsData(tail[|tail| - 1]) {
        LastIsData(tail);
      }
    }
  }

  lemma DataOf(frames: seq<Frame>)
    requires frames != [] && IsData(frames[0])
    ensures DataFrames(frames) == [frames[0]] + DataFrames(frames[1..])
    ensures |frames| == 1 ==> DataFrames(frames[1..]) == []
  {
  }

  lemma MessageDataStep(f: Frame, more: seq<Frame>, first: Opcode)
    ensures IsMessageData([f] + more, first) <==>
      f.opcode == first && if f.final then more == [] else IsMessageData(more, CONTINUATION)
    ensures more == [] ==> !IsMessageData(more, CONTINUATION)
  {
    var data := [f] + more;
    assert forall i | 0 <= i < |more| :: data[i + 1] == more[i];
    assert forall i | 0 < i < |data| :: data[i] == more[i - 1];
  }

  lemma {:induction false} LastIsData(frames: seq<Frame>)
    requires frames != [] && IsData(frames[|frames| - 1])
    ensures DataFrames(frames) != []
  {
    if |frames| > 1 {
      LastIsData(frames[1..]);
    }
  }

  /** What the bytes of a stream mean to `RecvText`: the outcome, the bytes after it, the pongs. */
  datatype Received = Received(outcome: Result<seq<byte>>, rest: seq<byte>, pongs: seq<Frame>, closes: bool)

  /** The two checks on a complete text: it is UTF-8, and it reflects no protected material. */
  datatype TextChecks = TextChecks(utf8: seq<byte> -> bool, reflects: seq<byte> -> bool)

  function Verdict(body: seq<byte>, checks: TextChecks): Result<seq<byte>> {
    if !checks.utf8(body) then Fail(InvalidUtf8)
    else if checks.reflects(body) then Fail(SecretExposure)
    else Ok(body)
  }

  function Receive(s: seq<byte>, checks: TextChecks, closed: bool, started: bool, parts: seq<byte>): (r: Received)
    ensures r.outcome.Ok? ==> |r.rest| < |s|
    decreases |s|
  {
    match DecodeServer(s)
    case Incomplete => Received(Fail(ConnectionClosed), [], [], false)
    case Refused(reason) => Received(Fail(BadFrame(reason)), [], [], false)
    case Decoded(f, rest) =>
      if f.opcode == CLOSE then Received(Fail(ConnectionClosed), [], [], true)
      else if f.opcode == PING then
        if closed then Received(Fail(ConnectionClosed), [], [], false)
        else
          var next := Receive(rest, checks, closed, started, parts);
          next.(pongs := [Frame(PONG, true, f.payload)] + next.pongs)
      else if f.opcode == PONG then Receive(rest, checks, closed, started, parts)
      else if f.opcode == TEXT && started then Received(Fail(NewTextTooSoon), [], [], false)
      else if f.opcode == TEXT || (f.opcode == CONTINUATION && started) then
        if |parts + f.payload| > MAX_WS_FRAME then Received(Fail(MessageTooLarge), [], [], false)
        else if f.final then Received(Verdict(parts + f.payload, checks), rest, [], false)
        else Receive(rest, checks, closed, true, parts + f.payload)
      else Received(Fail(Unsupported(f.opcode)), [], [], false)
  }

  lemma ReceiveNothing(s: seq<byte>, checks: TextChecks, closed: bool, started: bool, parts: seq<byte>)
    ensures DecodeServer(s).Incomplete? ==>
      Receive(s, checks, closed, started, parts) == Received(Fail(ConnectionClosed), [], [], false)
    ensures DecodeServer(s).Refused? ==>
      Receive(s, checks, closed, started, parts) == Received(Fail(BadFrame(DecodeServer(s).reason)), [], [], false)
  {
    hide DecodeServer;
  }

  /** One frame further. */
  lemma ReceiveFrame(
      s: seq<byte>, f: Frame, rest: seq<byte>, checks: TextChecks, closed: bool, started: bool, parts: seq<byte>)
    requires DecodeServer(s) == Decoded(f, rest)
    ensures
      var r := Receive(s, checks, closed, started, parts);
      var next := Receive(rest, checks, closed, started, parts);
      if f.opcode == CLOSE then r == Received(Fail(ConnectionClosed), [], [], true)
      else if f.opcode == PING then
        if closed then r == Received(Fail(ConnectionClosed), [], [], false)
        else r == next.(pongs := [Frame(PONG, true, f.payload)] + next.pongs)
      else if f.opcode == PONG then r == next
      else if f.opcode == TEXT && started then r == Received(Fail(NewTextTooSoon), [], [], false)
      else if f.opcode == TEXT || (f.opcode == CONTINUATION && started) then
        if |parts + f.payload| > MAX_WS_FRAME then r == Received(Fail(MessageTooLarge), [], [], false)
        else if f.final then r == Received(Verdict(parts + f.payload, checks), rest, [], false)
        else r == Receive(rest, checks, closed, true, parts + f.payload)
      else r == Received(Fail(Unsupported(f.opcode)), [], [], false)
  {
    hide DecodeServer, Verdict;
  }

  /** No stream by itself makes a reception time out. */
  lemma {:induction false} ReceiveNeverTimesOut(s: seq<byte>, checks: TextChecks, closed: bool, started: bool, parts: seq<byte>)
    ensures Receive(s, checks, closed, started, parts).outcome != Fail(Timeout)
    decreases |s|
  {
    hide DecodeServer, Receive;
    ReceiveNothing(s, checks, closed, started, parts);
    if DecodeServer(s).Decoded? {
      var Decoded(f, rest) := DecodeServer(s);
      ReceiveFrame(s, f, rest, checks, closed, started, parts);
      ReceiveNeverTimesOut(rest, checks, closed, started, parts);
      ReceiveNeverTimesOut(rest, checks, closed, true, parts + f.payload);
      NeverTimeout(parts + f.payload, checks);
    }
  }

  lemma {:induction false} RestIsReceived(
      s: seq<byte>, frames: seq<Frame>, rest: seq<byte>, checks: TextChecks, started: bool, parts: seq<byte>)
    requires Reads(s, frames, rest) && Completes(frames, started)
    requires |parts| + |Body(frames)| <= MAX_WS_FRAME
    ensures Receive(s, checks, false, started, parts)
         == Received(Verdict(parts + Body(frames), checks), rest, Pongs(frames), false)
    decreases |frames|
  {
    hide DecodeServer;
    var f, tail := frames[0], frames[1..];
    var next := DecodeServer(s).rest;
    if f.opcode in {PING, PONG} {
      RestIsReceived(next, tail, rest, checks, started, parts);
      assert Body(frames) == Body(tail);
    } else if f.final {
      assert Body(tail) == [] && Body(frames) == f.payload;
      assert Pongs(tail) == [];
    } else {
      RestIsReceived(next, tail, rest, checks, true, parts + f.payload);
      assert parts + f.payload + Body(tail) == parts + Body(frames);
    }
  }

  lemma {:induction false} ReceivedIsRest(
      s: seq<byte>, checks: TextChecks, closed: bool, started: bool, parts: seq<byte>)
      returns (frames: seq<Frame>)
    requires Receive(s, checks, closed, started, parts).outcome.Ok?
    ensures
      var r := Receive(s, checks, closed, started, parts);
      && Reads(s, frames, r.rest) && Completes(frames, started)
      && r.outcome.value == parts + Body(frames) && |r.outcome.value| <= MAX_WS_FRAME
      && checks.utf8(r.outcome.value) && !checks.reflects(r.outcome.value)
      && r.pongs == Pongs(frames) && !r.closes
    decreases |s|
  {
    hide DecodeServer;
    var r := Receive(s, checks, closed, started, parts);
    var Decoded(f, next) := DecodeServer(s);
    if f.opcode in {PING, PONG} {
      var tail := ReceivedIsRest(next, checks, closed, started, parts);
      frames := [f] + tail;
      assert Body(frames) == Body(tail);
    } else if f.final {
      frames := [f];
      assert Body(frames) == f.payload;
    } else {
      var tail := ReceivedIsRest(next, checks, closed, true, parts + f.payload);
      frames := [f] + tail;
      assert parts + f.payload + Body(tail) == parts + Body(frames);
    }
  }

  /**
   Every message of at most 1 MiB that is on the stream is received whole, under every interleaving
   of pings and pongs, and every ping is answered.
   */
  lemma MessageIsReceived(s: seq<byte>, frames: seq<Frame>, rest: seq<byte>, checks: TextChecks)
    requires Reads(s, frames, rest) && IsMessage(frames) && |Body(frames)| <= MAX_WS_FRAME
    ensures Receive(s, checks, false, false, []) == Received(Verdict(Body(frames), checks), rest, Pongs(frames), false)
  {
    hide Receive, Reads, Verdict;
    CompletesIsMessage(frames, false);
    RestIsReceived(s, frames, rest, checks, false, []);
    assert [] + Body(frames) == Body(frames);
  }

  /** What such a message comes to: an encoding error, an exposed secret, or exactly its joined payloads. */
  lemma OutcomeOfMessage(s: seq<byte>, frames: seq<Frame>, rest: seq<byte>, checks: TextChecks)
    requires Reads(s, frames, rest) && IsMessage(frames) && |Body(frames)| <= 1_048_576
    ensures
      var body := Body(frames);
      var outcome := Receive(s, checks, false, false, []).outcome;
      && (outcome == Fail(InvalidUtf8) <==> !checks.utf8(body))
      && (outcome == Fail(SecretExposure) <==> checks.utf8(body) && checks.reflects(body))
      && (checks.utf8(body) && !checks.reflects(body) ==> outcome == Ok(body))
  {
    hide Receive, Reads;
    MessageIsReceived(s, frames, rest, checks);
  }

  /** The front of a message that is not complete: pings, pongs, and at most a text frame and continuations that are not final. */
  ghost predicate IsFront(frames: seq<Frame>, started: bool) {
    && (forall i | 0 <= i < |frames| :: frames[i].opcode in {0, 1, 9, 10})
    && IsFrontData(DataFrames(frames), started)
  }

  ghost predicate IsFrontData(data: seq<Frame>, started: bool) {
    && (forall i | 0 <= i < |data| :: !data[i].final)
    && (forall i | 0 <= i < |data| :: data[i].opcode == 1 <==> i == 0 && !started)
  }

  lemma FrontStep(frames: seq<Frame>, started: bool)
    requires frames != [] && IsFront(frames, started)
    ensures
      var f := frames[0];
      if IsData(f) then !f.final && f.opcode == (if started then CONTINUATION else TEXT) && IsFront(frames[1..], true)
      else f.opcode in {PING, PONG} && IsFront(frames[1..], started)
  {
    var f, tail := frames[0], frames[1..];
    assert forall i | 0 <= i < |tail| :: tail[i] == frames[i + 1];
    if IsData(f) {
      var data := DataFrames(frames);
      DataOf(frames);
      assert data[0] == f;
      assert forall i | 0 <= i < |DataFrames(tail)| :: DataFrames(tail)[i] == data[i + 1];
    } else {
      assert DataFrames(frames) == DataFrames(tail);
    }
  }

  /** What the first frame of a front contributes. */
  lemma FrontHead(frames: seq<Frame>, parts: seq<byte>)
    requires frames != []
    ensures
      var f, tail := frames[0], frames[1..];
      && (IsData(f) ==> DataFrames(frames) != [] && Pongs(frames) == Pongs(tail) && |f.payload| + |Body(tail)| == |Body(frames)|)
      && (IsData(f) ==> (parts + f.payload) + Body(tail) == parts + Body(frames))
      && (!IsData(f) ==> DataFrames(frames) == DataFrames(tail) && Body(frames) == Body(tail))
      && (f.opcode == PING ==> Pongs(frames) == [Frame(PONG, true, f.payload)] + Pongs(tail))
      && (f.opcode == PONG ==> Pongs(frames) == Pongs(tail))
  {
  }

  lemma FrontFrame(s: seq<byte>, f: Frame, rest: seq<byte>, checks: TextChecks, started: bool, parts: seq<byte>)
    requires DecodeServer(s) == Decoded(f, rest)
    ensures
      var r := Receive(s, checks, false, started, parts);
      var next := Receive(rest, checks, false, started, parts);
      && (f.opcode == PING ==> r == next.(pongs := [Frame(PONG, true, f.payload)] + next.pongs))
      && (f.opcode == PONG ==> r == next)
      && (f.opcode == (if started then CONTINUATION else TEXT) && !f.final && |parts| + |f.payload| <= MAX_WS_FRAME ==>
            r == Receive(rest, checks, false, true, parts + f.payload))
  {
    hide DecodeServer, Receive;
    ReceiveFrame(s, f, rest, checks, false, started, parts);
  }

  lemma {:induction false} FrontIsRead(
      s: seq<byte>, frames: seq<Frame>, rest: seq<byte>, checks: TextChecks, started: bool, parts: seq<byte>)
    requires Reads(s, frames, rest) && IsFront(frames, started)
    requires |parts| + |Body(frames)| <= MAX_WS_FRAME
    ensures
      var next := Receive(rest, checks, false, started || DataFrames(frames) != [], parts + Body(frames));
      Receive(s, checks, false, started, parts) == next.(pongs := Pongs(frames) + next.pongs)
    decreases |frames|
  {
    if frames == [] {
      assert parts + Body(frames) == parts;
    } else {
      hide DecodeServer, Receive, IsFront, Body, Pongs, DataFrames;
      var f, tail := frames[0], frames[1..];
      var next := DecodeServer(s).rest;
      FrontStep(frames, started);
      FrontHead(frames, parts);
      FrontFrame(s, f, next, checks, started, parts);
      if IsData(f) {
        FrontIsRead(next, tail, rest, checks, true, parts + f.payload);
      } else {
        FrontIsRead(next, tail, rest, checks, started, parts);
        var after := Receive(rest, checks, false, started || DataFrames(frames) != [], parts + Body(frames));
        Associates([Frame(PONG, true, f.payload)], Pongs(tail), after.pongs);
      }
    }
  }

  /** Why no text is returned: what follows the front of a message, and every ping of that front is answered all the same. */
  lemma FailureOfStream(s: seq<byte>, frames: seq<Frame>, rest: seq<byte>, checks: TextChecks)
    requires Reads(s, frames, rest) && IsFront(frames, false) && |Body(frames)| <= 1_048_576
    ensures
      var r := Receive(s, checks, false, false, []);
      var started := DataFrames(frames) != [];
      var next := DecodeServer(rest);
      && (next.Incomplete? ==> r == Received(Fail(ConnectionClosed), [], Pongs(frames), false))
      && (next.Refused? ==> r == Received(Fail(BadFrame(next.reason)), [], Pongs(frames), false))
      && (next.Decoded? ==>
            var f := next.frame;
            && (f.opcode == 8 ==> r == Received(Fail(ConnectionClosed), [], Pongs(frames), true))
            && (f.opcode == 1 && started ==> r == Received(Fail(NewTextTooSoon), [], Pongs(frames), false))
            && (f.opcode == (if started then 0 else 1) && |Body(frames)| + |f.payload| > 1_048_576 ==>
                  r == Received(Fail(MessageTooLarge), [], Pongs(frames), false))
            && ((f.opcode == 0 && !started) || 2 <= f.opcode <= 7 || f.opcode > 10 ==>
                  r == Received(Fail(Unsupported(f.opcode)), [], Pongs(frames), false)))
  {
    hide DecodeServer, Receive, IsFront, Reads, Pongs, Body;
    var started := DataFrames(frames) != [];
    FrontIsRead(s, frames, rest, checks, false, []);
    assert [] + Body(frames) == Body(frames);
    ReceiveNothing(rest, checks, false, started, Body(frames));
    if DecodeServer(rest).Decoded? {
      var Decoded(f, more) := DecodeServer(rest);
      ReceiveFrame(rest, f, more, checks, false, started, Body(frames));
    }
    assert Pongs(frames) + [] == Pongs(frames);
  }

  /** Conversely, a text that is returned was exactly one such message, and is at most 1 MiB. */
  lemma ReceivedIsMessage(s: seq<byte>, checks: TextChecks, closed: bool) returns (frames: seq<Frame>)
    requires Receive(s, checks, closed, false, []).outcome.Ok?
    ensures
      var r := Receive(s, checks, closed, false, []);
      && Reads(s, frames, r.rest) && IsMessage(frames)
      && r.outcome.value == Body(frames) && |r.outcome.value| <= MAX_WS_FRAME
      && checks.utf8(r.outcome.value) && !checks.reflects(r.outcome.value)
      && r.pongs == Pongs(frames) && !r.closes
  {
    hide Receive, Reads;
    frames := ReceivedIsRest(s, checks, closed, false, []);
    CompletesIsMessage(frames, false);
    assert [] + Body(frames) == Body(frames);
  }

  /** A reception after these pongs have been sent. */
  function After(pongs: seq<Frame>, r: Received): Received {
    r.(pongs := pongs + r.pongs)
  }

  lemma AfterNothing(r: Received)
    ensures After([], r) == r
  {
    assert [] + r.pongs == r.pongs;
  }

  lemma AfterPong(pongs: seq<Frame>, pong: Frame, r: Received)
    ensures After(pongs, r.(pongs := [pong] + r.pongs)) == After(pongs + [pong], r)
  {
    assert pongs + ([pong] + r.pongs) == pongs + [pong] + r.pongs;
  }

  lemma AfterEnd(pongs: seq<Frame>, r: Received)
    ensures r.pongs == [] ==> After(pongs, r) == r.(pongs := pongs)
  {
    assert pongs + [] == pongs;
  }

  lemma NeverTimeout(s: seq<byte>, checks: TextChecks)
    ensures Verdict(s, checks) != Fail(Timeout)
  {
  }

  // ----- the client -----

  class WebSocket {
    const sock: Socket
    const checks: TextChecks
    var buffer: seq<byte>
    var closed: bool
    // What was sent before the first frame, and the stream as it was then.
    ghost const request: seq<byte>
    ghost const origin: seq<byte>
    ghost var consumed: seq<byte>
    ghost var written: seq<byte>
    ghost var frames: seq<Frame>
    ghost var received: seq<Frame>
    // No frame has failed to be read yet, so the stream is at a frame boundary.
    ghost var intact: bool

    /**
     No byte is ever lost, repeated or reordered; and a peer that decodes everything written after the
     request gets exactly the frames that were sent, with no bytes left over.
     */
    ghost predicate Conserves()
      reads this`buffer, this`consumed, this`written, this`frames, sock
    {
      && consumed + buffer + sock.unread == sock.stream
      && sock.sent == request + written && DecodeClientAll(written) == Some(frames)
    }

    /** Besides, the frames received so far are those that the one-shot decoder finds on the whole stream. */
    ghost predicate Valid()
      reads this`buffer, this`consumed, this`written, this`frames, this`received, this`intact, sock
    {
      Conserves() && (intact ==> Reads(origin, received, Stream()))
    }

    /** The bytes still to be interpreted, however they are split between buffer and socket. */
    ghost function Stream(): seq<byte>
      reads this`buffer, sock`unread
    {
      buffer + sock.unread
    }

    constructor (sock: Socket, initial: seq<byte>, checks: TextChecks, ghost handshake: seq<byte>)
      requires handshake + initial + sock.unread == sock.stream
      ensures Valid() && this.sock == sock && this.checks == checks
      ensures Stream() == origin == initial + sock.unread && consumed == handshake && request == sock.sent
      ensures frames == received == [] && intact && !closed
    {
      this.sock, this.checks, this.request, this.origin := sock, checks, sock.sent, initial + sock.unread;
      buffer, closed, consumed, written, frames, received, intact := initial, false, handshake, [], [], [], true;
    }

    /** Exactly `size` bytes from the front of the stream, over any chunking of the socket. */
    method ReadExact(size: nat) returns (r: Result<seq<byte>>)
      requires Conserves()
      modifies this`buffer, this`consumed, sock`unread
      ensures Conserves() && sock.sent == old(sock.sent)
      ensures match r
        case Ok(bytes) =>
          && size <= |old(Stream())|
          && bytes == old(Stream())[..size] && Stream() == old(Stream())[size..]
          && consumed == old(consumed) + bytes
        case Fail(failure) =>
          && Stream() == old(Stream()) && consumed == old(consumed)
          && (failure == Timeout || (failure == ConnectionClosed && |old(Stream())| < size))
          && (failure == Timeout ==> !sock.prompt && |old(buffer)| < size)
    {
      while |buffer| < size
        invariant Conserves() && consumed == old(consumed) && sock.sent == old(sock.sent)
        invariant Stream() == old(Stream()) && |old(buffer)| <= |buffer| && (|buffer| == |old(buffer)| || |old(buffer)| < size)
        decreases |sock.unread|
      {
        var expired: bool := *;
        if expired && !sock.prompt {
          return Fail(Timeout);
        }
        var want := size - |buffer|;
        var chunk := sock.Recv(if want > 4096 then want else 4096);
        if chunk == [] {
          return Fail(ConnectionClosed);
        }
        buffer := buffer + chunk;
      }
      ghost var stream := Stream();
      r := Ok(buffer[..size]);
      assert buffer == buffer[..size] + buffer[size..];
      assert stream[..size] == buffer[..size] && stream[size..] == buffer[size..] + sock.unread;
      consumed := consumed + buffer[..size];
      buffer := buffer[size..];
    }

    /**
     Unless the deadline expires, the next frame is what the one-shot decoder finds at the front of
     the whole stream, and exactly its bytes are consumed.
     */
    method NextFrame() returns (r: Result<Frame>)
      requires Conserves()
      modifies this`buffer, this`consumed, sock`unread
      ensures Conserves() && sock.sent == old(sock.sent)
      ensures old(consumed) <= consumed
      ensures sock.prompt ==> r != Fail(Timeout)
      ensures r == Fail(Timeout) ||
        match DecodeServer(old(Stream()))
        case Decoded(f, rest) => r == Ok(f) && Stream() == rest
        case Incomplete => r == Fail(ConnectionClosed)
        case Refused(reason) => r == Fail(BadFrame(reason))
    {
      hide HighBit, Reserved, LowNibble, LowBits, LengthField, DecodePayload, Conserves, Stream;
      ghost var s := Stream();
      var firstTwo := ReadExact(2);
      if firstTwo.Fail? {
        return Fail(firstTwo.failure);
      }
      var first, second := firstTwo.value[0], firstTwo.value[1];
      var final := HighBit(first);
      if Reserved(first) {
        return Fail(BadFrame(ReservedBits));
      }
      var opcode := LowNibble(first);
      if HighBit(second) {
        return Fail(BadFrame(ServerMasked));
      }
      var length := ReadLength(LowBits(second));
      if length.Fail? {
        return Fail(length.failure);
      }
      r := ReadPayload(opcode, final, length.value);
    }

    /** The length that the second byte announces or that follows it. */
    method ReadLength(code: nat) returns (r: Result<nat>)
      requires Conserves()
      modifies this`buffer, this`consumed, sock`unread
      ensures Conserves() && sock.sent == old(sock.sent) && old(consumed) <= consumed
      ensures sock.prompt ==> r != Fail(Timeout)
      ensures r == Fail(Timeout) || (LengthField(code, old(Stream())) == None && r == Fail(ConnectionClosed))
           || (r.Ok? && LengthField(code, old(Stream())) == Some((r.value, Stream())))
    {
      hide FromBigEndian, Conserves, Stream;
      if code != 126 && code != 127 {
        return Ok(code);
      }
      var extension := ReadExact(if code == 126 then 2 else 8);
      if extension.Fail? {
        return Fail(extension.failure);
      }
      r := Ok(FromBigEndian(extension.value));
    }

    /** The payload, unless the head of the frame is refused. */
    method ReadPayload(opcode: Opcode, final: bool, length: nat) returns (r: Result<Frame>)
      requires Conserves()
      modifies this`buffer, this`consumed, sock`unread
      ensures Conserves() && sock.sent == old(sock.sent) && old(consumed) <= consumed
      ensures sock.prompt ==> r != Fail(Timeout)
      ensures r == Fail(Timeout) ||
        match DecodePayload(opcode, final, length, old(Stream()))
        case Decoded(f, rest) => r == Ok(f) && Stream() == rest
        case Incomplete => r == Fail(ConnectionClosed)
        case Refused(reason) => r == Fail(BadFrame(reason))
    {
      hide Conserves, Stream;
      if opcode >= 8 && (!final || length > 125) {
        return Fail(BadFrame(BadControl));
      }
      if length > MAX_WS_FRAME {
        return Fail(BadFrame(TooLarge));
      }
      var payload := ReadExact(length);
      if payload.Fail? {
        return Fail(payload.failure);
      }
      r := Ok(Frame(opcode, final, payload.value));
    }

    /**
     The frames received so far are always a front part of those on the whole stream.  When a read
     fails, other than by its deadline, all of them have been received.
     */
    method RecvFrame() returns (r: Result<Frame>)
      requires Valid()
      modifies this`buffer, this`consumed, this`received, this`intact, sock`unread
      ensures Valid() && sock.sent == old(sock.sent)
      ensures old(consumed) <= consumed
      ensures sock.prompt ==> r != Fail(Timeout)
      ensures r == Fail(Timeout) ||
        match DecodeServer(old(Stream()))
        case Decoded(f, rest) => r == Ok(f) && Stream() == rest
        case Incomplete => r == Fail(ConnectionClosed)
        case Refused(reason) => r == Fail(BadFrame(reason))
      ensures match r
        case Ok(f) => received == old(received) + [f] && intact == old(intact)
        case Fail(failure) =>
          && received == old(received) && !intact
          && (old(intact) && failure != Timeout ==> received == Frames(origin))
      ensures old(intact) ==> received <= Frames(origin)
    {
      hide DecodeServer, DecodeClientAll, Reads, Frames;
      ghost var s := Stream();
      r := NextFrame();
      if intact {
        ReadsIsFront(origin, received, s);
        NoMoreFrames(s);
      }
      match r {
        case Ok(f) =>
          if intact {
            assert r == Fail(Timeout) || DecodeServer(s) == Decoded(f, Stream());
            ReadsOneMore(origin, received, s, f, Stream());
            ReadsIsFront(origin, received + [f], Stream());
          }
          received := received + [f];
        case Fail(_) =>
          intact := false;
      }
    }

    /** Write one masked frame, in the shortest of its encodings. */
    method SendFrame(opcode: Opcode, payload: seq<byte>) returns (failure: Option<Failure>, ghost mask: Mask)
      requires Valid()
      modifies this`frames, this`written, sock`sent
      ensures Valid()
      ensures failure == if closed then Some(ConnectionClosed)
                         else if |payload| > MAX_WS_FRAME then Some(MessageTooLarge) else None
      ensures
        var f := Frame(opcode, true, payload);
        if failure.Some? then frames == old(frames) && sock.sent == old(sock.sent)
        else
          && frames == old(frames) + [f]
          && Fits(ShortestForm(|payload|), |payload|)
          && sock.sent == old(sock.sent) + Wire(f, ShortestForm(|payload|), Some(mask))
    {
      hide Fits, Wire, ShortestForm, DecodeClientAll, Masked, Reads;
      mask := [0, 0, 0, 0];
      if closed {
        return Some(ConnectionClosed), mask;
      }
      if |payload| > MAX_WS_FRAME {
        return Some(MessageTooLarge), mask;
      }
      var drawn: Mask := *;
      mask := drawn;
      var bytes := FrameBytes(opcode, payload, drawn);
      ghost var f := Frame(opcode, true, payload);
      ghost var form := ShortestForm(|payload|);
      DecodeClientAllAppend(written, frames, f, form, mask);
      sock.SendAll(bytes);
      written := written + bytes;
      assert sock.sent == request + written;
      frames := frames + [f];
      failure := None;
    }

    /** The checks on a complete text, in their order. */
    method CheckText(text: seq<byte>) returns (r: Result<seq<byte>>)
      ensures r == Verdict(text, checks)
    {
      if !checks.utf8(text) {
        return Fail(InvalidUtf8);
      }
      if checks.reflects(text) {
        return Fail(SecretExposure);
      }
      r := Ok(text);
    }

    /** Unless the deadline expires, the outcome is a function of the bytes on the stream alone. */
    method RecvText() returns (r: Result<seq<byte>>)
      requires Valid()
      modifies this, sock
      ensures Valid()
      ensures old(consumed) <= consumed
      ensures r != Fail(Timeout) ==>
        var meaning := Receive(old(Stream()), checks, old(closed), false, []);
        && r == meaning.outcome
        && frames == old(frames) + meaning.pongs
        && closed == (old(closed) || meaning.closes)
        && (r.Ok? ==> Stream() == meaning.rest)
      ensures r == Fail(Timeout) ==> closed == old(closed) && !sock.prompt
      ensures r.Ok? ==> intact == old(intact)
    {
      hide DecodeServer, Wire, ShortestForm, Fits, Frames, Receive, Verdict, Valid, Stream, After;
      ghost var meaning := Receive(Stream(), checks, closed, false, []);
      var fragments: seq<byte> := [];
      var textStarted := false;
      ghost var pongs: seq<Frame> := [];
      AfterNothing(meaning);
      while true
        invariant Valid() && closed == old(closed) && old(consumed) <= consumed
        invariant meaning == After(pongs, Receive(Stream(), checks, closed, textStarted, fragments))
        invariant frames == old(frames) + pongs
        invariant intact == old(intact)
        decreases |Stream()|
      {
        ghost var s := Stream();
        ReceiveNothing(s, checks, closed, textStarted, fragments);
        var got := RecvFrame();
        AfterEnd(pongs, Receive(s, checks, closed, textStarted, fragments));
        if got.Fail? {
          return Fail(got.failure);
        }
        var f := got.value;
        ReceiveFrame(s, f, Stream(), checks, closed, textStarted, fragments);
        if f.opcode == CLOSE {
          closed := true;
          return Fail(ConnectionClosed);
        }
        if f.opcode == PING {
          var failure, _ := SendFrame(PONG, f.payload);
          if failure.Some? {
            assert closed by { DecodedIsBounded(s); }
            return Fail(failure.value);
          }
          ghost var pong := Frame(PONG, true, f.payload);
          AfterPong(pongs, pong, Receive(Stream(), checks, closed, textStarted, fragments));
          assert old(frames) + pongs + [pong] == old(frames) + (pongs + [pong]);
          pongs := pongs + [pong];
          continue;
        }
        if f.opcode == PONG {
          continue;
        }
        if f.opcode == TEXT {
          if textStarted {
            return Fail(NewTextTooSoon);
          }
          textStarted := true;
          fragments := fragments + f.payload;
        } else if f.opcode == CONTINUATION && textStarted {
          fragments := fragments + f.payload;
        } else {
          return Fail(Unsupported(f.opcode));
        }
        if |fragments| > MAX_WS_FRAME {
          return Fail(MessageTooLarge);
        }
        if f.final {
          NeverTimeout(fragments, checks);
          r := CheckText(fragments);
          return;
        }
      }
      assert false;
      r := Fail(Timeout);
    }

    /** Say goodbye once; nothing can be sent afterwards. */
    method Close()
      requires Valid()
      modifies this`closed, this`frames, this`written, sock`sent
      ensures Valid() && closed
      ensures frames == old(frames) + if old(closed) then [] else [Frame(CLOSE, true, [3, 232])]
    {
      if closed {
        return;
      }
      var _, _ := SendFrame(CLOSE, BigEndian(1000, 2));
      assert BigEndian(1000, 2) == [3, 232] by { assert BigEndian(3, 1) == [3]; }
      closed := true;
    }
  }

  /** The bytes of a final masked frame, with its length in the shortest form. */
  method FrameBytes(opcode: Opcode, payload: seq<byte>, mask: Mask) returns (bytes: seq<byte>)
    requires |payload| <= MAX_WS_FRAME
    ensures Fits(ShortestForm(|payload|), |payload|)
    ensures bytes == Wire(Frame(opcode, true, payload), ShortestForm(|payload|), Some(mask))
  {
    Pow256Values();
    var first: byte := 128 + opcode;
    var length := |payload|;
    var header: seq<byte>;
    if length < 126 {
      header := [first, 128 + length];
    } else if length <= 0xFFFF {
      header := [first, 128 + 126] + BigEndian(length, 2);
    } else {
      header := [first, 128 + 127] + BigEndian(length, 8);
    }
    assert header == Head(Frame(opcode, true, payload), ShortestForm(length), true);
    bytes := header + mask + Masked(payload, mask);
  }

  lemma DecodedIsBounded(s: seq<byte>)
    requires DecodeServer(s).Decoded?
    ensures |DecodeServer(s).frame.payload| <= MAX_WS_FRAME
  {
  }

  /** Two readers of the same bytes receive the same frames, over whatever chunks their sockets hand them out. */
  lemma SameBytesSameFrames(a: WebSocket, b: WebSocket)
    requires a.Valid() && b.Valid() && a.intact && b.intact && a.origin == b.origin
    ensures a.received <= b.received || b.received <= a.received
    ensures |a.received| == |b.received| ==> a.received == b.received && a.Stream() == b.Stream()
  {
    ReadsIsDeterministic(a.origin, a.received, a.Stream(), b.received, b.Stream());
  }
}
