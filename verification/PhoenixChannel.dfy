/**
 The probe's Phoenix channel (beam/scripts/platform_probe.py, class `PhoenixChannel`): a mailbox
 with selective receive.  A wait takes the first message that satisfies its predicate and keeps the
 others, in order, for later waits.

 The mailbox is related to a log of all arrivals, and the log to the bytes on the socket.
 */
module PhoenixChannel {
  import opened Basics
  import opened WebSocketFrames
  import opened WebSocketClient

  const MAX_PENDING: nat := 256

  datatype Json =
    | Null
    | Bool(b: bool)
    | Whole(n: int)
    | Fraction(x: real)
    | Text(s: string)
    | Array(items: seq<Json>)
    | Object(fields: map<string, Json>)

  /** The five elements of a Phoenix frame. */
  datatype Message = Message(joinRef: Json, ref: Json, topic: Json, event: Json, payload: Json)

  /** What a text means: not JSON, JSON of another shape, or a Phoenix frame. */
  datatype Parsed = NotJson | NotAFrame | Parsed(message: Message)

  datatype ChannelFailure =
    | SocketFailure(failure: Failure)
    | InvalidJson
    | InvalidFrame
    | StepTimeout
    | PendingOverflow
    | PredicateRaised

  datatype Outcome<+T> = Got(value: T) | Failed(failure: ChannelFailure)

  /** What a predicate says about a message; it may also raise, as it may expect another shape. */
  datatype Answer = No | Yes | Raises

  /** The messages at which a wait ends: those that it wants and those on which its predicate raises. */
  function Ends(wanted: Message -> Answer): Message -> bool {
    m => wanted(m) != No
  }

  // ----- one wait, on values -----

  datatype Waited =
    | Delivered(message: Message, pending: seq<Message>, unused: seq<Message>)
    | Overflow(pending: seq<Message>, unused: seq<Message>)
    | Starved(pending: seq<Message>, unused: seq<Message>)

  function FirstMatch(pending: seq<Message>, wanted: Message -> bool): (r: Option<nat>)
    ensures match r
      case Some(i) => i < |pending| && wanted(pending[i]) && forall j | 0 <= j < i :: !wanted(pending[j])
      case None => forall j | 0 <= j < |pending| :: !wanted(pending[j])
  {
    if pending == [] then None
    else if wanted(pending[0]) then Some(0)
    else
      match FirstMatch(pending[1..], wanted)
      case None => None
      case Some(i) => Some(i + 1)
  }

  /**
   Reading on when nothing pending matches: the first wanted message is delivered, those before it
   are kept, and the one that would be the 257th kept message ends the wait.
   */
  function Scan(pending: seq<Message>, incoming: seq<Message>, wanted: Message -> bool): Waited {
    var room := if |pending| <= MAX_PENDING then MAX_PENDING - |pending| else 0;
    var first := match FirstMatch(incoming, wanted) case Some(i) => i case None => |incoming|;
    if room < first then Overflow(pending + incoming[..room + 1], incoming[room + 1..])
    else if first < |incoming| then Delivered(incoming[first], pending + incoming[..first], incoming[first + 1..])
    else Starved(pending + incoming, [])
  }

  /** A wait over the messages that are pending and those that would arrive. */
  function Wait(pending: seq<Message>, incoming: seq<Message>, wanted: Message -> bool): Waited {
    match FirstMatch(pending, wanted)
    case Some(i) => Delivered(pending[i], Without(pending, i), incoming)
    case None => Scan(pending, incoming, wanted)
  }

  /** Reading one more message continues the scan. */
  lemma {:induction false} ScanOneMore(pending: seq<Message>, seen: seq<Message>, m: Message, wanted: Message -> bool)
    requires Scan(pending, seen, wanted).Starved?
    ensures
      var kept := pending + seen + [m];
      Scan(pending, seen + [m], wanted) ==
        if wanted(m) then Delivered(m, pending + seen, [])
        else if |kept| > MAX_PENDING then Overflow(kept, [])
        else Starved(kept, [])
  {
    FirstMatchAppend(seen, m, wanted);
    var all := seen + [m];
    assert all[|seen| + 1..] == [];
    if wanted(m) {
      assert all[..|seen|] == seen;
    } else {
      assert all[..|seen| + 1] == all;
      assert pending + all == pending + seen + [m];
    }
  }

  lemma {:induction false} FirstMatchAppend(seen: seq<Message>, m: Message, wanted: Message -> bool)
    requires FirstMatch(seen, wanted).None?
    ensures FirstMatch(seen + [m], wanted) == if wanted(m) then Some(|seen|) else None
  {
    var all := seen + [m];
    assert forall j | 0 <= j < |seen| :: all[j] == seen[j];
    assert all[|seen|] == m;
  }

  // ----- the arrival log -----

  /** Everything that ever arrived, and the indices of what has not been delivered, in order. */
  datatype Log = Log(arrivals: seq<Message>, undelivered: seq<nat>)

  ghost predicate Holds(log: Log, pending: seq<Message>) {
    && |log.undelivered| == |pending|
    && (forall i | 0 <= i < |pending| ::
          log.undelivered[i] < |log.arrivals| && log.arrivals[log.undelivered[i]] == pending[i])
    && (forall i, j | 0 <= i < j < |pending| :: log.undelivered[i] < log.undelivered[j])
  }

  function Arrive(log: Log, more: seq<Message>): Log {
    Log(log.arrivals + more, log.undelivered + seq(|more|, i => |log.arrivals| + i))
  }

  lemma {:induction false} ArriveHolds(log: Log, pending: seq<Message>, more: seq<Message>)
    requires Holds(log, pending)
    ensures Holds(Arrive(log, more), pending + more)
  {
  }

  function Without<T>(s: seq<T>, p: nat): seq<T>
    requires p < |s|
  {
    s[..p] + s[p + 1..]
  }

  /** The arrival that the undelivered entry at position `p` stands for. */
  function Entry(log: Log, p: nat): Option<Message> {
    if p < |log.undelivered| && log.undelivered[p] < |log.arrivals| then Some(log.arrivals[log.undelivered[p]]) else None
  }

  /** `after` is `before` with exactly its first undelivered wanted entry, at position `p`, taken out. */
  ghost predicate Delivers(before: Log, after: Log, p: nat, wanted: Message -> bool) {
    && Entry(before, p).Some? && wanted(Entry(before, p).value)
    && (forall q: nat | q < p :: Entry(before, q).Some? && !wanted(Entry(before, q).value))
    && after == before.(undelivered := Without(before.undelivered, p))
  }

  lemma {:induction false} TakeFromLog(log: Log, pending: seq<Message>, p: nat, wanted: Message -> bool)
    requires Holds(log, pending) && p < |pending| && wanted(pending[p])
    requires forall q | 0 <= q < p :: !wanted(pending[q])
    ensures
      var after := log.(undelivered := Without(log.undelivered, p));
      && Delivers(log, after, p, wanted) && Entry(log, p) == Some(pending[p])
      && Holds(after, Without(pending, p))
  {
  }

  /** The messages a wait read from the socket. */
  function Consumed(incoming: seq<Message>, w: Waited): seq<Message>
    requires |w.unused| <= |incoming|
  {
    incoming[..|incoming| - |w.unused|]
  }

  lemma {:induction false} ScanShape(pending: seq<Message>, incoming: seq<Message>, wanted: Message -> bool)
    ensures
      var w := Scan(pending, incoming, wanted);
      && |w.unused| <= |incoming| && incoming == Consumed(incoming, w) + w.unused
      && pending + Consumed(incoming, w) == w.pending + (if w.Delivered? then [w.message] else [])
      && |pending| <= |w.pending|
      && (w.Delivered? ==> wanted(w.message) && forall j | |pending| <= j < |w.pending| :: !wanted(w.pending[j]))
  {
    var w := Scan(pending, incoming, wanted);
    if w.Starved? {
      assert Consumed(incoming, w) == incoming;
    } else {
      var n := |incoming| - |w.unused|;
      assert w.unused == incoming[n..];
      assert w.Delivered? ==> incoming[..n] == incoming[..n - 1] + [w.message];
    }
  }

  /**
   The mailbox refines the log.  Every wait records what it read as arrived, delivers the earliest
   undelivered message that satisfies its predicate or nothing at all, and loses nothing.
   */
  lemma {:induction false} WaitRefinesLog(log: Log, pending: seq<Message>, incoming: seq<Message>, wanted: Message -> bool)
      returns (after: Log, p: nat)
    requires Holds(log, pending)
    ensures
      var w := Wait(pending, incoming, wanted);
      && |w.unused| <= |incoming| && incoming == Consumed(incoming, w) + w.unused
      && Holds(after, w.pending)
      && after.arrivals == log.arrivals + Consumed(incoming, w)
      && var logged := Arrive(log, Consumed(incoming, w));
         if w.Delivered? then Delivers(logged, after, p, wanted) && Entry(logged, p) == Some(w.message)
         else after == logged
    ensures Wait(pending, incoming, wanted).Delivered? && FirstMatch(pending, wanted).None? ==> p >= |log.undelivered|
  {
    var found := FirstMatch(pending, wanted);
    if found.Some? {
      p := found.value;
      assert Consumed(incoming, Wait(pending, incoming, wanted)) == [];
      assert Arrive(log, []) == log by {
        assert seq(0, i => |log.arrivals| + i) == [];
        assert log.arrivals + [] == log.arrivals;
      }
      TakeFromLog(log, pending, p, wanted);
      hide Delivers, Holds, FirstMatch, Scan;
      after := log.(undelivered := Without(log.undelivered, p));
    } else {
      after, p := ScanRefinesLog(log, pending, incoming, wanted);
    }
  }

  lemma {:induction false} ScanRefinesLog(log: Log, pending: seq<Message>, incoming: seq<Message>, wanted: Message -> bool)
      returns (after: Log, p: nat)
    requires Holds(log, pending) && FirstMatch(pending, wanted).None?
    ensures
      var w := Scan(pending, incoming, wanted);
      && |w.unused| <= |incoming| && incoming == Consumed(incoming, w) + w.unused
      && Holds(after, w.pending)
      && after.arrivals == log.arrivals + Consumed(incoming, w)
      && var logged := Arrive(log, Consumed(incoming, w));
         if w.Delivered? then Delivers(logged, after, p, wanted) && Entry(logged, p) == Some(w.message)
         else after == logged
    ensures Scan(pending, incoming, wanted).Delivered? ==> p >= |pending|
  {
    ScanShape(pending, incoming, wanted);
    hide Scan, Delivers, Holds;
    var w := Scan(pending, incoming, wanted);
    var read := Consumed(incoming, w);
    var logged := Arrive(log, read);
    ArriveHolds(log, pending, read);
    if w.Delivered? {
      var all := pending + read;
      p := |w.pending|;
      assert all == w.pending + [w.message];
      forall q | 0 <= q < p
        ensures !wanted(all[q])
      {
        assert all[q] == w.pending[q];
        assert q < |pending| ==> all[q] == pending[q];
      }
      TakeFromLog(logged, all, p, wanted);
      assert Without(all, p) == w.pending;
      after := logged.(undelivered := Without(logged.undelivered, p));
    } else {
      assert pending + read == w.pending;
      after, p := logged, 0;
    }
  }

  // ----- whole runs -----

  /**
   One wait, seen in the log: what arrived, and the position of what left the mailbox, if anything.  It was delivered,
   or it was read from the socket and lost because the predicate raised on it.
   */
  datatype Turn = Turn(read: seq<Message>, wanted: Message -> Answer, position: Option<nat>, lost: bool)

  ghost predicate Step(before: Log, after: Log, turn: Turn) {
    var logged := Arrive(before, turn.read);
    match turn.position
    case None => after == logged && !turn.lost
    case Some(p) =>
      && Delivers(logged, after, p, Ends(turn.wanted))
      && (turn.lost <==> turn.wanted(Entry(logged, p).value) == Raises)
      && (turn.lost ==> p >= |before.undelivered|)
  }

  /** The arrival index that leaves the mailbox in a wait. */
  ghost function Index(before: Log, turn: Turn): Option<nat> {
    var logged := Arrive(before, turn.read);
    if turn.position.Some? && turn.position.value < |logged.undelivered| then Some(logged.undelivered[turn.position.value]) else None
  }

  ghost predicate Run(logs: seq<Log>, turns: seq<Turn>) {
    && |logs| == |turns| + 1
    && logs[0] == Log([], [])
    && forall i | 0 <= i < |turns| :: Step(logs[i], logs[i + 1], turns[i])
  }

  ghost predicate Ordered(log: Log) {
    && (forall i | 0 <= i < |log.undelivered| :: log.undelivered[i] < |log.arrivals|)
    && (forall i, j | 0 <= i < j < |log.undelivered| :: log.undelivered[i] < log.undelivered[j])
  }

  /** An arrival that has been delivered: it is in the log and no longer in the mailbox. */
  ghost predicate Gone(log: Log, k: nat) {
    k < |log.arrivals| && k !in log.undelivered
  }

  lemma {:induction false} ArriveKeeps(log: Log, more: seq<Message>, k: nat)
    requires Ordered(log)
    ensures Ordered(Arrive(log, more))
    ensures Gone(log, k) ==> Gone(Arrive(log, more), k)
  {
  }

  lemma {:induction false} TakeKeeps(log: Log, p: nat, k: nat)
    requires Ordered(log) && p < |log.undelivered|
    ensures
      var after := log.(undelivered := Without(log.undelivered, p));
      && Ordered(after)
      && Gone(after, log.undelivered[p])
      && (Gone(log, k) ==> Gone(after, k) && k != log.undelivered[p])
  {
    var u := log.undelivered;
    assert forall x | x in Without(u, p) :: x in u && x != u[p];
  }

  /** A wait delivers something new, and nothing delivered earlier comes back. */
  lemma {:induction false} StepKeeps(before: Log, after: Log, turn: Turn, k: nat)
    requires Ordered(before) && Step(before, after, turn)
    ensures Ordered(after)
    ensures Gone(before, k) ==> Gone(after, k) && Index(before, turn) != Some(k)
    ensures turn.position.Some? ==> Index(before, turn).Some? && Gone(after, Index(before, turn).value)
    ensures |after.arrivals| - |after.undelivered|
         == |before.arrivals| - |before.undelivered| + if turn.position.Some? then 1 else 0
  {
    var logged := Arrive(before, turn.read);
    ArriveKeeps(before, turn.read, k);
    if turn.position.Some? {
      TakeKeeps(logged, turn.position.value, k);
    }
  }

  function Deliveries(turns: seq<Turn>): nat {
    if turns == [] then 0
    else Deliveries(turns[..|turns| - 1]) + if turns[|turns| - 1].position.Some? && !turns[|turns| - 1].lost then 1 else 0
  }

  function Losses(turns: seq<Turn>): nat {
    if turns == [] then 0 else Losses(turns[..|turns| - 1]) + if turns[|turns| - 1].lost then 1 else 0
  }

  /**
   After any run from an empty mailbox, every arrival is delivered, still in the mailbox, or was lost to a predicate that
   raised on it; and if no predicate of the run ever raises, nothing is lost.
   */
  lemma {:induction false} NothingIsLost(logs: seq<Log>, turns: seq<Turn>)
    requires Run(logs, turns)
    ensures Ordered(logs[|turns|])
    ensures Deliveries(turns) + Losses(turns) + |logs[|turns|].undelivered| == |logs[|turns|].arrivals|
    ensures (forall i, m | 0 <= i < |turns| :: turns[i].wanted(m) != Raises) ==> Losses(turns) == 0
    decreases |turns|
  {
    if turns != [] {
      hide Run, Step, Ordered, Gone, Index;
      var n := |turns| - 1;
      RunFront(logs, turns);
      NothingIsLost(logs[..n + 1], turns[..n]);
      StepKeeps(logs[n], logs[n + 1], turns[n], 0);
      if turns[n].lost {
        StepLosses(logs[n], logs[n + 1], turns[n]);
      }
      assert forall i | 0 <= i < n :: turns[..n][i] == turns[i];
    }
  }

  lemma {:induction false} RunFront(logs: seq<Log>, turns: seq<Turn>)
    requires Run(logs, turns) && turns != []
    ensures |logs| == |turns| + 1
    ensures Run(logs[..|turns|], turns[..|turns| - 1])
    ensures Step(logs[|turns| - 1], logs[|turns|], turns[|turns| - 1])
  {
    hide Step;
    var n := |turns| - 1;
    assert Step(logs[n], logs[n + 1], turns[n]);
  }

  lemma {:induction false} StepLosses(before: Log, after: Log, turn: Turn)
    requires Step(before, after, turn) && turn.lost
    ensures turn.position.Some? && exists m :: turn.wanted(m) == Raises
  {
  }

  /** A run that loses its only arrival: the predicate raises on it. */
  lemma {:induction false} RaisingLosesMessage(m: Message, wanted: Message -> Answer) returns (logs: seq<Log>, turns: seq<Turn>)
    requires wanted(m) == Raises
    ensures Run(logs, turns) && |turns| == 1 && Losses(turns) == 1 && logs[1] == Log([m], [])
  {
    logs := [Log([], []), Log([m], [])];
    turns := [Turn([m], wanted, Some(0), true)];
    assert Arrive(logs[0], [m]) == Log([m], [0]);
    assert Without([0], 0) == [];
    assert turns[..0] == [];
  }

  /** No arrival is delivered twice in a run. */
  lemma {:induction false} DeliveredOnce(logs: seq<Log>, turns: seq<Turn>, i: nat, j: nat)
    requires Run(logs, turns) && i < j < |turns| && turns[i].position.Some?
    ensures Index(logs[i], turns[i]).Some?
    ensures Index(logs[i], turns[i]) != Index(logs[j], turns[j])
  {
    NothingIsLost(logs[..i + 1], turns[..i]);
    StepKeeps(logs[i], logs[i + 1], turns[i], 0);
    var k := Index(logs[i], turns[i]).value;
    StaysGone(logs, turns, i + 1, j, k);
    StepKeeps(logs[j], logs[j + 1], turns[j], k);
  }

  lemma {:induction false} StaysGone(logs: seq<Log>, turns: seq<Turn>, i: nat, j: nat, k: nat)
    requires Run(logs, turns) && i <= j <= |turns|
    requires Ordered(logs[i]) && Gone(logs[i], k)
    ensures Ordered(logs[j]) && Gone(logs[j], k)
    decreases j - i
  {
    if i < j {
      StepKeeps(logs[i], logs[i + 1], turns[i], k);
      StaysGone(logs, turns, i + 1, j, k);
    }
  }

  /**
   When a wait returns a message, the mailbox is within its bound exactly when it was before, or
   was one over and the message came out of it.
   */
  lemma {:induction false} PendingBound(pending: seq<Message>, incoming: seq<Message>, wanted: Message -> bool)
    requires Wait(pending, incoming, wanted).Delivered?
    ensures |Wait(pending, incoming, wanted).pending| <= MAX_PENDING <==>
            || |pending| <= MAX_PENDING
            || (|pending| == MAX_PENDING + 1 && FirstMatch(pending, wanted).Some?)
  {
  }

  /** Whether it returns, times out or fails: a wait leaves the bound exactly by overflowing. */
  lemma {:induction false} WaitBound(pending: seq<Message>, incoming: seq<Message>, wanted: Message -> bool)
    requires |pending| <= MAX_PENDING
    ensures |Wait(pending, incoming, wanted).pending| <= MAX_PENDING <==> !Wait(pending, incoming, wanted).Overflow?
  {
  }

  /** The wait ends at a message that is already pending, because its predicate raises on it. */
  predicate RaisesOnPending(pending: seq<Message>, wanted: Message -> Answer) {
    var found := FirstMatch(pending, Ends(wanted));
    found.Some? && wanted(pending[found.value]) == Raises
  }

  /** The mailbox after a wait. */
  function Left(pending: seq<Message>, incoming: seq<Message>, wanted: Message -> Answer): seq<Message> {
    if RaisesOnPending(pending, wanted) then pending else Wait(pending, incoming, Ends(wanted)).pending
  }

  /** The mailbox before each wait of a run and after the last, from an empty one. */
  ghost predicate Mailboxes(pendings: seq<seq<Message>>, incomings: seq<seq<Message>>, wanteds: seq<Message -> Answer>) {
    && |incomings| == |wanteds| && |pendings| == |wanteds| + 1 && pendings[0] == []
    && forall i | 0 <= i < |wanteds| :: pendings[i + 1] == Left(pendings[i], incomings[i], wanteds[i])
  }

  /** Over a whole run, at most 256 messages are pending after every wait if and only if none has overflowed. */
  lemma {:induction false} BoundedRun(
      pendings: seq<seq<Message>>, incomings: seq<seq<Message>>, wanteds: seq<Message -> Answer>, n: nat)
    requires Mailboxes(pendings, incomings, wanteds) && n <= |wanteds|
    ensures (forall i | 0 <= i <= n :: |pendings[i]| <= MAX_PENDING)
       <==> forall i | 0 <= i < n :: !Wait(pendings[i], incomings[i], Ends(wanteds[i])).Overflow?
  {
    hide Wait, Left;
    if n > 0 {
      var k := n - 1;
      BoundedRun(pendings, incomings, wanteds, k);
      assert pendings[k + 1] == Left(pendings[k], incomings[k], wanteds[k]);
      if |pendings[k]| <= MAX_PENDING {
        LeftBound(pendings[k], incomings[k], wanteds[k]);
      }
    }
  }

  lemma {:induction false} LeftBound(pending: seq<Message>, incoming: seq<Message>, wanted: Message -> Answer)
    requires |pending| <= MAX_PENDING
    ensures |Left(pending, incoming, wanted)| <= MAX_PENDING <==> !Wait(pending, incoming, Ends(wanted)).Overflow?
  {
    WaitBound(pending, incoming, Ends(wanted));
  }

  /** A wait that follows an overflow can return normally and leave 257 messages pending. */
  lemma {:induction false} PendingBoundFails(noise: Message, wanted: Message)
    requires noise != wanted
    ensures
      var isWanted := m => m == wanted;
      var full := seq(MAX_PENDING, i => noise);
      var first := Wait(full, [noise], isWanted);
      && first.Overflow?
      && var second := Wait(first.pending, [wanted], isWanted);
         second.Delivered? && |second.pending| == 257
  {
    var isWanted := m => m == wanted;
    var full := seq(MAX_PENDING, i => noise);
    assert FirstMatch(full, isWanted).None?;
    var over := full + [noise];
    assert FirstMatch(over, isWanted).None?;
  }

  // ----- arrivals and bytes -----

  /** Receiving text after text from `s` gives exactly `messages`, and leaves `rest`. */
  ghost predicate Arrives(s: seq<byte>, messages: seq<Message>, rest: seq<byte>, checks: TextChecks, parse: seq<byte> -> Parsed)
    decreases |messages|
  {
    if messages == [] then s == rest
    else
      var r := Receive(s, checks, false, false, []);
      && r.outcome.Ok?
      && parse(r.outcome.value) == Parsed(messages[0])
      && Arrives(r.rest, messages[1..], rest, checks, parse)
  }

  lemma {:induction false} ArrivesOneMore(
      s: seq<byte>, messages: seq<Message>, middle: seq<byte>, m: Message, checks: TextChecks, parse: seq<byte> -> Parsed)
    requires Arrives(s, messages, middle, checks, parse)
    requires
      var r := Receive(middle, checks, false, false, []);
      r.outcome.Ok? && parse(r.outcome.value) == Parsed(m)
    ensures Arrives(s, messages + [m], Receive(middle, checks, false, false, []).rest, checks, parse)
    decreases |messages|
  {
    hide Receive;
    if messages == [] {
      assert ([] + [m])[1..] == [];
    } else {
      ArrivesOneMore(Receive(s, checks, false, false, []).rest, messages[1..], middle, m, checks, parse);
      assert (messages + [m])[1..] == messages[1..] + [m];
    }
  }

  /** What arrives depends on the bytes alone: two runs over one stream never see different messages. */
  lemma {:induction false} ArrivalsAgree(
      s: seq<byte>, a: seq<Message>, restA: seq<byte>, b: seq<Message>, restB: seq<byte>,
      checks: TextChecks, parse: seq<byte> -> Parsed)
    requires Arrives(s, a, restA, checks, parse) && Arrives(s, b, restB, checks, parse)
    ensures a <= b || b <= a
    ensures |a| == |b| ==> restA == restB
    decreases |a|
  {
    hide Receive;
    if a != [] && b != [] {
      var next := Receive(s, checks, false, false, []).rest;
      ArrivalsAgree(next, a[1..], restA, b[1..], restB, checks, parse);
      assert a == [a[0]] + a[1..] && b == [b[0]] + b[1..];
    }
  }

  /** What the next text on a stream is to the channel. */
  function Meant(outcome: Result<seq<byte>>, parse: seq<byte> -> Parsed): Outcome<Message> {
    match outcome
    case Fail(failure) => Failed(SocketFailure(failure))
    case Ok(text) =>
      match parse(text)
      case NotJson => Failed(InvalidJson)
      case NotAFrame => Failed(InvalidFrame)
      case Parsed(m) => Got(m)
  }

  /** All messages on a stream, and why there are no more. */
  datatype Contents = Contents(messages: seq<Message>, ending: ChannelFailure)

  function Messages(s: seq<byte>, checks: TextChecks, parse: seq<byte> -> Parsed): Contents
    decreases |s|
  {
    var received := Receive(s, checks, false, false, []);
    match Meant(received.outcome, parse)
    case Failed(failure) => Contents([], failure)
    case Got(m) =>
      var rest := Messages(received.rest, checks, parse);
      Contents([m] + rest.messages, rest.ending)
  }

  lemma {:induction false} MessagesStep(s: seq<byte>, checks: TextChecks, parse: seq<byte> -> Parsed)
    ensures
      var received := Receive(s, checks, false, false, []);
      var meant := Meant(received.outcome, parse);
      && (meant.Failed? ==> Messages(s, checks, parse) == Contents([], meant.failure))
      && (meant.Got? ==>
            && |received.rest| < |s|
            && Messages(s, checks, parse).messages == [meant.value] + Messages(received.rest, checks, parse).messages
            && Messages(s, checks, parse).ending == Messages(received.rest, checks, parse).ending)
  {
    hide Receive;
  }

  /** What the next text on a stream makes of it: a message, or the failure with which the stream ends. */
  lemma {:induction false} NextOnStream(s: seq<byte>, checks: TextChecks, parse: seq<byte> -> Parsed)
    ensures
      var received := Receive(s, checks, false, false, []);
      match received.outcome
      case Fail(failure) => Messages(s, checks, parse) == Contents([], SocketFailure(failure))
      case Ok(text) =>
        match parse(text)
        case NotJson => Messages(s, checks, parse) == Contents([], InvalidJson)
        case NotAFrame => Messages(s, checks, parse) == Contents([], InvalidFrame)
        case Parsed(m) =>
          && |received.rest| < |s|
          && Messages(s, checks, parse).messages == [m] + Messages(received.rest, checks, parse).messages
          && Messages(s, checks, parse).ending == Messages(received.rest, checks, parse).ending
  {
    hide Receive;
    MessagesStep(s, checks, parse);
  }

  /** A stream never ends with one of the failures that a wait has of its own, nor with an expired deadline. */
  lemma {:induction false} EndingIsForeign(s: seq<byte>, checks: TextChecks, parse: seq<byte> -> Parsed)
    ensures Messages(s, checks, parse).ending !in {StepTimeout, PendingOverflow, PredicateRaised, SocketFailure(Timeout)}
    decreases |s|
  {
    hide Receive;
    MessagesStep(s, checks, parse);
    ReceiveNeverTimesOut(s, checks, false, false, []);
    if Meant(Receive(s, checks, false, false, []).outcome, parse).Got? {
      EndingIsForeign(Receive(s, checks, false, false, []).rest, checks, parse);
    }
  }

  /** A wait that has ended is not changed by what would arrive after it. */
  lemma {:induction false} ScanPrefix(pending: seq<Message>, read: seq<Message>, more: seq<Message>, wanted: Message -> bool)
    requires !Scan(pending, read, wanted).Starved?
    ensures
      var w := Scan(pending, read, wanted);
      Scan(pending, read + more, wanted) == w.(unused := w.unused + more)
  {
    FirstMatchInFront(read, more, wanted);
    hide FirstMatch;
    var w := Scan(pending, read, wanted);
    var n := |read| - |w.unused|;
    SliceOfFront(read, more, n);
    if w.Delivered? {
      SliceOfFront(read, more, n - 1);
      assert (read + more)[n - 1] == read[n - 1];
    }
  }

  lemma {:induction false} FirstMatchInFront(read: seq<Message>, more: seq<Message>, wanted: Message -> bool)
    ensures match FirstMatch(read, wanted)
      case Some(i) => FirstMatch(read + more, wanted) == Some(i)
      case None => FirstMatch(read + more, wanted).None? || FirstMatch(read + more, wanted).value >= |read|
  {
    assert forall j | 0 <= j < |read| :: (read + more)[j] == read[j];
  }

  lemma {:induction false} SliceOfFront(read: seq<Message>, more: seq<Message>, n: nat)
    requires n <= |read|
    ensures (read + more)[..n] == read[..n] && (read + more)[n..] == read[n..] + more
  {
  }

  /**
   What a wait does to the mailbox and the log, given what it read.  A delivered message leaves both, and so does a
   message just read on which the predicate raised; in every other case the log gains what was read and loses nothing.
   */
  ghost predicate Accounts(
      r: Outcome<Message>, pending: seq<Message>, left: seq<Message>, read: seq<Message>,
      before: Log, after: Log, p: nat, wanted: Message -> Answer)
  {
    var w := Wait(pending, read, Ends(wanted));
    var logged := Arrive(before, read);
    && Holds(after, left) && after.arrivals == before.arrivals + read
    && left == Left(pending, read, wanted) && (!RaisesOnPending(pending, wanted) ==> w.unused == [])
    && match r
       case Got(m) =>
         && w.Delivered? && wanted(m) == Yes && m == w.message
         && Delivers(logged, after, p, Ends(wanted)) && Entry(logged, p) == Some(m)
       case Failed(PredicateRaised) =>
         && w.Delivered? && wanted(w.message) == Raises
         && (if RaisesOnPending(pending, wanted) then read == [] && after == before
             else
               && read != [] && w.message == read[|read| - 1] && p >= |before.undelivered|
               && Delivers(logged, after, p, Ends(wanted)) && Entry(logged, p) == Some(w.message))
       case Failed(failure) => !w.Delivered? && after == logged && (failure == PendingOverflow <==> w.Overflow?)
  }

  lemma {:induction false} AccountsForPending(
      r: Outcome<Message>, pending: seq<Message>, left: seq<Message>, before: Log, wanted: Message -> Answer)
      returns (after: Log, p: nat)
    requires Holds(before, pending) && FirstMatch(pending, Ends(wanted)).Some?
    requires
      var i := FirstMatch(pending, Ends(wanted)).value;
      if wanted(pending[i]) == Yes then r == Got(pending[i]) && left == Without(pending, i)
      else r == Failed(PredicateRaised) && left == pending
    ensures Accounts(r, pending, left, [], before, after, p, wanted)
    ensures after.arrivals == before.arrivals + [] == before.arrivals
  {
    hide Holds, Delivers, FirstMatch, Scan;
    var w := Wait(pending, [], Ends(wanted));
    if r.Got? {
      after, p := WaitRefinesLog(before, pending, [], Ends(wanted));
    } else {
      after, p := before, 0;
    }
  }

  lemma {:induction false} AccountsForScan(
      r: Outcome<Message>, pending: seq<Message>, left: seq<Message>, read: seq<Message>, before: Log, wanted: Message -> Answer)
      returns (after: Log, p: nat)
    requires Holds(before, pending) && FirstMatch(pending, Ends(wanted)).None?
    requires Awaited(r, pending, left, read, wanted)
    ensures Accounts(r, pending, left, read, before, after, p, wanted)
    ensures after.arrivals == before.arrivals + read
  {
    hide Holds, Delivers, FirstMatch, Scan;
    after, p := WaitRefinesLog(before, pending, read, Ends(wanted));
    assert Consumed(read, Wait(pending, read, Ends(wanted))) == read;
  }

  /** Every wait is a turn of a run of the log. */
  lemma {:induction false} AccountsIsStep(
      r: Outcome<Message>, pending: seq<Message>, left: seq<Message>, read: seq<Message>,
      before: Log, after: Log, p: nat, wanted: Message -> Answer) returns (turn: Turn)
    requires Accounts(r, pending, left, read, before, after, p, wanted)
    ensures Step(before, after, turn) && turn.read == read && turn.wanted == wanted
    ensures r.Got? <==> turn.position.Some? && !turn.lost
    ensures turn.lost <==> r == Failed(PredicateRaised) && !RaisesOnPending(pending, wanted)
  {
    hide Holds, FirstMatch, Scan, Wait, Left;
    var kept := r.Failed? && (r.failure != PredicateRaised || RaisesOnPending(pending, wanted));
    turn := Turn(read, wanted, if kept then None else Some(p), !kept && r.Failed?);
    if kept && read == [] {
      assert Arrive(before, []) == before;
    }
  }

  lemma {:induction false} AccountsBound(
      r: Outcome<Message>, pending: seq<Message>, left: seq<Message>, read: seq<Message>,
      before: Log, after: Log, p: nat, wanted: Message -> Answer)
    requires Accounts(r, pending, left, read, before, after, p, wanted)
    ensures Holds(after, left)
    ensures |pending| <= MAX_PENDING ==> |left| <= MAX_PENDING || r == Failed(PendingOverflow)
  {
    hide Holds, Delivers, FirstMatch, Scan;
    if |pending| <= MAX_PENDING {
      WaitBound(pending, read, Ends(wanted));
    }
  }

  predicate TimedOut(r: Outcome<Message>) {
    r == Failed(StepTimeout) || r == Failed(SocketFailure(Timeout))
  }

  /** The result and the mailbox that a wait leaves, given all messages on the stream and why it ends. */
  ghost predicate Settles(
      r: Outcome<Message>, left: seq<Message>, pending: seq<Message>, contents: Contents, wanted: Message -> Answer)
  {
    var w := Wait(pending, contents.messages, Ends(wanted));
    && left == Left(pending, contents.messages, wanted)
    && r == (match w
             case Delivered(m, _, _) => if wanted(m) == Yes then Got(m) else Failed(PredicateRaised)
             case Overflow(_, _) => Failed(PendingOverflow)
             case Starved(_, _) => Failed(contents.ending))
  }

  // ----- the channel -----

  class PhoenixChannel {
    const websocket: WebSocket
    const parse: seq<byte> -> Parsed
    var pending: seq<Message>
    ghost var log: Log
    ghost const origin: seq<byte>
    // No receive has failed yet, so the stream is at a message boundary.
    ghost var intact: bool
    // Some wait has ended with an overflow.
    ghost var overflowed: bool

    ghost predicate Valid()
      reads this, websocket, websocket.sock
    {
      && websocket.Valid()
      && Holds(log, pending)
      && (overflowed || |pending| <= MAX_PENDING)
      && (intact ==>
            && !websocket.closed
            && Arrives(origin, log.arrivals, websocket.Stream(), websocket.checks, parse))
    }

    constructor (websocket: WebSocket, parse: seq<byte> -> Parsed)
      requires websocket.Valid() && !websocket.closed
      ensures Valid() && intact && !overflowed && this.websocket == websocket && this.parse == parse
      ensures pending == [] && log == Log([], []) && origin == websocket.Stream()
    {
      this.websocket, this.parse := websocket, parse;
      pending, log, origin, intact, overflowed := [], Log([], []), websocket.Stream(), true, false;
    }

    /** Unless the deadline expires, the next text on the stream decides. */
    method RecvJson() returns (r: Outcome<Message>)
      requires websocket.Valid() && (intact ==> !websocket.closed)
      modifies websocket, websocket.sock, this`intact
      ensures websocket.Valid() && (intact ==> old(intact))
      ensures r.Got? ==> intact == old(intact)
      ensures r.Got? ==> |websocket.Stream()| < |old(websocket.Stream())|
      ensures old(intact) && !TimedOut(r) ==>
        var received := Receive(old(websocket.Stream()), websocket.checks, false, false, []);
        && r == Meant(received.outcome, parse)
        && (r.Got? ==> websocket.Stream() == received.rest && !websocket.closed)
      ensures websocket.sock.prompt ==> !TimedOut(r)
      ensures r.Failed? ==> !intact && r.failure !in {PendingOverflow, StepTimeout, PredicateRaised}
    {
      hide Receive, DecodeClientAll, Reads;
      var text := websocket.RecvText();
      if text.Fail? {
        intact := false;
        return Failed(SocketFailure(text.failure));
      }
      ghost var s := old(websocket.Stream());
      assert intact ==> !Receive(s, websocket.checks, false, false, []).closes by {
        if intact {
          var _ := ReceivedIsMessage(s, websocket.checks, false);
        }
      }
      match parse(text.value)
      case NotJson =>
        intact := false;
        r := Failed(InvalidJson);
      case NotAFrame =>
        intact := false;
        r := Failed(InvalidFrame);
      case Parsed(m) =>
        r := Got(m);
    }

    /** The position of the first pending message that satisfies the predicate. */
    method FindPending(wanted: Message -> bool) returns (found: Option<nat>)
      ensures found == FirstMatch(pending, wanted)
    {
      for i := 0 to |pending|
        invariant forall j | 0 <= j < i :: !wanted(pending[j])
      {
        if wanted(pending[i]) {
          return Some(i);
        }
      }
      found := None;
    }

    /**
     Selective receive.  `read` is what this call took from the socket; the result and the mailbox are what `Wait` makes
     of it.  Unless a deadline expires, they are also what `Wait` makes of all messages on the whole stream.  A failure
     loses nothing, except that a predicate that raises on a message just read loses exactly that message.
     */
    method WaitMessage(wanted: Message -> Answer) returns (r: Outcome<Message>, ghost read: seq<Message>, ghost p: nat)
      requires Valid()
      modifies this`pending, this`log, this`intact, this`overflowed, websocket, websocket.sock
      ensures Valid()
      ensures overflowed == (old(overflowed) || r == Failed(PendingOverflow))
      ensures Accounts(r, old(pending), pending, read, old(log), log, p, wanted)
      ensures websocket.sock.prompt ==> !TimedOut(r)
      ensures old(intact) && !TimedOut(r) ==>
        Settles(r, pending, old(pending), Messages(old(websocket.Stream()), websocket.checks, parse), wanted)
    {
      hide Receive, DecodeClientAll, Reads, Arrives, Holds, Delivers, FirstMatch, Scan, Messages, Accounts, Settles, Wait, Awaited, Justified;
      ghost var contents := Messages(websocket.Stream(), websocket.checks, parse);
      read := [];
      var found := FindPending(Ends(wanted));
      if found.Some? {
        var i := found.value;
        if wanted(pending[i]) == Raises {
          r := Failed(PredicateRaised);
        } else {
          r := Got(pending[i]);
          pending := Without(pending, i);
        }
        log, p := AccountsForPending(r, old(pending), pending, log, wanted);
        SettledByPending(r, pending, old(pending), contents, wanted);
      } else {
        r, read := Await(wanted);
        log, p := AccountsForScan(r, old(pending), pending, read, log, wanted);
        if old(intact) && !TimedOut(r) {
          SettledByScan(r, pending, old(pending), read, contents, wanted);
        }
      }
      AccountsBound(r, old(pending), pending, read, old(log), log, p, wanted);
      overflowed := overflowed || r == Failed(PendingOverflow);
    }

    /** The part of a wait that reads from the socket, when nothing pending matches. */
    method Await(wanted: Message -> Answer) returns (r: Outcome<Message>, ghost read: seq<Message>)
      requires Valid()
      modifies this`pending, this`intact, websocket, websocket.sock
      ensures websocket.Valid()
      ensures intact ==>
        && !websocket.closed
        && Arrives(origin, log.arrivals + read, websocket.Stream(), websocket.checks, parse)
      ensures Awaited(r, old(pending), pending, read, wanted)
      ensures websocket.sock.prompt ==> !TimedOut(r)
      ensures old(intact) && !TimedOut(r) ==>
        Justified(r, old(pending), read, Messages(old(websocket.Stream()), websocket.checks, parse), wanted)
    {
      hide Receive, Arrives, Holds, Messages, Follows, Meant, Scan, FirstMatch, Awaited, Justified;
      hide WebSocket.Valid, WebSocket.Stream;
      read := [];
      ghost var contents := Messages(websocket.Stream(), websocket.checks, parse);
      assert pending + [] == pending;
      AwaitedAtFirst(pending, wanted);
      FollowsAtFirst(origin, log.arrivals, websocket.Stream(), websocket.checks, parse);
      while true
        invariant websocket.Valid()
        invariant pending == old(pending) + read
        invariant Scan(old(pending), read, Ends(wanted)) == Starved(pending, [])
        invariant intact == old(intact)
        invariant intact ==>
          !websocket.closed && Follows(origin, log.arrivals, read, websocket.Stream(), contents, websocket.checks, parse)
        decreases |websocket.Stream()|
      {
        FollowsMeans(origin, log.arrivals, read, websocket.Stream(), contents, websocket.checks, parse);
        var expired: bool := *;
        if expired && !websocket.sock.prompt {
          AwaitedInVain(StepTimeout, old(pending), read, contents, wanted);
          return Failed(StepTimeout), read;
        }
        ghost var middle := websocket.Stream();
        var got := RecvJson();
        if got.Failed? {
          AwaitedInVain(got.failure, old(pending), read, contents, wanted);
          return Failed(got.failure), read;
        }
        var m := got.value;
        AwaitedOneMore(old(pending), read, m, contents, wanted);
        if intact {
          FollowsOneMore(origin, log.arrivals, read, middle, m, contents, websocket.checks, parse);
          FollowsMeans(origin, log.arrivals, read + [m], websocket.Stream(), contents, websocket.checks, parse);
        }
        read := read + [m];
        if wanted(m) == Raises {
          return Failed(PredicateRaised), read;
        }
        if wanted(m) == Yes {
          return Got(m), read;
        }
        assert old(pending) + read == pending + [m];
        pending := pending + [m];
        if |pending| > MAX_PENDING {
          return Failed(PendingOverflow), read;
        }
      }
      assert false;
      r := Failed(StepTimeout);
    }
  }

  /** What reading from the socket does to the mailbox, given what was read. */
  ghost predicate Awaited(
      r: Outcome<Message>, pending: seq<Message>, left: seq<Message>, read: seq<Message>, wanted: Message -> Answer)
  {
    var w := Scan(pending, read, Ends(wanted));
    && w.unused == [] && left == w.pending
    && match r
       case Got(m) => w.Delivered? && m == w.message && wanted(m) == Yes
       case Failed(PredicateRaised) => w.Delivered? && wanted(w.message) == Raises && read != [] && w.message == read[|read| - 1]
       case Failed(failure) => !w.Delivered? && (failure == PendingOverflow <==> w.Overflow?)
  }

  /** What was read is a front part of the stream's contents, and a wait in vain has read them all. */
  ghost predicate Justified(
      r: Outcome<Message>, pending: seq<Message>, read: seq<Message>, contents: Contents, wanted: Message -> Answer)
  {
    && read <= contents.messages
    && (Scan(pending, read, Ends(wanted)).Starved? ==> read == contents.messages && r == Failed(contents.ending))
  }

  lemma {:induction false} AwaitedAtFirst(pending: seq<Message>, wanted: Message -> Answer)
    ensures Scan(pending, [], Ends(wanted)) == Starved(pending, [])
  {
    assert pending + [] == pending;
  }

  lemma {:induction false} AwaitedInVain(failure: ChannelFailure, pending: seq<Message>, read: seq<Message>, contents: Contents, wanted: Message -> Answer)
    requires Scan(pending, read, Ends(wanted)) == Starved(pending + read, [])
    requires failure !in {PendingOverflow, PredicateRaised}
    ensures Awaited(Failed(failure), pending, pending + read, read, wanted)
    ensures read == contents.messages && failure == contents.ending ==> Justified(Failed(failure), pending, read, contents, wanted)
  {
    hide Scan;
  }

  lemma {:induction false} AwaitedOneMore(pending: seq<Message>, read: seq<Message>, m: Message, contents: Contents, wanted: Message -> Answer)
    requires Scan(pending, read, Ends(wanted)) == Starved(pending + read, [])
    ensures wanted(m) == Raises ==> Awaited(Failed(PredicateRaised), pending, pending + read, read + [m], wanted)
    ensures wanted(m) == Yes ==> Awaited(Got(m), pending, pending + read, read + [m], wanted)
    ensures wanted(m) == No && |pending + read| >= MAX_PENDING ==>
      Awaited(Failed(PendingOverflow), pending, pending + read + [m], read + [m], wanted)
    ensures wanted(m) == No && |pending + read| < MAX_PENDING ==>
      Scan(pending, read + [m], Ends(wanted)) == Starved(pending + read + [m], [])
    ensures (wanted(m) != No || |pending + read| >= MAX_PENDING) && read + [m] <= contents.messages ==>
      && Justified(Failed(PredicateRaised), pending, read + [m], contents, wanted)
      && Justified(Got(m), pending, read + [m], contents, wanted)
      && Justified(Failed(PendingOverflow), pending, read + [m], contents, wanted)
  {
    hide Scan;
    ScanOneMore(pending, read, m, Ends(wanted));
  }

  /** Where a wait is on the stream: what has arrived, and what is still to come of all contents. */
  ghost predicate Follows(
      origin: seq<byte>, arrivals: seq<Message>, read: seq<Message>, rest: seq<byte>, contents: Contents,
      checks: TextChecks, parse: seq<byte> -> Parsed)
  {
    && Arrives(origin, arrivals + read, rest, checks, parse)
    && contents.messages == read + Messages(rest, checks, parse).messages
    && contents.ending == Messages(rest, checks, parse).ending
  }

  lemma {:induction false} FollowsAtFirst(
      origin: seq<byte>, arrivals: seq<Message>, rest: seq<byte>, checks: TextChecks, parse: seq<byte> -> Parsed)
    ensures Arrives(origin, arrivals, rest, checks, parse) ==>
      Follows(origin, arrivals, [], rest, Messages(rest, checks, parse), checks, parse)
  {
    hide Arrives, Messages;
    assert arrivals + [] == arrivals && [] + Messages(rest, checks, parse).messages == Messages(rest, checks, parse).messages;
  }

  lemma {:induction false} FollowsMeans(
      origin: seq<byte>, arrivals: seq<Message>, read: seq<Message>, rest: seq<byte>, contents: Contents,
      checks: TextChecks, parse: seq<byte> -> Parsed)
    ensures Follows(origin, arrivals, read, rest, contents, checks, parse) ==>
      var meant := Meant(Receive(rest, checks, false, false, []).outcome, parse);
      && Arrives(origin, arrivals + read, rest, checks, parse) && read <= contents.messages
      && (meant.Failed? ==> read == contents.messages && meant.failure == contents.ending)
  {
    hide Arrives, Messages, Receive, Meant;
    MessagesStep(rest, checks, parse);
  }

  lemma {:induction false} FollowsOneMore(
      origin: seq<byte>, arrivals: seq<Message>, read: seq<Message>, middle: seq<byte>, m: Message, contents: Contents,
      checks: TextChecks, parse: seq<byte> -> Parsed)
    requires Follows(origin, arrivals, read, middle, contents, checks, parse)
    requires Meant(Receive(middle, checks, false, false, []).outcome, parse) == Got(m)
    ensures Follows(origin, arrivals, read + [m], Receive(middle, checks, false, false, []).rest, contents, checks, parse)
  {
    hide Arrives, Messages, Receive;
    var rest := Receive(middle, checks, false, false, []).rest;
    ArrivesOneMore(origin, arrivals + read, middle, m, checks, parse);
    assert arrivals + (read + [m]) == arrivals + read + [m];
    MessagesStep(middle, checks, parse);
    var more := Messages(rest, checks, parse).messages;
    assert read + ([m] + more) == read + [m] + more;
  }

  lemma {:induction false} SettledByPending(
      r: Outcome<Message>, left: seq<Message>, pending: seq<Message>, contents: Contents, wanted: Message -> Answer)
    requires FirstMatch(pending, Ends(wanted)).Some?
    requires
      var i := FirstMatch(pending, Ends(wanted)).value;
      if wanted(pending[i]) == Yes then r == Got(pending[i]) && left == Without(pending, i)
      else r == Failed(PredicateRaised) && left == pending
    ensures Settles(r, left, pending, contents, wanted)
  {
  }

  lemma {:induction false} SettledByScan(
      r: Outcome<Message>, left: seq<Message>, pending: seq<Message>, read: seq<Message>, contents: Contents, wanted: Message -> Answer)
    requires FirstMatch(pending, Ends(wanted)).None?
    requires Awaited(r, pending, left, read, wanted) && Justified(r, pending, read, contents, wanted)
    ensures Settles(r, left, pending, contents, wanted)
  {
    hide Scan, FirstMatch;
    var more := contents.messages[|read|..];
    assert read + more == contents.messages;
    if !Scan(pending, read, Ends(wanted)).Starved? {
      ScanPrefix(pending, read, more, Ends(wanted));
    }
  }
}
