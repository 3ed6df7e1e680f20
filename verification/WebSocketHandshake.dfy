/**
 The opening handshake of the probe's WebSocket (beam/scripts/platform_probe.py, `WebSocket.connect`): the response is
 read in chunks until it holds a blank line, and what follows the blank line belongs to the frame reader.

 `Handshake` is the loop on values, over a given chunking of the stream.
 */
module WebSocketHandshake {
  import opened Basics
  import opened WebSocketFrames
  import opened WebSocketClient

  const SEPARATOR: seq<byte> := [13, 10, 13, 10]
  const MAX_HEADERS: nat := 32_768
  const MAX_CHUNK: nat := 4096

  // ----- blank lines -----

  predicate SeparatorAt(s: seq<byte>, i: nat) {
    i + 4 <= |s| && s[i..i + 4] == SEPARATOR
  }

  ghost predicate FirstSeparatorAt(s: seq<byte>, i: nat) {
    SeparatorAt(s, i) && forall j: nat | j < i :: !SeparatorAt(s, j)
  }

  /** The end of the first blank line. */
  function HeaderEnd(s: seq<byte>): (r: Option<nat>)
    ensures match r
      case Some(e) => 4 <= e <= |s| && FirstSeparatorAt(s, e - 4)
      case None => forall j: nat :: !SeparatorAt(s, j)
  {
    EndFrom(s, 0)
  }

  function EndFrom(s: seq<byte>, i: nat): (r: Option<nat>)
    requires forall j: nat | j < i :: !SeparatorAt(s, j)
    ensures match r
      case Some(e) => 4 <= e <= |s| && FirstSeparatorAt(s, e - 4)
      case None => forall j: nat :: !SeparatorAt(s, j)
    decreases |s| - i
  {
    if i + 4 > |s| then None else if SeparatorAt(s, i) then Some(i + 4) else EndFrom(s, i + 1)
  }

  /** Carriage return, line feed, carriage return, line feed. */
  predicate BlankLineAt(s: seq<byte>, i: nat) {
    i + 4 <= |s| && s[i] == 13 && s[i + 1] == 10 && s[i + 2] == 13 && s[i + 3] == 10
  }

  lemma SeparatorIsBlankLine(s: seq<byte>, i: nat)
    ensures SeparatorAt(s, i) <==> BlankLineAt(s, i)
  {
    if i + 4 <= |s| {
      assert s[i..i + 4] == [s[i], s[i + 1], s[i + 2], s[i + 3]];
    }
  }

  /** The headers end with the first blank line, byte by byte. */
  lemma HeaderEndExactly(s: seq<byte>, e: nat)
    ensures HeaderEnd(s) == Some(e) <==> e >= 4 && BlankLineAt(s, e - 4) && forall j: nat | j < e - 4 :: !BlankLineAt(s, j)
  {
    hide EndFrom, SeparatorAt, BlankLineAt;
    forall i: nat
      ensures SeparatorAt(s, i) <==> BlankLineAt(s, i)
    {
      SeparatorIsBlankLine(s, i);
    }
  }

  /** A front part of a stream holds its first blank line exactly when it reaches the line's end. */
  lemma EndInFront(s: seq<byte>, n: nat)
    requires n <= |s|
    ensures HeaderEnd(s[..n]) == match HeaderEnd(s) case Some(e) => if e <= n then Some(e) else None case None => None
  {
    hide EndFrom;
    var front := s[..n];
    forall j: nat | j + 4 <= n
      ensures SeparatorAt(front, j) <==> SeparatorAt(s, j)
    {
      assert front[j..j + 4] == s[j..j + 4];
    }
    if HeaderEnd(s).Some? && HeaderEnd(s).value <= n {
      var e := HeaderEnd(s).value;
      assert SeparatorAt(front, e - 4);
      var f := HeaderEnd(front).value;
      assert SeparatorAt(s, f - 4);
    }
  }

  // ----- the loop, on values -----

  function Concat(chunks: seq<seq<byte>>): seq<byte> {
    if chunks == [] then [] else chunks[0] + Concat(chunks[1..])
  }

  /** One way in which a socket may hand out the bytes of `s`. */
  ghost predicate Chunking(s: seq<byte>, chunks: seq<seq<byte>>) {
    Concat(chunks) == s && forall i | 0 <= i < |chunks| :: 0 < |chunks[i]| <= MAX_CHUNK
  }

  /** From what has been read so far: the headers, or why there are none. */
  function Handshake(response: seq<byte>, chunks: seq<seq<byte>>): Result<seq<byte>>
    decreases |chunks|
  {
    match HeaderEnd(response)
    case Some(e) => Ok(response[..e - 4])
    case None =>
      if |response| > MAX_HEADERS then Fail(HandshakeTooLarge)
      else if chunks == [] then Fail(ConnectionClosed)
      else Handshake(response + chunks[0], chunks[1..])
  }

  /** What the loop has read when it ends. */
  function Looked(response: seq<byte>, chunks: seq<seq<byte>>): seq<byte>
    decreases |chunks|
  {
    if HeaderEnd(response).Some? || |response| > MAX_HEADERS || chunks == [] then response
    else Looked(response + chunks[0], chunks[1..])
  }

  /** The largest size at which a chunk may complete the headers. */
  const LAST_END: nat := MAX_HEADERS + MAX_CHUNK

  /** The outcomes that are possible for a stream; two of them only inside the window. */
  ghost predicate Possible(s: seq<byte>, r: Result<seq<byte>>) {
    match HeaderEnd(s)
    case None => r == Fail(if |s| > MAX_HEADERS then HandshakeTooLarge else ConnectionClosed)
    case Some(e) =>
      || (e <= LAST_END && r == Ok(s[..e - 4]))
      || (e > MAX_HEADERS + 1 && r == Fail(HandshakeTooLarge))
  }

  lemma {:induction false} HandshakeIsPossible(s: seq<byte>, n: nat, chunks: seq<seq<byte>>)
    requires n <= |s| && n <= LAST_END && Chunking(s[n..], chunks)
    ensures Possible(s, Handshake(s[..n], chunks))
    decreases |chunks|
  {
    hide EndFrom, FirstSeparatorAt, SeparatorAt;
    EndInFront(s, n);
    if HeaderEnd(s[..n]).Some? {
      var e := HeaderEnd(s).value;
      assert s[..n][..e - 4] == s[..e - 4];
    } else if n <= MAX_HEADERS {
      if chunks == [] {
        assert s[..n] == s;
      } else {
        var m := n + |chunks[0]|;
        OneMoreChunk(s, n, chunks);
        HandshakeIsPossible(s, m, chunks[1..]);
      }
    }
  }

  lemma OneMoreChunk(s: seq<byte>, n: nat, chunks: seq<seq<byte>>)
    requires n <= |s| && Chunking(s[n..], chunks) && chunks != []
    ensures
      var m := n + |chunks[0]|;
      n < m <= |s| && m <= n + MAX_CHUNK && s[..n] + chunks[0] == s[..m] && Chunking(s[m..], chunks[1..])
  {
    var m := n + |chunks[0]|;
    assert s[n..] == chunks[0] + Concat(chunks[1..]);
    assert s[n..][..|chunks[0]|] == chunks[0];
    assert s[m..] == s[n..][|chunks[0]|..];
  }

  // ----- two particular chunkings -----

  /** As much as fits into every chunk. */
  function Cut(s: seq<byte>): seq<seq<byte>> {
    if s == [] then [] else if |s| <= MAX_CHUNK then [s] else [s[..MAX_CHUNK]] + Cut(s[MAX_CHUNK..])
  }

  lemma {:induction false} CutIsChunking(s: seq<byte>)
    ensures Chunking(s, Cut(s))
  {
    if |s| > MAX_CHUNK {
      CutIsChunking(s[MAX_CHUNK..]);
      assert s == s[..MAX_CHUNK] + s[MAX_CHUNK..];
      assert Cut(s)[1..] == Cut(s[MAX_CHUNK..]);
    } else if s != [] {
      assert Concat([s]) == s + Concat([]);
    }
  }

  /** While no blank line is complete and the limit is not passed, full chunks are read one after the other. */
  lemma {:induction false} CutSteps(s: seq<byte>, n: nat, k: nat)
    requires n + k * MAX_CHUNK < |s|
    requires k > 0 ==> n + (k - 1) * MAX_CHUNK <= MAX_HEADERS
    requires HeaderEnd(s).Some? && (k > 0 ==> n + (k - 1) * MAX_CHUNK < HeaderEnd(s).value)
    ensures Handshake(s[..n], Cut(s[n..])) == Handshake(s[..n + k * MAX_CHUNK], Cut(s[n + k * MAX_CHUNK..]))
    decreases k
  {
    hide EndFrom;
    if k > 0 {
      var m := n + MAX_CHUNK;
      EndInFront(s, n);
      var rest := s[n..];
      assert rest[..MAX_CHUNK] == s[n..m] && rest[MAX_CHUNK..] == s[m..];
      assert Cut(rest)[0] == s[n..m] && Cut(rest)[1..] == Cut(s[m..]);
      assert s[..n] + s[n..m] == s[..m];
      CutSteps(s, m, k - 1);
    }
  }

  /** Full chunks: the response is looked at after 32,768 bytes and then one full chunk later. */
  lemma FullChunksSucceed(s: seq<byte>)
    requires HeaderEnd(s).Some? && MAX_HEADERS + 1 < HeaderEnd(s).value <= LAST_END
    ensures Chunking(s, Cut(s)) && Handshake([], Cut(s)) == Ok(s[..HeaderEnd(s).value - 4])
  {
    hide EndFrom, FirstSeparatorAt, SeparatorAt;
    var e := HeaderEnd(s).value;
    CutIsChunking(s);
    CutSteps(s, 0, 8);
    assert s[..0] == [] && s[0..] == s;
    var rest := s[MAX_HEADERS..];
    CutIsChunking(rest);
    var chunk := Cut(rest)[0];
    OneMoreChunk(s, MAX_HEADERS, Cut(rest));
    var m := MAX_HEADERS + |chunk|;
    EndInFront(s, MAX_HEADERS);
    EndInFront(s, m);
    assert e <= m;
    assert s[..m][..e - 4] == s[..e - 4];
  }

  /** A first chunk of one byte: the response is looked at after 32,769 bytes. */
  lemma OneByteFirstFails(s: seq<byte>)
    requires HeaderEnd(s).Some? && MAX_HEADERS + 1 < HeaderEnd(s).value
    ensures
      var chunks := [s[..1]] + Cut(s[1..]);
      Chunking(s, chunks) && Handshake([], chunks) == Fail(HandshakeTooLarge)
  {
    hide EndFrom, FirstSeparatorAt, SeparatorAt;
    var chunks := [s[..1]] + Cut(s[1..]);
    CutIsChunking(s[1..]);
    assert chunks[1..] == Cut(s[1..]) && s == s[..1] + s[1..];
    EndInFront(s, 0);
    assert s[..0] == [] && [] + s[..1] == s[..1];
    CutSteps(s, 1, 8);
    EndInFront(s, MAX_HEADERS + 1);
  }

  ghost predicate ChunkingsAgree(s: seq<byte>) {
    forall a, b | Chunking(s, a) && Chunking(s, b) :: Handshake([], a) == Handshake([], b)
  }

  /** The outcome does not depend on the chunking if and only if the headers do not end in the window. */
  lemma AgreeOutsideTheWindow(s: seq<byte>)
    ensures ChunkingsAgree(s)
       <==> match HeaderEnd(s) case None => true case Some(e) => e <= MAX_HEADERS + 1 || e > LAST_END
  {
    hide EndFrom, FirstSeparatorAt, SeparatorAt, Chunking, Handshake;
    forall a | Chunking(s, a)
      ensures Possible(s, Handshake([], a))
    {
      assert s[..0] == [] && s[0..] == s;
      HandshakeIsPossible(s, 0, a);
    }
    if HeaderEnd(s).Some? && MAX_HEADERS + 1 < HeaderEnd(s).value <= LAST_END {
      FullChunksSucceed(s);
      OneByteFirstFails(s);
    }
  }

  /** A response of 32,770 bytes that ends with its blank line is read or refused, depending on the chunks. */
  lemma ResponseInTheWindow() returns (s: seq<byte>)
    ensures HeaderEnd(s) == Some(|s|) == Some(32_770) && !ChunkingsAgree(s)
  {
    hide EndFrom;
    s := seq(32_766, i => 65) + SEPARATOR;
    assert s[32_766..32_770] == SEPARATOR;
    forall j: nat | j < 32_766
      ensures !SeparatorAt(s, j)
    {
      assert s[j..j + 4][0] == s[j] == 65;
    }
    assert SeparatorAt(s, 32_766);
    var e := HeaderEnd(s).value;
    assert !SeparatorAt(s, e - 4) || e - 4 >= 32_766;
    hide ChunkingsAgree, FirstSeparatorAt, SeparatorAt;
    AgreeOutsideTheWindow(s);
  }

  // ----- reading from a socket -----

  lemma {:induction false} ConcatAppend(a: seq<seq<byte>>, b: seq<seq<byte>>)
    ensures Concat(a + b) == Concat(a) + Concat(b)
  {
    if a == [] {
      assert a + b == b && Concat(a) == [];
    } else {
      assert a + b != [];
      ConcatAppend(a[1..], b);
      assert (a + b)[1..] == a[1..] + b && (a + b)[0] == a[0];
      hide Concat;
      assert a[0] + (Concat(a[1..]) + Concat(b)) == a[0] + Concat(a[1..]) + Concat(b);
    }
  }

  /** The loop went on after each of these chunks but the last. */
  ghost predicate WentOn(read: seq<seq<byte>>) {
    forall k | 0 <= k < |read| :: HeaderEnd(Concat(read[..k])).None? && |Concat(read[..k])| <= MAX_HEADERS
  }

  lemma WentOnOnce(read: seq<seq<byte>>, chunk: seq<byte>)
    requires WentOn(read) && HeaderEnd(Concat(read)).None? && |Concat(read)| <= MAX_HEADERS
    ensures WentOn(read + [chunk]) && Concat(read + [chunk]) == Concat(read) + chunk
  {
    hide HeaderEnd, EndFrom;
    var more := read + [chunk];
    ConcatAppend(read, [chunk]);
    assert Concat([chunk]) == chunk + Concat([]);
    forall k | 0 <= k < |more|
      ensures HeaderEnd(Concat(more[..k])).None? && |Concat(more[..k])| <= MAX_HEADERS
    {
      assert more[..k] == read[..k];
      assert read[..|read|] == read;
    }
  }

  lemma {:induction false} AfterReading(read: seq<seq<byte>>, more: seq<seq<byte>>)
    requires WentOn(read)
    ensures Handshake([], read + more) == Handshake(Concat(read), more)
    ensures Looked([], read + more) == Looked(Concat(read), more)
    decreases |read|
  {
    hide HeaderEnd, EndFrom;
    if read == [] {
      assert read + more == more;
    } else {
      var n := |read| - 1;
      var last := [read[n]] + more;
      assert forall k | 0 <= k < n :: read[..n][..k] == read[..k];
      AfterReading(read[..n], last);
      assert read[..n] + last == read + more;
      ConcatAppend(read[..n], [read[n]]);
      assert read[..n] + [read[n]] == read && Concat([read[n]]) == read[n] + Concat([]);
      assert last != [] && last[0] == read[n] && last[1..] == more;
      var before := Concat(read[..n]);
      assert HeaderEnd(before).None? && |before| <= MAX_HEADERS;
      assert Concat([]) == [] && Concat([read[n]]) == read[n];
      assert before + last[0] == Concat(read);
      assert Handshake(before, last) == Handshake(before + last[0], last[1..]);
    }
  }

  lemma ReadAndRest(all: seq<byte>, read: seq<seq<byte>>, unread: seq<byte>)
    requires Concat(read) + unread == all && forall i | 0 <= i < |read| :: 0 < |read[i]| <= MAX_CHUNK
    ensures Chunking(all, read + Cut(unread))
  {
    CutIsChunking(unread);
    ConcatAppend(read, Cut(unread));
  }

  function HeadersOf(r: Result<(seq<byte>, seq<byte>)>): Result<seq<byte>> {
    match r
    case Ok((headers, _)) => Ok(headers)
    case Fail(failure) => Fail(failure)
  }

  /**
   The loop of `connect`.  `chunks` is the way in which the socket hands out its bytes; the outcome is that of the
   loop on values, and the headers, the blank line, the leftover and the unread bytes make up the stream.
   */
  method ReadHandshake(sock: Socket) returns (r: Result<(seq<byte>, seq<byte>)>, ghost chunks: seq<seq<byte>>)
    modifies sock`unread
    ensures Chunking(old(sock.unread), chunks) && HeadersOf(r) == Handshake([], chunks)
    ensures Possible(old(sock.unread), HeadersOf(r))
    ensures r.Ok? ==>
      var (headers, initial) := r.value;
      headers + SEPARATOR + initial + sock.unread == old(sock.unread) && headers + SEPARATOR + initial == Looked([], chunks)
  {
    hide EndFrom, Chunking, Possible, WentOn, Concat;
    ghost var all := sock.unread;
    var response: seq<byte> := [];
    ghost var read: seq<seq<byte>> := [];
    NothingRead();
    while HeaderEnd(response).None?
      invariant response + sock.unread == all && response == Concat(read) && WentOn(read)
      invariant forall i | 0 <= i < |read| :: 0 < |read[i]| <= MAX_CHUNK
      decreases |sock.unread|
    {
      if |response| > MAX_HEADERS {
        chunks := read + Cut(sock.unread);
        Settled(all, read, sock.unread);
        return Fail(HandshakeTooLarge), chunks;
      }
      var chunk := sock.Recv(MAX_CHUNK);
      if chunk == [] {
        chunks := read + Cut(sock.unread);
        Settled(all, read, sock.unread);
        return Fail(ConnectionClosed), chunks;
      }
      WentOnOnce(read, chunk);
      read := read + [chunk];
      response := response + chunk;
    }
    var e := HeaderEnd(response).value;
    chunks := read + Cut(sock.unread);
    Settled(all, read, sock.unread);
    SplitAt(response, e);
    r := Ok((response[..e - 4], response[e..]));
  }

  lemma NothingRead()
    ensures WentOn([]) && Concat([]) == []
  {
  }

  lemma SplitAt(response: seq<byte>, e: nat)
    requires HeaderEnd(response) == Some(e)
    ensures response[..e - 4] + SEPARATOR + response[e..] == response
  {
    assert response[e - 4..e] == SEPARATOR;
  }

  lemma Settled(all: seq<byte>, read: seq<seq<byte>>, unread: seq<byte>)
    requires Concat(read) + unread == all && WentOn(read)
    requires forall i | 0 <= i < |read| :: 0 < |read[i]| <= MAX_CHUNK
    ensures
      var chunks := read + Cut(unread);
      && Chunking(all, chunks) && Possible(all, Handshake([], chunks))
      && Handshake([], chunks) == Handshake(Concat(read), Cut(unread))
      && Looked([], chunks) == Looked(Concat(read), Cut(unread))
    ensures unread == [] <==> Cut(unread) == []
  {
    hide Chunking, Possible, WentOn, Handshake, Looked, HeaderEnd, EndFrom;
    ReadAndRest(all, read, unread);
    AfterReading(read, Cut(unread));
    assert all[..0] == [] && all[0..] == all;
    HandshakeIsPossible(all, 0, read + Cut(unread));
  }

  /**
   `connect` on a new socket: send the request, read the response, refuse it if it reflects protected material or is no
   acceptable upgrade, and hand everything after the blank line to the frame reader.  Which of these happens is decided by
   the bytes and the chunks they come in.
   */
  method Connect(sock: Socket, request: seq<byte>, checks: TextChecks, accepted: seq<byte> -> bool)
      returns (r: Result<WebSocket>, ghost chunks: seq<seq<byte>>)
    requires sock.sent == [] && sock.unread == sock.stream
    modifies sock
    ensures sock.sent == request && Chunking(sock.stream, chunks)
    ensures Handshake([], chunks).Fail? ==> r == Fail(Handshake([], chunks).failure)
    ensures Handshake([], chunks).Ok? ==>
      if checks.reflects(Looked([], chunks)) then r == Fail(SecretExposure)
      else if !accepted(Handshake([], chunks).value) then r == Fail(HandshakeRejected)
      else r.Ok?
    ensures r.Ok? ==>
      var w := r.value;
      && fresh(w) && w.Valid() && w.sock == sock && w.checks == checks && w.request == request
      && w.intact && !w.closed && w.frames == w.received == []
      && HeaderEnd(sock.stream).Some? && w.origin == w.Stream() == sock.stream[HeaderEnd(sock.stream).value..]
      && Handshake([], chunks) == Ok(sock.stream[..HeaderEnd(sock.stream).value - 4])
  {
    hide EndFrom, Chunking, Handshake, Looked;
    sock.SendAll(request);
    assert [] + request == request;
    var response;
    response, chunks := ReadHandshake(sock);
    if response.Fail? {
      return Fail(response.failure), chunks;
    }
    var (headers, initial) := response.value;
    if checks.reflects(headers + SEPARATOR + initial) {
      return Fail(SecretExposure), chunks;
    }
    if !accepted(headers) {
      return Fail(HandshakeRejected), chunks;
    }
    ghost var e := HeaderEnd(sock.stream).value;
    assert headers + SEPARATOR + (initial + sock.unread) == sock.stream;
    assert sock.stream[e..] == initial + sock.unread;
    var w := new WebSocket(sock, initial, checks, headers + SEPARATOR);
    r := Ok(w);
  }
}
