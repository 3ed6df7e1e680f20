/**
 The WebSocket wire format of sections 5.2 and 5.3 of RFC 6455, as the live probe
 (beam/scripts/platform_probe.py) writes and reads it.

 `Wire` is the format itself: every way in which a frame may be laid out.  `DecodeServer` is the
 one-shot reader the probe applies to server frames, with the probe's own refusals in the probe's
 own order; `DecodeClient` is what a peer applies to the probe's masked frames.
 */
module WebSocketFrames {
  import opened Basics

  // The largest payload the probe sends or accepts, and the largest message it assembles.
  const MAX_WS_FRAME: nat := 1_048_576

  type Opcode = x: int | 0 <= x < 16
  const CONTINUATION: Opcode := 0
  const TEXT: Opcode := 1
  const CLOSE: Opcode := 8
  const PING: Opcode := 9
  const PONG: Opcode := 10

  datatype Frame = Frame(opcode: Opcode, final: bool, payload: seq<byte>)

  type Mask = m: seq<byte> | |m| == 4 witness [0, 0, 0, 0]

  // ----- masking -----

  function Pow2(n: nat): (r: nat)
    ensures r > 0
  {
    if n == 0 then 1 else 2 * Pow2(n - 1)
  }

  function XorBit(a: nat, b: nat): (r: nat)
    ensures r < 2
  {
    if a % 2 == b % 2 then 0 else 1
  }

  /** Exclusive or of the low `bits` bits of two numbers, bit by bit. */
  function XorBits(a: nat, b: nat, bits: nat): (r: nat)
    ensures r < Pow2(bits)
  {
    if bits == 0 then 0 else XorBit(a, b) + 2 * XorBits(a / 2, b / 2, bits - 1)
  }

  lemma {:induction false} XorTwice(a: nat, b: nat, bits: nat)
    requires a < Pow2(bits)
    ensures XorBits(XorBits(a, b, bits), b, bits) == a
  {
    if bits > 0 {
      XorTwice(a / 2, b / 2, bits - 1);
      XorBitTwice(a, b, XorBits(a / 2, b / 2, bits - 1));
    }
  }

  lemma XorBitTwice(a: nat, b: nat, high: nat)
    ensures
      var x := XorBit(a, b) + 2 * high;
      x / 2 == high && XorBit(x, b) == a % 2
  {
  }

  function Xor(a: byte, b: byte): byte {
    assert Pow2(8) == 256 by { assert Pow2(4) == 16; }
    XorBits(a, b, 8)
  }

  function Masked(payload: seq<byte>, mask: Mask): (r: seq<byte>)
    ensures |r| == |payload|
  {
    seq(|payload|, i requires 0 <= i < |payload| => Xor(payload[i], mask[i % 4]))
  }

  /** Masking is its own inverse, for every payload and every mask. */
  lemma MaskedTwice(payload: seq<byte>, mask: Mask)
    ensures Masked(Masked(payload, mask), mask) == payload
  {
    assert Pow2(8) == 256 by { assert Pow2(4) == 16; }
    forall i | 0 <= i < |payload|
      ensures Masked(Masked(payload, mask), mask)[i] == payload[i]
    {
      XorTwice(payload[i], mask[i % 4], 8);
    }
  }

  const POWERS: seq<nat> := [1, 2, 4, 8, 16, 32, 64, 128]

  lemma PowersOfTwo(k: nat)
    requires k < 8
    ensures POWERS[k] == Pow2(k)
  {
    assert Pow2(1) == 2 && Pow2(2) == 4 && Pow2(3) == 8;
    assert Pow2(4) == 16 && Pow2(5) == 32 && Pow2(6) == 64 && Pow2(7) == 128;
  }

  lemma HalfThenDivide(x: nat, p: nat)
    requires p > 0
    ensures x / 2 / p == x / (2 * p)
  {
    var q := x / 2 / p;
    var r := x / 2 - q * p;
    assert 0 <= r < p && x == 2 * (q * p + r) + x % 2;
    assert x == (2 * p) * q + (2 * r + x % 2) && 0 <= 2 * r + x % 2 < 2 * p;
    QuotientIs(x, 2 * p, q, 2 * r + x % 2);
  }

  lemma QuotientIs(x: nat, d: nat, q: nat, r: nat)
    requires d > 0 && x == d * q + r && r < d
    ensures x / d == q
  {
    var k: int := x / d - q;
    assert d * k == r - x % d;
    assert k > 0 ==> d * k >= d;
    assert k < 0 ==> d * k + d <= 0;
  }

  /** Bit by bit, the result differs from the one operand exactly where the other is set. */
  lemma {:induction false} XorBitsExactly(a: nat, b: nat, bits: nat, k: nat)
    requires k < bits
    ensures XorBits(a, b, bits) / Pow2(k) % 2 == 1 <==> a / Pow2(k) % 2 != b / Pow2(k) % 2
    decreases k
  {
    var x := XorBits(a, b, bits);
    assert x / 2 == XorBits(a / 2, b / 2, bits - 1);
    if k > 0 {
      XorBitsExactly(a / 2, b / 2, bits - 1, k - 1);
      HalfThenDivide(x, Pow2(k - 1));
      HalfThenDivide(a, Pow2(k - 1));
      HalfThenDivide(b, Pow2(k - 1));
    } else {
      assert Pow2(0) == 1;
    }
  }

  /** Masking is exclusive or with the mask, repeated every four bytes: bit by bit, for every payload and mask. */
  lemma MaskedBits(payload: seq<byte>, mask: Mask, i: nat, k: nat)
    requires i < |payload| && k < 8
    ensures Masked(payload, mask)[i] / POWERS[k] % 2 == 1 <==> payload[i] / POWERS[k] % 2 != mask[i % 4] / POWERS[k] % 2
  {
    PowersOfTwo(k);
    XorBitsExactly(payload[i], mask[i % 4], 8, k);
  }

  // ----- numbers in network byte order -----

  function BigEndian(n: nat, width: nat): (r: seq<byte>)
    ensures |r| == width
  {
    if width == 0 then [] else BigEndian(n / 256, width - 1) + [n % 256]
  }

  function FromBigEndian(s: seq<byte>): nat {
    if s == [] then 0 else FromBigEndian(s[..|s| - 1]) * 256 + s[|s| - 1]
  }

  function Pow256(n: nat): (r: nat)
    ensures r > 0
  {
    if n == 0 then 1 else 256 * Pow256(n - 1)
  }

  lemma {:induction false} BigEndianRoundTrip(n: nat, width: nat)
    requires n < Pow256(width)
    ensures FromBigEndian(BigEndian(n, width)) == n
  {
    if width > 0 {
      BigEndianRoundTrip(n / 256, width - 1);
      assert BigEndian(n, width)[..width - 1] == BigEndian(n / 256, width - 1);
    }
  }

  lemma {:induction false} FromBigEndianRoundTrip(s: seq<byte>)
    ensures FromBigEndian(s) < Pow256(|s|)
    ensures BigEndian(FromBigEndian(s), |s|) == s
  {
    if s != [] {
      FromBigEndianRoundTrip(s[..|s| - 1]);
      var high := FromBigEndian(s[..|s| - 1]);
      assert FromBigEndian(s) / 256 == high && FromBigEndian(s) % 256 == s[|s| - 1];
      assert s == s[..|s| - 1] + [s[|s| - 1]];
    }
  }

  lemma Pow256Values()
    ensures Pow256(2) == 65536 && Pow256(8) == 65536 * 65536 * 65536 * 65536
  {
    assert Pow256(1) == 256;
    assert Pow256(3) == 65536 * 256;
    assert Pow256(5) == 65536 * 65536 * 256;
    assert Pow256(7) == 65536 * 65536 * 65536 * 256;
  }

  // ----- the format -----

  /** The three encodings of a payload length: 7 bits, 16 bits, 64 bits. */
  datatype LengthForm = Short | Medium | Long

  predicate Fits(form: LengthForm, n: nat) {
    match form
    case Short => n < 126
    case Medium => n < Pow256(2)
    case Long => n < Pow256(8)
  }

  function LengthCode(form: LengthForm, n: nat): (r: nat)
    requires Fits(form, n)
    ensures r < 128
  {
    match form
    case Short => n
    case Medium => 126
    case Long => 127
  }

  function LengthExtension(form: LengthForm, n: nat): seq<byte>
    requires Fits(form, n)
  {
    match form
    case Short => []
    case Medium => BigEndian(n, 2)
    case Long => BigEndian(n, 8)
  }

  // The fields of the first two header bytes.
  predicate HighBit(b: byte) { b >= 128 }
  predicate Reserved(b: byte) { b / 16 % 8 != 0 }
  function LowNibble(b: byte): Opcode { b % 16 }
  function LowBits(b: byte): (r: nat)
    ensures r < 128
  {
    b % 128
  }

  function FirstByte(f: Frame): (b: byte)
    ensures !Reserved(b) && LowNibble(b) == f.opcode && (HighBit(b) <==> f.final)
  {
    (if f.final then 128 else 0) + f.opcode
  }

  function SecondByte(code: nat, masked: bool): (b: byte)
    requires code < 128
    ensures LowBits(b) == code && (HighBit(b) <==> masked)
  {
    (if masked then 128 else 0) + code
  }

  lemma FirstByteIs(b: byte, f: Frame)
    requires !Reserved(b) && LowNibble(b) == f.opcode && (HighBit(b) <==> f.final)
    ensures b == FirstByte(f)
  {
  }

  lemma SecondByteIs(b: byte, code: nat, masked: bool)
    requires LowBits(b) == code && (HighBit(b) <==> masked)
    ensures b == SecondByte(code, masked)
  {
  }

  /** The bytes before mask and payload. */
  function Head(f: Frame, form: LengthForm, masked: bool): seq<byte>
    requires Fits(form, |f.payload|)
  {
    [FirstByte(f), SecondByte(LengthCode(form, |f.payload|), masked)] + LengthExtension(form, |f.payload|)
  }

  /** The bytes of frame `f`, given the chosen length encoding and mask. */
  function Wire(f: Frame, form: LengthForm, mask: Option<Mask>): seq<byte>
    requires Fits(form, |f.payload|)
  {
    Head(f, form, mask.Some?)
    + (if mask.Some? then mask.value + Masked(f.payload, mask.value) else f.payload)
  }

  /** The shortest length encoding, which is the one the probe chooses. */
  function ShortestForm(n: nat): LengthForm {
    if n < 126 then Short else if n <= 0xFFFF then Medium else Long
  }

  /** No other length encoding of the same frame is shorter. */
  lemma ShortestFormIsShortest(f: Frame, form: LengthForm, mask: Option<Mask>)
    requires Fits(form, |f.payload|)
    ensures Fits(ShortestForm(|f.payload|), |f.payload|)
    ensures |Wire(f, ShortestForm(|f.payload|), mask)| <= |Wire(f, form, mask)|
    ensures |Wire(f, ShortestForm(|f.payload|), mask)| == |Wire(f, form, mask)| <==> form == ShortestForm(|f.payload|)
  {
    Pow256Values();
  }

  // ----- reading -----

  /** The payload length announced by the 7-bit `code` and the bytes after it, and what follows. */
  function LengthField(code: nat, s: seq<byte>): (r: Option<(nat, seq<byte>)>)
    ensures r.Some? ==> |r.value.1| <= |s|
  {
    if code == 126 then
      if |s| < 2 then None else Some((FromBigEndian(s[..2]), s[2..]))
    else if code == 127 then
      if |s| < 8 then None else Some((FromBigEndian(s[..8]), s[8..]))
    else
      Some((code, s))
  }

  datatype Refusal = ReservedBits | ServerMasked | BadControl | TooLarge

  datatype Decoded =
    | Decoded(frame: Frame, rest: seq<byte>)
    | Incomplete
    | Refused(reason: Refusal)

  function DecodePayload(opcode: Opcode, final: bool, length: nat, tail: seq<byte>): (d: Decoded)
    ensures d.Decoded? ==> |d.rest| <= |tail|
  {
    if opcode >= 8 && (!final || length > 125) then Refused(BadControl)
    else if length > MAX_WS_FRAME then Refused(TooLarge)
    else if |tail| < length then Incomplete
    else Decoded(Frame(opcode, final, tail[..length]), tail[length..])
  }

  /** One server frame from the front of a byte stream, with the probe's refusals in its order. */
  function DecodeServer(s: seq<byte>): (d: Decoded)
    ensures d.Decoded? ==> |d.rest| < |s|
  {
    if |s| < 2 then Incomplete
    else if Reserved(s[0]) then Refused(ReservedBits)
    else if HighBit(s[1]) then Refused(ServerMasked)
    else
      match LengthField(LowBits(s[1]), s[2..])
      case None => Incomplete
      case Some((length, tail)) => DecodePayload(LowNibble(s[0]), HighBit(s[0]), length, tail)
  }

  /** The server frames the probe accepts. */
  predicate Acceptable(f: Frame) {
    && |f.payload| <= MAX_WS_FRAME
    && (f.opcode >= 8 ==> f.final && |f.payload| <= 125)
  }

  /** When and why a stream is refused or incomplete, on its bytes. */
  lemma RefusedExactly(s: seq<byte>)
    ensures DecodeServer(s) == Refused(ReservedBits) <==> |s| >= 2 && s[0] / 16 % 8 != 0
    ensures DecodeServer(s) == Refused(ServerMasked) <==> |s| >= 2 && s[0] / 16 % 8 == 0 && s[1] >= 128
    ensures |s| >= 2 && s[0] / 16 % 8 == 0 && s[1] < 128 ==>
      match LengthField(s[1] % 128, s[2..])
      case None => DecodeServer(s) == Incomplete
      case Some((length, tail)) =>
        var badControl := s[0] % 16 >= 8 && (s[0] < 128 || length > 125);
        && (DecodeServer(s) == Refused(BadControl) <==> badControl)
        && (DecodeServer(s) == Refused(TooLarge) <==> !badControl && length > 1_048_576)
        && (DecodeServer(s) == Incomplete <==> !badControl && length <= 1_048_576 && |tail| < length)
    ensures |s| < 2 ==> DecodeServer(s) == Incomplete
  {
    hide LengthField;
  }

  /** A masked frame from the front of a byte stream, as section 5.2 has a server read it. */
  function DecodeClient(s: seq<byte>): (d: Option<(Frame, seq<byte>)>)
    ensures d.Some? ==> |d.value.1| < |s|
  {
    if |s| < 2 || Reserved(s[0]) || !HighBit(s[1]) then None
    else
      match LengthField(LowBits(s[1]), s[2..])
      case None => None
      case Some((length, tail)) =>
        if |tail| < 4 + length then None
        else
          var body := Masked(tail[4..4 + length], tail[..4]);
          Some((Frame(LowNibble(s[0]), HighBit(s[0]), body), tail[4 + length..]))
  }

  /** A length field reads back, whatever follows it. */
  lemma LengthFieldReads(form: LengthForm, n: nat, tail: seq<byte>)
    requires Fits(form, n)
    ensures LengthField(LengthCode(form, n), LengthExtension(form, n) + tail) == Some((n, tail))
  {
    var extension := LengthExtension(form, n);
    assert (extension + tail)[..|extension|] == extension && (extension + tail)[|extension|..] == tail;
    match form
    case Short =>
    case Medium => BigEndianRoundTrip(n, 2);
    case Long => BigEndianRoundTrip(n, 8);
  }

  /** Conversely, a length field that reads was laid out in one of the three forms. */
  lemma LengthFieldSound(code: nat, s: seq<byte>) returns (form: LengthForm)
    requires code < 128 && LengthField(code, s).Some?
    ensures
      var (length, tail) := LengthField(code, s).value;
      Fits(form, length) && code == LengthCode(form, length) && s == LengthExtension(form, length) + tail
  {
    if code == 126 {
      form := Medium;
      FromBigEndianRoundTrip(s[..2]);
      assert s == s[..2] + s[2..];
    } else if code == 127 {
      form := Long;
      FromBigEndianRoundTrip(s[..8]);
      assert s == s[..8] + s[8..];
    } else {
      form := Short;
    }
  }

  /** The parts of a laid out frame, whatever follows it. */
  lemma WireParts(f: Frame, form: LengthForm, mask: Option<Mask>, rest: seq<byte>)
    requires Fits(form, |f.payload|)
    ensures
      var s := Wire(f, form, mask) + rest;
      && s[0] == FirstByte(f) && s[1] == SecondByte(LengthCode(form, |f.payload|), mask.Some?)
      && s[2..] == LengthExtension(form, |f.payload|)
                   + (if mask.Some? then mask.value + Masked(f.payload, mask.value) + rest else f.payload + rest)
  {
    hide Fits, LengthExtension, LengthCode, FirstByte, SecondByte, Masked;
    var s := Wire(f, form, mask) + rest;
    var extension := LengthExtension(form, |f.payload|);
    var tail := if mask.Some? then mask.value + Masked(f.payload, mask.value) else f.payload;
    assert s == Head(f, form, mask.Some?) + (tail + rest);
    assert Head(f, form, mask.Some?)[2..] == extension;
    assert s[2..] == extension + (tail + rest);
  }

  /** Every layout of an acceptable frame is decoded to that frame, and nothing more is consumed. */
  lemma DecodeServerOfWire(f: Frame, form: LengthForm, rest: seq<byte>)
    requires Acceptable(f) && Fits(form, |f.payload|)
    ensures DecodeServer(Wire(f, form, None) + rest) == Decoded(f, rest)
  {
    WireParts(f, form, None, rest);
    LengthFieldReads(form, |f.payload|, f.payload + rest);
    DecodePayloadOf(f, rest);
    hide DecodePayload, LengthField, Fits, LengthExtension, LengthCode, FirstByte, SecondByte, Reserved, HighBit, LowNibble, LowBits, Wire;
  }

  lemma DecodePayloadOf(f: Frame, rest: seq<byte>)
    requires Acceptable(f)
    ensures DecodePayload(f.opcode, f.final, |f.payload|, f.payload + rest) == Decoded(f, rest)
  {
    var tail := f.payload + rest;
    assert tail[..|f.payload|] == f.payload && tail[|f.payload|..] == rest;
  }

  /** Conversely, whatever decodes was a layout of an acceptable frame: nothing else is accepted. */
  lemma DecodeServerSound(s: seq<byte>) returns (form: LengthForm)
    requires DecodeServer(s).Decoded?
    ensures
      var d := DecodeServer(s);
      && Acceptable(d.frame)
      && Fits(form, |d.frame.payload|)
      && s == Wire(d.frame, form, None) + d.rest
  {
    hide LengthField, Fits, LengthExtension, LengthCode, FirstByte, SecondByte, Reserved, HighBit, LowNibble, LowBits;
    var d := DecodeServer(s);
    var (length, tail) := LengthField(LowBits(s[1]), s[2..]).value;
    form := LengthFieldSound(LowBits(s[1]), s[2..]);
    assert tail == d.frame.payload + d.rest && |d.frame.payload| == length;
    FirstByteIs(s[0], d.frame);
    SecondByteIs(s[1], LengthCode(form, length), false);
    WireIs(s, d.frame, form, d.rest);
  }

  lemma WireIs(s: seq<byte>, f: Frame, form: LengthForm, rest: seq<byte>)
    requires Fits(form, |f.payload|) && |s| >= 2
    requires s[0] == FirstByte(f) && s[1] == SecondByte(LengthCode(form, |f.payload|), false)
    requires s[2..] == LengthExtension(form, |f.payload|) + (f.payload + rest)
    ensures s == Wire(f, form, None) + rest
  {
    hide Fits, LengthExtension, LengthCode, FirstByte, SecondByte;
    assert s == [s[0], s[1]] + s[2..];
  }

  /** A masked layout decodes to the frame it was made from, for every mask. */
  lemma DecodeClientOfWire(f: Frame, form: LengthForm, mask: Mask, rest: seq<byte>)
    requires Fits(form, |f.payload|)
    ensures DecodeClient(Wire(f, form, Some(mask)) + rest) == Some((f, rest))
  {
    var body := Masked(f.payload, mask);
    var tail := mask + body + rest;
    WireParts(f, form, Some(mask), rest);
    LengthFieldReads(form, |f.payload|, tail);
    MaskedTwice(f.payload, mask);
    hide LengthField, Fits, LengthExtension, LengthCode, FirstByte, SecondByte, Reserved, HighBit, LowNibble, LowBits, Wire, Masked;
    assert tail[..4] == mask && tail[4..4 + |body|] == body && tail[4 + |body|..] == rest;
  }

  // ----- sequences of frames -----

  /** Decoding `s` frame by frame gives exactly `frames`, and then `rest` is left. */
  predicate Reads(s: seq<byte>, frames: seq<Frame>, rest: seq<byte>) {
    if frames == [] then s == rest
    else
      var d := DecodeServer(s);
      d.Decoded? && d.frame == frames[0] && Reads(d.rest, frames[1..], rest)
  }

  lemma {:induction false} ReadsOneMore(s: seq<byte>, frames: seq<Frame>, middle: seq<byte>, f: Frame, rest: seq<byte>)
    requires Reads(s, frames, middle) && DecodeServer(middle) == Decoded(f, rest)
    ensures Reads(s, frames + [f], rest)
    decreases |frames|
  {
    hide DecodeServer;
    if frames == [] {
      assert ([] + [f])[1..] == [];
      assert Reads(rest, [], rest);
    } else {
      ReadsOneMore(DecodeServer(s).rest, frames[1..], middle, f, rest);
      assert (frames + [f])[1..] == frames[1..] + [f];
    }
  }

  /** The frames on a stream do not depend on how many of them one asks for. */
  lemma {:induction false} ReadsIsDeterministic(s: seq<byte>, a: seq<Frame>, restA: seq<byte>, b: seq<Frame>, restB: seq<byte>)
    requires Reads(s, a, restA) && Reads(s, b, restB)
    ensures a <= b || b <= a
    ensures |a| == |b| ==> a == b && restA == restB
    ensures |a| <= |b| ==> Reads(restA, b[|a|..], restB)
    decreases |a|
  {
    hide DecodeServer;
    if a != [] && b != [] {
      var next := DecodeServer(s).rest;
      ReadsIsDeterministic(next, a[1..], restA, b[1..], restB);
      assert a == [a[0]] + a[1..] && b == [b[0]] + b[1..];
      assert |a| <= |b| ==> b[1..][|a[1..]|..] == b[|a|..];
    }
  }

  /** All frames on a stream: the one-shot decoder, applied until it finds no further frame. */
  function Frames(s: seq<byte>): seq<Frame>
    decreases |s|
  {
    match DecodeServer(s)
    case Decoded(f, rest) => [f] + Frames(rest)
    case _ => []
  }

  /** What has been read is a front part of all frames, and the rest of the stream holds the others. */
  lemma {:induction false} ReadsIsFront(s: seq<byte>, frames: seq<Frame>, rest: seq<byte>)
    requires Reads(s, frames, rest)
    ensures Frames(s) == frames + Frames(rest)
    decreases |frames|
  {
    hide DecodeServer;
    if frames != [] {
      ReadsIsFront(DecodeServer(s).rest, frames[1..], rest);
      assert frames == [frames[0]] + frames[1..];
    }
  }

  lemma NoMoreFrames(s: seq<byte>)
    ensures !DecodeServer(s).Decoded? ==> Frames(s) == []
  {
    hide DecodeServer;
  }

  /** The frames that `s` consists of under `DecodeClient`, or None when bytes are left over. */
  function DecodeClientAll(s: seq<byte>): Option<seq<Frame>>
    decreases |s|
  {
    if s == [] then Some([])
    else
      match DecodeClient(s)
      case None => None
      case Some((f, rest)) =>
        match DecodeClientAll(rest)
        case None => None
        case Some(fs) => Some([f] + fs)
  }

  /** Appending one masked frame to a well formed output appends exactly that frame. */
  lemma {:induction false} DecodeClientAllAppend(s: seq<byte>, frames: seq<Frame>, f: Frame, form: LengthForm, mask: Mask)
    requires DecodeClientAll(s) == Some(frames)
    requires Fits(form, |f.payload|)
    ensures DecodeClientAll(s + Wire(f, form, Some(mask))) == Some(frames + [f])
    decreases |s|
  {
    hide DecodeClient, Wire, Fits;
    var w := Wire(f, form, Some(mask));
    if s == [] {
      DecodeClientOfWire(f, form, mask, []);
      assert s + w == w == w + [];
      assert DecodeClientAll([]) == Some([]);
      assert [f] + [] == frames + [f];
    } else {
      var (g, rest) := DecodeClient(s).value;
      DecodeClientStable(s, w);
      DecodeClientAllAppend(rest, frames[1..], f, form, mask);
      assert frames + [f] == [g] + (frames[1..] + [f]);
    }
  }

  /** A complete frame at the front decodes the same when more bytes follow. */
  lemma DecodeClientStable(s: seq<byte>, more: seq<byte>)
    requires DecodeClient(s).Some?
    ensures DecodeClient(s + more) == Some((DecodeClient(s).value.0, DecodeClient(s).value.1 + more))
  {
    assert (s + more)[2..] == s[2..] + more;
    var code := LowBits(s[1]);
    var (length, tail) := LengthField(code, s[2..]).value;
    LengthFieldStable(code, s[2..], more);
    hide LengthField, Masked, Reserved, HighBit, LowNibble, LowBits;
    SliceOfPrefix(tail, more, 0, 4);
    SliceOfPrefix(tail, more, 4, 4 + length);
    assert (tail + more)[4 + length..] == tail[4 + length..] + more;
  }

  lemma LengthFieldStable(code: nat, s: seq<byte>, more: seq<byte>)
    requires LengthField(code, s).Some?
    ensures LengthField(code, s + more) == Some((LengthField(code, s).value.0, LengthField(code, s).value.1 + more))
  {
    var width := if code == 126 then 2 else if code == 127 then 8 else 0;
    SliceOfPrefix(s, more, 0, width);
    assert (s + more)[width..] == s[width..] + more;
  }

  lemma SliceOfPrefix(s: seq<byte>, more: seq<byte>, i: nat, j: nat)
    requires i <= j <= |s|
    ensures (s + more)[i..j] == s[i..j]
  {
  }
}
