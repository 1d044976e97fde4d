/**
 The relay's encoder (forwarder.py, `_send_tcp`) against the framer: decoding
 inverts encoding, and every accepted stream is an encoding.
 */
module SyslogRelay {
  import opened SyslogFraming
  import opened SyslogStreams

  datatype Framing = OctetCounted | LineDelimited

  /** Decimal rendering of a length. */
  function Digits(n: nat): (s: bytes)
    ensures s != [] && AllDigits(s) && Value(s) == n
    ensures n > 0 ==> s[0] != ZERO
  {
    if n < 10 then
      var s: bytes := [ZERO + n];
      assert s[..0] == [];
      s
    else
      var s := Digits(n / 10) + [ZERO + n % 10];
      assert s[..|s| - 1] == Digits(n / 10);
      s
  }

  function Encode(framing: Framing, payload: bytes): bytes {
    match framing
    case OctetCounted => Digits(|payload|) + [32] + payload
    case LineDelimited => payload + [10]
  }

  function EncodeAll(framing: Framing, payloads: seq<bytes>): bytes {
    if payloads == [] then [] else Encode(framing, payloads[0]) + EncodeAll(framing, payloads[1..])
  }

  lemma {:induction false} EncodeAllAppend(framing: Framing, a: seq<bytes>, b: seq<bytes>)
    ensures EncodeAll(framing, a + b) == EncodeAll(framing, a) + EncodeAll(framing, b)
  {
    hide Encode;
    if a == [] {
      assert a + b == b;
    } else {
      assert (a + b)[1..] == a[1..] + b;
      EncodeAllAppend(framing, a[1..], b);
    }
  }

  /** A relay destination; `wire` is everything its TCP connection was given. */
  class RuntimeForwarder {
    const framing: Framing
    var wire: bytes
    ghost var sent: seq<bytes>

    ghost predicate Valid() reads this { wire == EncodeAll(framing, sent) }

    constructor (framing: Framing)
      ensures Valid() && sent == [] && this.framing == framing
    {
      this.framing := framing;
      wire := [];
      sent := [];
    }

    method SendTcp(payload: bytes)
      requires Valid()
      modifies this
      ensures Valid() && sent == old(sent) + [payload]
      ensures wire == old(wire) + Encode(framing, payload)
    {
      var framed: bytes;
      if framing == OctetCounted {
        framed := Digits(|payload|) + [SPACE] + payload;
      } else {
        framed := payload + [LF];
      }
      wire := wire + framed;
      EncodeAllAppend(framing, sent, [payload]);
      assert EncodeAll(framing, [payload]) == framed + [];
      sent := sent + [payload];
    }
  }

  // ---- Octet counting ----------------------------------------------------

  function Pow10(k: nat): nat { if k == 0 then 1 else 10 * Pow10(k - 1) }

  lemma DigitsLength(n: nat, k: nat)
    requires k >= 1 && n < Pow10(k)
    ensures |Digits(n)| <= k
  {
    if n >= 10 {
      DigitsLength(n / 10, k - 1);
    }
  }

  lemma AllDigitsRun(s: bytes)
    requires AllDigits(s)
    ensures DigitRun(s) == |s|
  {
  }

  predicate Sendable(payload: bytes, max: nat) { 1 <= |payload| <= max }

  lemma CountIsRead(payload: bytes, tail: bytes, max: nat)
    requires Sendable(payload, max) && max < Pow10(10)
    ensures var s := Encode(OctetCounted, payload) + tail;
            && HasCount(s) && BodySize(s) == |payload|
            && BodyStart(s) == |Digits(|payload|)| + 1
  {
    hide DigitRun, Digits, Pow10;
    var d := Digits(|payload|);
    var s := Encode(OctetCounted, payload) + tail;
    var behind: bytes := [SPACE] + payload + tail;
    assert s == d + behind;
    DigitsLength(|payload|, 10);
    AllDigitsRun(d);
    DigitRunAppend(d, behind);
    assert s[..|d|] == d;
    assert s[0] == d[0] && s[|d|] == SPACE;
  }

  lemma {:induction false} OctetDecodes(payloads: seq<bytes>, max: nat)
    requires forall p | p in payloads :: Sendable(p, max)
    requires max < Pow10(10)
    ensures OctetScan(EncodeAll(OctetCounted, payloads), max) == Good(NonBlank(payloads), [])
    decreases |payloads|
  {
    if payloads != [] {
      var p, tail := payloads[0], EncodeAll(OctetCounted, payloads[1..]);
      var s := Encode(OctetCounted, p) + tail;
      CountIsRead(p, tail, max);
      var start := BodyStart(s);
      assert s[start..start + |p|] == p;
      assert s[start + |p|..] == tail;
      OctetDecodes(payloads[1..], max);
    }
  }

  /** Round trip, octet counting: in whatever chunks the relayed bytes arrive, the
      receiver delivers the payloads (blank ones are dropped) and holds nothing back. */
  lemma OctetRoundTrip(payloads: seq<bytes>, chunks: seq<bytes>, max: nat)
    requires forall p | p in payloads :: Sendable(p, max)
    requires max < Pow10(10)
    requires Flatten(chunks) == EncodeAll(OctetCounted, payloads)
    ensures FeedAll(INIT, chunks, max) ==
            Fed(NonBlank(payloads), State([], if payloads == [] then Unset else Octet))
    ensures Session(chunks, max) == FeedAll(INIT, chunks, max)
  {
    ChunkIndependence(chunks, max);
    SessionIndependence(chunks, max);
    OctetDecodes(payloads, max);
    var stream := Flatten(chunks);
    assert [] + stream == stream;
    if payloads != [] {
      CountIsRead(payloads[0], EncodeAll(OctetCounted, payloads[1..]), max);
      assert stream == Encode(OctetCounted, payloads[0]) + EncodeAll(OctetCounted, payloads[1..]);
    }
    hide DigitRun, Digits, Encode, EncodeAll, OctetScan, FeedAll, Flatten, LineScan, NonBlank;
  }

  lemma LeadingDigitCounts(digits: bytes)
    requires AllDigits(digits) && digits != [] && digits[0] != ZERO
    ensures Value(digits) >= 1
  {
    if |digits| == 1 {
      assert digits[..0] == [];
    } else {
      LeadingDigitCounts(digits[..|digits| - 1]);
    }
  }

  lemma {:induction false} DigitsOfValue(digits: bytes)
    requires AllDigits(digits) && digits != [] && digits[0] != ZERO
    ensures Digits(Value(digits)) == digits
    decreases |digits|
  {
    var initial, last := digits[..|digits| - 1], digits[|digits| - 1];
    assert digits == initial + [last];
    if initial != [] {
      LeadingDigitCounts(initial);
      DigitsOfValue(initial);
      assert Value(digits) / 10 == Value(initial) && Value(digits) % 10 == last - ZERO;
    }
  }

  /** The bodies a scan consumed, blank ones included. */
  function OctetBodies(buffer: bytes, max: nat): seq<bytes>
    decreases |buffer|
  {
    if !HoldsFrame(buffer, max) then []
    else
      var start, end := BodyStart(buffer), BodyStart(buffer) + BodySize(buffer);
      [buffer[start..end]] + OctetBodies(buffer[end..], max)
  }

  predicate HoldsFrame(buffer: bytes, max: nat) {
    HasCount(buffer) && BodySize(buffer) <= max && BodyStart(buffer) + BodySize(buffer) <= |buffer|
  }

  /** A count is read only from its own decimal rendering. */
  lemma FrameIsEncoding(buffer: bytes, max: nat)
    requires HoldsFrame(buffer, max)
    ensures var start, end := BodyStart(buffer), BodyStart(buffer) + BodySize(buffer);
            Encode(OctetCounted, buffer[start..end]) == buffer[..end] && Sendable(buffer[start..end], max)
  {
    var n := DigitRun(buffer);
    LeadingDigitCounts(buffer[..n]);
    DigitsOfValue(buffer[..n]);
  }

  lemma OneMoreBody(body: bytes, bodies: seq<bytes>, rest: bytes)
    ensures EncodeAll(OctetCounted, [body] + bodies) + rest ==
            Encode(OctetCounted, body) + (EncodeAll(OctetCounted, bodies) + rest)
    ensures NonBlank([body] + bodies) == Keep(body) + NonBlank(bodies)
  {
    hide Encode, Blank;
    assert ([body] + bodies)[1..] == bodies;
  }

  lemma BodiesUnfold(buffer: bytes, max: nat)
    requires HoldsFrame(buffer, max)
    ensures var start, end := BodyStart(buffer), BodyStart(buffer) + BodySize(buffer);
            OctetBodies(buffer, max) == [buffer[start..end]] + OctetBodies(buffer[end..], max)
  {
  }

  /** Converse of `OctetRoundTrip`: what is accepted is the encoding of what is
      delivered, followed by what is held; frames are never emitted partially. */
  lemma {:induction false} OctetAcceptsOnlyEncodings(buffer: bytes, max: nat)
    ensures var s, bodies := OctetScan(buffer, max), OctetBodies(buffer, max);
            s.Good? ==> buffer == EncodeAll(OctetCounted, bodies) + s.rest && s.frames == NonBlank(bodies)
    decreases |buffer|
  {
    hide OctetScan, OctetBodies, DigitRun, Value, Encode, EncodeAll, NonBlank, Blank, HasCount, BodyStart, BodySize;
    if HoldsFrame(buffer, max) {
      var start, end := BodyStart(buffer), BodyStart(buffer) + BodySize(buffer);
      var body, tail := buffer[start..end], buffer[end..];
      FrameIsEncoding(buffer, max);
      OctetScanUnfolds(buffer, max);
      BodiesUnfold(buffer, max);
      OctetAcceptsOnlyEncodings(tail, max);
      var s, bodies := OctetScan(tail, max), OctetBodies(tail, max);
      if s.Good? {
        OneMoreBody(body, bodies, s.rest);
        assert buffer == buffer[..end] + tail;
      }
    } else {
      OctetScanStops(buffer, max);
      NoBodies(buffer, max);
    }
  }

  lemma NoBodies(buffer: bytes, max: nat)
    requires !HoldsFrame(buffer, max)
    ensures OctetBodies(buffer, max) == [] && EncodeAll(OctetCounted, []) == [] && NonBlank([]) == []
  {
  }

  lemma {:induction false} BodiesWereSendable(buffer: bytes, max: nat)
    ensures forall p | p in OctetBodies(buffer, max) :: Sendable(p, max)
    decreases |buffer|
  {
    if HoldsFrame(buffer, max) {
      FrameIsEncoding(buffer, max);
      BodiesWereSendable(buffer[BodyStart(buffer) + BodySize(buffer)..], max);
    }
  }

  // ---- Newline framing ---------------------------------------------------

  lemma FirstLFUnique(s: bytes, i: nat)
    requires i < |s| && s[i] == LF && LF !in s[..i]
    ensures FirstLF(s) == i
  {
    if i > 0 {
      assert s[0] in s[..i];
      assert s[1..][..i - 1] == s[..i][1..];
      FirstLFUnique(s[1..], i - 1);
    }
  }

  lemma LineIsRead(payload: bytes, tail: bytes, max: nat)
    requires LF !in payload && |payload| <= max
    ensures LineScan(payload + [LF] + tail, max) == Prepend(Keep(payload), LineScan(tail, max))
  {
    var s := payload + [LF] + tail;
    assert s[|payload|] == LF && s[..|payload|] == payload;
    FirstLFUnique(s, |payload|);
    assert s[|payload| + 1..] == tail;
  }

  /** No line of the payload is longer than a frame may be. */
  predicate LinesFit(payload: bytes, max: nat)
    decreases |payload|
  {
    if LF !in payload then |payload| <= max
    else FirstLF(payload) <= max && LinesFit(payload[FirstLF(payload) + 1..], max)
  }

  lemma SplitAtLF(payload: bytes, tail: bytes)
    requires LF in payload
    ensures var i := FirstLF(payload);
            var line, more := payload[..i], payload[i + 1..];
            LF !in line && |line| == i && |more| < |payload|
            && payload + [LF] + tail == line + [LF] + (more + [LF] + tail)
            && (Blank(payload) ==> Blank(line) && Blank(more))
  {
    hide FirstLF;
    var i := FirstLF(payload);
    var line, more := payload[..i], payload[i + 1..];
    assert payload == line + [LF] + more;
    assert forall b | b in more || b in line :: b in payload;
    LastLF(line, more, tail);
  }

  lemma LastLF(line: bytes, more: bytes, tail: bytes)
    ensures line + [LF] + more + [LF] + tail == line + [LF] + (more + [LF] + tail)
  {
  }

  lemma LineIsTooLong(line: bytes, tail: bytes, max: nat)
    requires LF !in line && |line| > max
    ensures LineScan(line + [LF] + tail, max) == Bad
  {
    var s := line + [LF] + tail;
    assert s[|line|] == LF && s[..|line|] == line;
    FirstLFUnique(s, |line|);
  }

  /** The lines of one payload are read, or one of them is refused. */
  lemma {:induction false} PayloadIsRead(payload: bytes, tail: bytes, max: nat)
    ensures LineScan(payload + [LF] + tail, max) == Bad <==> !LinesFit(payload, max) || LineScan(tail, max) == Bad
    decreases |payload|
  {
    hide LineScan, FirstLF;
    if LF in payload {
      var i := FirstLF(payload);
      var line, more := payload[..i], payload[i + 1..];
      SplitAtLF(payload, tail);
      if i <= max {
        LineIsRead(line, more + [LF] + tail, max);
        PayloadIsRead(more, tail, max);
      } else {
        LineIsTooLong(line, more + [LF] + tail, max);
      }
    } else if |payload| <= max {
      LineIsRead(payload, tail, max);
    } else {
      LineIsTooLong(payload, tail, max);
    }
  }

  /** Line feeds inside a blank payload only make more blank frames. */
  lemma {:induction false} BlankLinesVanish(payload: bytes, tail: bytes, max: nat)
    requires Blank(payload) && LinesFit(payload, max)
    ensures LineScan(payload + [LF] + tail, max) == LineScan(tail, max)
    decreases |payload|
  {
    hide LineScan, FirstLF;
    if LF !in payload {
      LineIsRead(payload, tail, max);
      PrependNothing(LineScan(tail, max));
    } else {
      var i := FirstLF(payload);
      var line, more := payload[..i], payload[i + 1..];
      SplitAtLF(payload, tail);
      LineIsRead(line, more + [LF] + tail, max);
      PrependNothing(LineScan(more + [LF] + tail, max));
      BlankLinesVanish(more, tail, max);
    }
  }

  lemma {:induction false} LineDecodes(payloads: seq<bytes>, max: nat)
    requires forall p | p in payloads :: LinesFit(p, max) && (Blank(p) || LF !in p)
    ensures LineScan(EncodeAll(LineDelimited, payloads), max) == Good(NonBlank(payloads), [])
    decreases |payloads|
  {
    if payloads != [] {
      var p, tail := payloads[0], EncodeAll(LineDelimited, payloads[1..]);
      LineDecodes(payloads[1..], max);
      if Blank(p) {
        BlankLinesVanish(p, tail, max);
        assert [] + NonBlank(payloads[1..]) == NonBlank(payloads[1..]);
      } else {
        LineIsRead(p, tail, max);
      }
    }
  }

  lemma {:induction false} LongLinesAreRefused(payloads: seq<bytes>, max: nat)
    ensures LineScan(EncodeAll(LineDelimited, payloads), max) == Bad <==> exists p :: p in payloads && !LinesFit(p, max)
    decreases |payloads|
  {
    hide LineScan, LinesFit, Encode;
    if payloads == [] {
      NothingToScan(max);
    } else {
      EncodeAllFirst(payloads);
      LongLinesAreRefused(payloads[1..], max);
      PayloadIsRead(payloads[0], EncodeAll(LineDelimited, payloads[1..]), max);
      assert payloads == [payloads[0]] + payloads[1..];
    }
  }

  lemma NothingToScan(max: nat)
    ensures LineScan(EncodeAll(LineDelimited, []), max) == Good([], [])
  {
  }

  lemma EncodeAllFirst(payloads: seq<bytes>)
    requires payloads != []
    ensures EncodeAll(LineDelimited, payloads) == payloads[0] + [LF] + EncodeAll(LineDelimited, payloads[1..])
  {
  }

  lemma LinesHoldNoLF(buffer: bytes, max: nat)
    ensures var s := LineScan(buffer, max); s.Good? ==> forall f | f in s.frames :: LF !in f
    decreases |buffer|
  {
    if LF in buffer {
      LinesHoldNoLF(buffer[FirstLF(buffer) + 1..], max);
    }
  }

  lemma NonBlankKeeps(payloads: seq<bytes>, p: bytes)
    requires p in payloads && !Blank(p)
    ensures p in NonBlank(payloads)
  {
  }

  /** A line feed is neither a digit nor a space, so only the first payload decides. */
  lemma LooksCounted(payload: bytes, tail: bytes)
    ensures HasCount(payload + [LF] + tail) <==> HasCount(payload)
  {
    var behind: bytes := [LF] + tail;
    assert payload + [LF] + tail == payload + behind;
    DigitRunAppend(payload, behind);
    PrefixIsStable(payload, behind);
    if DigitRun(payload) < |payload| {
      assert (payload + behind)[DigitRun(payload)] == payload[DigitRun(payload)];
    } else {
      assert (payload + behind)[|payload|] == LF;
    }
  }

  /** Round trip, newline framing, with its exact condition: every line fits a frame, no
      delivered payload contains a line feed, and the first one does not look like an octet
      count.  The receiver is then in newline mode and holds nothing back. */
  lemma LineRoundTrip(payloads: seq<bytes>, chunks: seq<bytes>, max: nat)
    requires Flatten(chunks) == EncodeAll(LineDelimited, payloads)
    ensures FeedAll(INIT, chunks, max) ==
            Fed(NonBlank(payloads), State([], if payloads == [] then Unset else Newline))
      <==> (payloads != [] ==> !HasCount(payloads[0]))
           && forall p | p in payloads :: LinesFit(p, max) && (Blank(p) || LF !in p)
  {
    hide HasCount, Flatten, FeedAll, OctetScan, LineScan, NonBlank, Blank, LinesFit;
    ChunkIndependence(chunks, max);
    var stream := Flatten(chunks);
    assert [] + stream == stream;
    if payloads == [] {
      NothingEncoded();
    } else {
      EncodeAllFirst(payloads);
      LooksCounted(payloads[0], EncodeAll(LineDelimited, payloads[1..]));
      assert stream[|payloads[0]|] == LF;
      LongLinesAreRefused(payloads, max);
      if forall p | p in payloads :: LinesFit(p, max) && (Blank(p) || LF !in p) {
        LineDecodes(payloads, max);
      } else if forall p | p in payloads :: LinesFit(p, max) {
        var p :| p in payloads && !Blank(p) && LF in p;
        NonBlankKeeps(payloads, p);
        LinesHoldNoLF(stream, max);
      }
    }
  }

  lemma NothingEncoded()
    ensures EncodeAll(LineDelimited, []) == [] && NonBlank([]) == []
  {
  }
}
