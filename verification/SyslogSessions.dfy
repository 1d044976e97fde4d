/**
 What whole connections deliver, in terms of the bytes that were sent: a stream of lines with
 or without a last line feed, and a stream of octet-counted frames.
 */
module SyslogSessions {
  import opened SyslogFraming
  import opened SyslogStreams
  import opened SyslogRelay

  // ---- Lines --------------------------------------------------------------------

  /** The lines of a stream, each up to its line feed, and what follows the last one. */
  lemma {:induction false} StreamIsLines(stream: bytes) returns (lines: seq<bytes>, last: bytes)
    ensures stream == EncodeAll(LineDelimited, lines) + last
    ensures LF !in last && forall p | p in lines :: LF !in p
    decreases |stream|
  {
    if LF in stream {
      var i := FirstLF(stream);
      var more: seq<bytes>;
      more, last := StreamIsLines(stream[i + 1..]);
      lines := [stream[..i]] + more;
      assert lines[1..] == more;
      assert stream == stream[..i] + [LF] + stream[i + 1..];
    } else {
      lines, last := [], stream;
    }
  }

  lemma {:induction false} LinesAreScanned(lines: seq<bytes>, last: bytes, max: nat)
    requires LF !in last && forall p | p in lines :: LF !in p
    ensures LineScan(EncodeAll(LineDelimited, lines) + last, max) ==
            if exists p :: p in lines + [last] && |p| > max then Bad else Good(NonBlank(lines), last)
    decreases |lines|
  {
    hide LineScan, Encode, Blank;
    if lines == [] {
      LastIsScanned(last, max);
      assert [] + [last] == [last];
    } else {
      var p, tail := lines[0], EncodeAll(LineDelimited, lines[1..]) + last;
      EncodeAllFirst(lines);
      assert EncodeAll(LineDelimited, lines) + last == p + [LF] + tail;
      LinesAreScanned(lines[1..], last, max);
      assert lines + [last] == [p] + (lines[1..] + [last]);
      if |p| <= max {
        LineIsRead(p, tail, max);
      } else {
        LineIsTooLong(p, tail, max);
      }
    }
  }

  lemma LastIsScanned(last: bytes, max: nat)
    requires LF !in last
    ensures EncodeAll(LineDelimited, []) + last == last
    ensures LineScan(last, max) == if |last| > max then Bad else Good([], last)
    ensures NonBlank([]) == []
  {
    assert [] + last == last;
  }

  lemma {:induction false} NonBlankLast(lines: seq<bytes>, last: bytes)
    ensures NonBlank(lines + [last]) == NonBlank(lines) + if Blank(last) then [] else [last]
    decreases |lines|
  {
    hide Blank;
    if lines == [] {
      assert [] + [last] == [last];
      assert [last][1..] == [];
    } else {
      assert (lines + [last])[1..] == lines[1..] + [last];
      NonBlankLast(lines[1..], last);
    }
  }

  /** The end of a stream that does not start with an octet count. */
  lemma LineStreamEnds(stream: bytes, max: nat)
    requires !HasCount(stream)
    ensures match LineScan(stream, max)
            case Bad => Step(INIT, stream, true, max) == Raised
            case Good(frames, rest) =>
              && Step(INIT, stream, true, max).Fed?
              && Step(INIT, stream, true, max).frames == frames + if Blank(rest) then [] else [rest]
  {
    hide HasCount, LineScan, OctetScan, Blank;
    assert [] + stream == stream;
    if stream == [] {
      NothingScanned(max);
    }
  }

  lemma NothingScanned(max: nat)
    ensures LineScan([], max) == Good([], []) && Blank([])
  {
  }

  /** A blank frame consists of ASCII blanks. */
  lemma BlankIff(f: bytes)
    ensures Blank(f) <==> forall x | x in f :: x in [9, 10, 11, 12, 13, 32]
  {
  }

  /** What is delivered of a list of frames: those that are not blank, each as often as it is there. */
  lemma {:induction false} NonBlankKeeps(a: seq<bytes>, f: bytes)
    ensures multiset(NonBlank(a))[f] == if Blank(f) then 0 else multiset(a)[f]
    decreases |a|
  {
    hide Blank;
    if a != [] {
      NonBlankKeeps(a[1..], f);
      assert a == [a[0]] + a[1..];
    }
  }

  /** Their order is kept. */
  lemma {:induction false} NonBlankAppends(a: seq<bytes>, b: seq<bytes>)
    ensures NonBlank(a + b) == NonBlank(a) + NonBlank(b)
    decreases |a|
  {
    hide Blank;
    if a == [] {
      assert a + b == b;
    } else {
      NonBlankAppends(a[1..], b);
      assert (a + b)[1..] == a[1..] + b;
    }
  }

  /** A connection that does not start with an octet count raises exactly if one of its lines is
      too long, and otherwise delivers its non-blank lines, the last one with or without a line
      feed behind it. */
  lemma LineSession(lines: seq<bytes>, last: bytes, chunks: seq<bytes>, max: nat)
    requires LF !in last && forall p | p in lines :: LF !in p
    requires Flatten(chunks) == EncodeAll(LineDelimited, lines) + last && !HasCount(Flatten(chunks))
    ensures Session(chunks, max) == Raised <==> exists p :: p in lines + [last] && |p| > max
    ensures Session(chunks, max) != Raised ==> Session(chunks, max).frames == NonBlank(lines + [last])
  {
    hide HasCount, LineScan, Blank, Session, Step, NonBlank, Flatten;
    SessionIndependence(chunks, max);
    LinesAreScanned(lines, last, max);
    LineStreamEnds(Flatten(chunks), max);
    NonBlankLast(lines, last);
  }

  /** One message, no line feed, and the sender closes: it is delivered. */
  lemma UnterminatedMessage(message: bytes, max: nat)
    requires LF !in message && !Blank(message) && !HasCount(message) && |message| <= max
    ensures Session([message], max).Fed? && Session([message], max).frames == [message]
  {
    hide HasCount, Blank, Session;
    OneChunk(message);
    LineSession([], message, [message], max);
    NonBlankLast([], message);
    assert [] + [message] == [message];
  }

  lemma OneChunk(message: bytes)
    ensures Flatten([message]) == message == EncodeAll(LineDelimited, []) + message
  {
    assert [message][1..] == [] && message + [] == message && [] + message == message;
  }

  // ---- Octet counts ----------------------------------------------------------------

  /** The end of a stream that starts with an octet count. */
  lemma CountedStreamEnds(stream: bytes, max: nat)
    requires HasCount(stream)
    ensures match OctetScan(stream, max)
            case Bad => Step(INIT, stream, true, max) == Raised
            case Good(frames, rest) =>
              if rest == [] then Step(INIT, stream, true, max) == Fed(frames, State([], Octet))
              else Step(INIT, stream, true, max) == Raised
  {
    assert stream != [];
    hide HasCount, LineScan, OctetScan, Blank;
    assert [] + stream == stream;
  }

  ghost predicate IsEncoding(stream: bytes, payloads: seq<bytes>, max: nat) {
    stream == EncodeAll(OctetCounted, payloads) && forall p | p in payloads :: 1 <= |p| <= max
  }

  /** A connection that starts with an octet count raises unless it is exactly a concatenation of
      encodings of frames that fit; then it delivers the non-blank ones. */
  lemma OctetSession(chunks: seq<bytes>, max: nat)
    requires max < Pow10(10) && HasCount(Flatten(chunks))
    ensures Session(chunks, max) == Raised <==> !exists payloads :: IsEncoding(Flatten(chunks), payloads, max)
    ensures forall payloads | IsEncoding(Flatten(chunks), payloads, max) ::
              Session(chunks, max).Fed? && Session(chunks, max).frames == NonBlank(payloads)
  {
    hide HasCount, OctetScan, Step, Session, Flatten, NonBlank, Blank, OctetBodies, Encode, EncodeAll;
    var stream := Flatten(chunks);
    SessionIndependence(chunks, max);
    CountedStreamEnds(stream, max);
    forall payloads | IsEncoding(stream, payloads, max)
      ensures OctetScan(stream, max) == Good(NonBlank(payloads), [])
    {
      OctetDecodes(payloads, max);
    }
    var s := OctetScan(stream, max);
    if s.Good? && s.rest == [] {
      var bodies := OctetBodies(stream, max);
      OctetAcceptsOnlyEncodings(stream, max);
      BodiesWereSendable(stream, max);
      assert EncodeAll(OctetCounted, bodies) + [] == EncodeAll(OctetCounted, bodies);
      assert IsEncoding(stream, bodies, max);
    }
  }
}
