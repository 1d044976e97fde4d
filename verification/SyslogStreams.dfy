/**
 Whole streams through the framer of `SyslogFraming`: independence from the
 chunking and the bound on buffered bytes.
 */
module SyslogStreams {
  import opened SyslogFraming

  function Flatten(chunks: seq<bytes>): bytes {
    if chunks == [] then [] else chunks[0] + Flatten(chunks[1..])
  }

  /** Continue with `next` after frames were already delivered. */
  function Then(frames: seq<bytes>, next: Outcome): Outcome {
    match next
    case Raised => Raised
    case Fed(more, s) => Fed(frames + more, s)
  }

  /** One `feed` per chunk; the connection is dropped at the first error. */
  function FeedAll(s: State, chunks: seq<bytes>, max: nat): Outcome
    decreases |chunks|
  {
    if chunks == [] then Fed([], s)
    else
      match Step(s, chunks[0], false, max)
      case Raised => Raised
      case Fed(frames, s') => Then(frames, FeedAll(s', chunks[1..], max))
  }

  // ---- Scanning a buffer in two instalments ------------------------------

  lemma DigitRunAppend(a: bytes, b: bytes)
    ensures DigitRun(a) < |a| ==> DigitRun(a + b) == DigitRun(a)
    ensures DigitRun(a) == |a| ==> DigitRun(a + b) == |a| + DigitRun(b)
  {
    if a == [] {
      assert a + b == b;
    } else {
      assert (a + b)[1..] == a[1..] + b;
      DigitRunAppend(a[1..], b);
    }
  }

  lemma PrefixIsStable(a: bytes, b: bytes)
    ensures HasCount(a) ==> HasCount(a + b) && BodyStart(a + b) == BodyStart(a) && BodySize(a + b) == BodySize(a)
    ensures !HasCount(a) && |a| > MAX_PREFIX ==> !HasCount(a + b)
  {
    DigitRunAppend(a, b);
    if HasCount(a) {
      assert (a + b)[..DigitRun(a)] == a[..DigitRun(a)];
    }
  }

  function Resume(s: Scan, more: bytes, scan: bytes -> Scan): Scan {
    match s
    case Bad => Bad
    case Good(frames, rest) => Prepend(frames, scan(rest + more))
  }

  lemma {:induction false} OctetScanResumes(a: bytes, b: bytes, max: nat)
    ensures OctetScan(a + b, max) == Resume(OctetScan(a, max), b, x => OctetScan(x, max))
    decreases |a|
  {
    PrefixIsStable(a, b);
    if a == [] {
      PrependNothing(OctetScan([] + b, max));
      assert a + b == b;
    } else if !HasCount(a) {
      PrependNothing(OctetScan(a + b, max));
    } else {
      var start, size := BodyStart(a), BodySize(a);
      if size <= max && |a| < start + size {
        PrependNothing(OctetScan(a + b, max));
      } else if size <= max {
        var rest := a[start + size..];
        assert (a + b)[start..start + size] == a[start..start + size];
        assert (a + b)[start + size..] == rest + b;
        OctetScanResumes(rest, b, max);
        ResumeUnderPrefix(Keep(a[start..start + size]), OctetScan(rest, max), b, x => OctetScan(x, max));
      }
    }
  }

  lemma ResumeUnderPrefix(frames: seq<bytes>, s: Scan, more: bytes, scan: bytes -> Scan)
    ensures Resume(Prepend(frames, s), more, scan) == Prepend(frames, Resume(s, more, scan))
  {
    if s.Good? {
      PrependTwice(frames, s.frames, scan(s.rest + more));
    }
  }

  lemma FirstLFAppend(a: bytes, b: bytes)
    requires LF in a
    ensures FirstLF(a + b) == FirstLF(a)
  {
    if a[0] != LF {
      assert (a + b)[1..] == a[1..] + b;
      FirstLFAppend(a[1..], b);
    }
  }

  lemma FirstLFStep(s: bytes)
    requires LF in s && s[0] != LF
    ensures LF in s[1..] && FirstLF(s) == 1 + FirstLF(s[1..])
  {
  }

  lemma {:induction false} FirstLFBeyond(a: bytes, b: bytes)
    requires LF !in a && LF in b
    ensures FirstLF(a + b) == |a| + FirstLF(b)
    decreases |a|
  {
    hide FirstLF;
    if a == [] {
      assert a + b == b;
    } else {
      assert (a + b)[1..] == a[1..] + b;
      FirstLFStep(a + b);
      FirstLFBeyond(a[1..], b);
    }
  }

  lemma {:induction false} LineScanResumes(a: bytes, b: bytes, max: nat)
    ensures LineScan(a + b, max) == Resume(LineScan(a, max), b, x => LineScan(x, max))
    decreases |a|
  {
    if LF !in a {
      if |a| <= max {
        PrependNothing(LineScan(a + b, max));
      } else if LF in b {
        FirstLFBeyond(a, b);
      }
    } else {
      FirstLFAppend(a, b);
      var i := FirstLF(a);
      assert (a + b)[..i] == a[..i];
      assert (a + b)[i + 1..] == a[i + 1..] + b;
      if i <= max {
        LineScanResumes(a[i + 1..], b, max);
        ResumeUnderPrefix(Keep(a[..i]), LineScan(a[i + 1..], max), b, x => LineScan(x, max));
      }
    }
  }

  // ---- The mode does not depend on the cut -------------------------------

  lemma ChoiceIsStable(a: bytes, b: bytes)
    requires a != []
    ensures Choose(a, false) != Unset ==> Choose(a + b, false) == Choose(a, false)
  {
    DigitRunAppend(a, b);
    PrefixIsStable(a, b);
    assert DigitRun(a) < |a| ==> (a + b)[DigitRun(a)] == a[DigitRun(a)];
    assert (a + b)[0] == a[0];
  }

  /** A buffer too long to stay undecided is too long for every later reading. */
  lemma UndecidedTooLong(a: bytes, b: bytes, max: nat)
    requires a != [] && Choose(a, false) == Unset && |a| > max + MAX_PREFIX
    ensures Step(INIT, a + b, false, max) == Raised
  {
    DigitRunAppend(a, b);
    PrefixIsStable(a, b);
    hide DigitRun, OctetScan;
    assert [] + (a + b) == a + b;
    if Choose(a + b, false) == Newline && LF in a + b {
      FirstLFBeyond(a, b);
    }
  }

  lemma StepIsScan(mode: Mode, buffer: bytes, chunk: bytes, max: nat)
    ensures Step(State(buffer, mode), chunk, false, max) == Step(State([], mode), buffer + chunk, false, max)
  {
    assert [] + (buffer + chunk) == buffer + chunk;
  }

  /** A decided stream may be scanned in two instalments. */
  lemma TwoStepsDecided(mode: Mode, a: bytes, b: bytes, max: nat)
    requires mode != Unset
    ensures Step(State([], mode), a + b, false, max) == AndThen(Step(State([], mode), a, false, max), b, max)
  {
    assert [] + a == a && [] + (a + b) == a + b;
    if mode == Octet {
      OctetScanResumes(a, b, max);
    } else {
      LineScanResumes(a, b, max);
    }
  }

  /** The outcome of one call, continued by a call with `chunk`. */
  function AndThen(o: Outcome, chunk: bytes, max: nat): Outcome {
    match o
    case Raised => Raised
    case Fed(frames, s) => Then(frames, Step(s, chunk, false, max))
  }

  lemma TwoSteps(mode: Mode, a: bytes, b: bytes, max: nat)
    ensures Step(State([], mode), a + b, false, max) == AndThen(Step(State([], mode), a, false, max), b, max)
  {
    assert [] + a == a && [] + (a + b) == a + b;
    if mode != Unset {
      TwoStepsDecided(mode, a, b, max);
    } else if a == [] {
      assert a + b == b;
      ThenNothing(Step(INIT, b, false, max));
    } else if Choose(a, false) != Unset {
      ChoiceIsStable(a, b);
      TwoStepsDecided(Choose(a, false), a, b, max);
    } else if |a| > max + MAX_PREFIX {
      UndecidedTooLong(a, b, max);
    } else {
      ThenNothing(Step(State(a, Unset), b, false, max));
    }
  }

  lemma ThenNothing(o: Outcome)
    ensures Then([], o) == o
  {
    if o.Fed? { assert [] + o.frames == o.frames; }
  }

  /** What one call may leave behind. */
  predicate Settled(s: State, max: nat) {
    Step(State([], s.mode), s.buffer, false, max) == Fed([], s)
  }

  lemma {:induction false} OctetResidue(a: bytes, max: nat)
    ensures var s := OctetScan(a, max);
            s.Good? ==> OctetScan(s.rest, max) == Good([], s.rest) && |s.rest| <= max + MAX_PREFIX
    decreases |a|
  {
    if HasCount(a) && BodySize(a) <= max && BodyStart(a) + BodySize(a) <= |a| {
      OctetResidue(a[BodyStart(a) + BodySize(a)..], max);
    }
  }

  lemma {:induction false} LineResidue(a: bytes, max: nat)
    ensures var s := LineScan(a, max);
            s.Good? ==> LF !in s.rest && |s.rest| <= max
    decreases |a|
  {
    if LF in a {
      LineResidue(a[FirstLF(a) + 1..], max);
    }
  }

  /** Between calls the framer holds a fixed point of the scan, of bounded size. */
  lemma StepSettles(s: State, chunk: bytes, max: nat)
    ensures var o := Step(s, chunk, false, max);
            o.Fed? ==> Settled(o.state, max) && |o.state.buffer| <= max + MAX_PREFIX
  {
    var a := s.buffer + chunk;
    OctetResidue(a, max);
    LineResidue(a, max);
    var o := Step(s, chunk, false, max);
    if o.Fed? {
      assert [] + o.state.buffer == o.state.buffer;
    }
  }

  lemma {:induction false} ChunksAreOneStep(s: State, chunks: seq<bytes>, max: nat)
    requires Settled(s, max)
    ensures FeedAll(s, chunks, max) == Step(s, Flatten(chunks), false, max)
    decreases |chunks|
  {
    hide Step;
    if chunks == [] {
      StepIsScan(s.mode, s.buffer, [], max);
      assert s.buffer + [] == s.buffer;
    } else {
      var a, b := chunks[0], Flatten(chunks[1..]);
      StepIsScan(s.mode, s.buffer, a, max);
      StepIsScan(s.mode, s.buffer, a + b, max);
      assert s.buffer + (a + b) == (s.buffer + a) + b;
      TwoSteps(s.mode, s.buffer + a, b, max);
      match Step(s, a, false, max)
      case Raised =>
      case Fed(frames, s') =>
        StepSettles(s, a, max);
        ChunksAreOneStep(s', chunks[1..], max);
    }
  }

  /** Chunk independence: the cut points of the stream cannot be observed, neither in
      the frames and the state that remains nor in whether an error is raised. */
  lemma ChunkIndependence(chunks: seq<bytes>, max: nat)
    ensures FeedAll(INIT, chunks, max) == Step(INIT, Flatten(chunks), false, max)
  {
    assert [] + [] == INIT.buffer;
    ChunksAreOneStep(INIT, chunks, max);
  }

  lemma SameStreamSameOutcome(chunks: seq<bytes>, others: seq<bytes>, max: nat)
    requires Flatten(chunks) == Flatten(others)
    ensures FeedAll(INIT, chunks, max) == FeedAll(INIT, others, max)
  {
    ChunkIndependence(chunks, max);
    ChunkIndependence(others, max);
  }

  /** Whatever was received, between calls at most `max + 11` bytes are held. */
  lemma {:induction false} BufferBound(chunks: seq<bytes>, max: nat)
    ensures var o := FeedAll(INIT, chunks, max);
            o.Fed? ==> |o.state.buffer| <= max + 11
  {
    ChunkIndependence(chunks, max);
    StepSettles(INIT, Flatten(chunks), max);
  }

  /** A whole connection: its chunks and then the end of the stream. */
  function Session(chunks: seq<bytes>, max: nat): Outcome {
    match FeedAll(INIT, chunks, max)
    case Raised => Raised
    case Fed(frames, s) => Then(frames, Step(s, [], true, max))
  }

  lemma EndAfterScan(mode: Mode, s: Scan, max: nat)
    requires mode != Unset
    requires s.Good? ==> Settled(State(s.rest, mode), max)
    ensures Finish(s, mode, true) ==
            match Finish(s, mode, false)
            case Raised => Raised
            case Fed(frames, t) => Then(frames, Step(t, [], true, max))
  {
    if s.Good? {
      assert [] + s.rest == s.rest && s.rest + [] == s.rest;
      assert s.frames + [] == s.frames && [] + [s.rest] == [s.rest];
    }
  }

  lemma EndAfterStep(chunk: bytes, max: nat)
    ensures Step(INIT, chunk, true, max) ==
            match Step(INIT, chunk, false, max)
            case Raised => Raised
            case Fed(frames, s) => Then(frames, Step(s, [], true, max))
  {
    assert [] + chunk == chunk && chunk + [] == chunk;
    StepSettles(INIT, chunk, max);
    match Select(State(chunk, Unset), false)
    case Octet => EndAfterScan(Octet, OctetScan(chunk, max), max);
    case Newline => EndAfterScan(Newline, LineScan(chunk, max), max);
    case Unset =>
      ThenNothing(Step(State(chunk, Unset), [], true, max));
  }

  /** The end of the stream is chunk-independent too. */
  lemma SessionIndependence(chunks: seq<bytes>, max: nat)
    ensures Session(chunks, max) == Step(INIT, Flatten(chunks), true, max)
  {
    ChunkIndependence(chunks, max);
    EndAfterStep(Flatten(chunks), max);
  }
}
