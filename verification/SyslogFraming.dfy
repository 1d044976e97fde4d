/**
 RFC 6587 / newline framing of a TCP syslog stream: the incremental receiver
 (listener.py, `_SyslogTCPFramer`).  `Step` specifies one call of `feed`; the class
 `Framer` carries the mutable buffer and mode and is proved against it.
 */
module SyslogFraming {

  type byte = b: int | 0 <= b < 256
  type bytes = seq<byte>

  const LF: byte := 10
  const SPACE: byte := 32
  const ZERO: byte := 48

  /** `[1-9][0-9]{0,9}` and the space behind it occupy at most this many bytes. */
  const MAX_PREFIX := 11

  predicate IsDigit(b: byte) { 48 <= b <= 57 }

  /** A frame that `bytes.strip()` would empty. */
  predicate Blank(frame: bytes) {
    forall b | b in frame :: b == SPACE || 9 <= b <= 13
  }

  function NonBlank(frames: seq<bytes>): seq<bytes> {
    if frames == [] then []
    else (if Blank(frames[0]) then [] else [frames[0]]) + NonBlank(frames[1..])
  }

  // ---- The octet-count prefix -------------------------------------------

  function DigitRun(s: bytes): (n: nat)
    ensures n <= |s|
    ensures forall i | 0 <= i < n :: IsDigit(s[i])
    ensures n < |s| ==> !IsDigit(s[n])
  {
    if s == [] || !IsDigit(s[0]) then 0 else 1 + DigitRun(s[1..])
  }

  predicate AllDigits(s: bytes) { forall i | 0 <= i < |s| :: IsDigit(s[i]) }

  function Value(digits: bytes): nat
    requires AllDigits(digits)
  {
    if digits == [] then 0
    else 10 * Value(digits[..|digits| - 1]) + (digits[|digits| - 1] - ZERO)
  }

  /** The buffer matches `^([1-9][0-9]{0,9}) `. */
  predicate HasCount(buffer: bytes) {
    var n := DigitRun(buffer);
    1 <= n < |buffer| && n < MAX_PREFIX && buffer[0] != ZERO && buffer[n] == SPACE
  }

  function BodyStart(buffer: bytes): nat { DigitRun(buffer) + 1 }

  function BodySize(buffer: bytes): nat { Value(buffer[..DigitRun(buffer)]) }

  // ---- One call of feed, as a function -----------------------------------

  datatype Mode = Unset | Octet | Newline

  datatype State = State(buffer: bytes, mode: Mode)

  /** Either the call raised a framing error, or it returned frames. */
  datatype Outcome = Raised | Fed(frames: seq<bytes>, state: State)

  const INIT := State([], Unset)

  /** Mode choice for a non-empty buffer.  The text before the first space is a
      short run of digits exactly when the digit run ends at a space or at the end. */
  function Choose(buffer: bytes, eof: bool): Mode
    requires buffer != []
  {
    var n := DigitRun(buffer);
    if HasCount(buffer) then Octet
    else if 1 <= n < MAX_PREFIX && (n == |buffer| || buffer[n] == SPACE) && LF !in buffer && !eof then Unset
    else Newline
  }

  function Select(s: State, eof: bool): Mode {
    if s.mode == Unset && s.buffer != [] then Choose(s.buffer, eof) else s.mode
  }

  datatype Scan = Bad | Good(frames: seq<bytes>, rest: bytes)

  function Keep(frame: bytes): seq<bytes> { if Blank(frame) then [] else [frame] }

  function Prepend(frames: seq<bytes>, s: Scan): Scan {
    match s
    case Bad => Bad
    case Good(more, rest) => Good(frames + more, rest)
  }

  function OctetScan(buffer: bytes, max: nat): Scan
    decreases |buffer|
  {
    if buffer == [] then Good([], [])
    else if !HasCount(buffer) then if |buffer| > MAX_PREFIX then Bad else Good([], buffer)
    else
      var start, size := BodyStart(buffer), BodySize(buffer);
      if size > max then Bad
      else if |buffer| < start + size then Good([], buffer)
      else Prepend(Keep(buffer[start..start + size]), OctetScan(buffer[start + size..], max))
  }

  function FirstLF(buffer: bytes): (i: nat)
    requires LF in buffer
    ensures i < |buffer| && buffer[i] == LF && LF !in buffer[..i]
  {
    if buffer[0] == LF then 0 else 1 + FirstLF(buffer[1..])
  }

  function LineScan(buffer: bytes, max: nat): Scan
    decreases |buffer|
  {
    if LF !in buffer then if |buffer| > max then Bad else Good([], buffer)
    else
      var i := FirstLF(buffer);
      if i > max then Bad else Prepend(Keep(buffer[..i]), LineScan(buffer[i + 1..], max))
  }

  /** What the end of the stream does to the scanned residue. */
  function Finish(s: Scan, mode: Mode, eof: bool): Outcome {
    match s
    case Bad => Raised
    case Good(frames, rest) =>
      if !eof then Fed(frames, State(rest, mode))
      else if mode == Octet then if rest != [] then Raised else Fed(frames, State([], mode))
      else if Blank(rest) then Fed(frames, State(rest, mode))
      else Fed(frames + [rest], State([], mode))
  }

  function Step(s: State, chunk: bytes, eof: bool, max: nat): Outcome {
    var buffer := s.buffer + chunk;
    var mode := Select(State(buffer, s.mode), eof);
    match mode
    case Octet => Finish(OctetScan(buffer, max), Octet, eof)
    case Newline => Finish(LineScan(buffer, max), Newline, eof)
    case Unset => if |buffer| > max + MAX_PREFIX then Raised else Fed([], State(buffer, Unset))
  }

  lemma BodyBehindCount(buffer: bytes)
    ensures BodyStart(buffer) >= 1
  {
  }

  // ---- The framer object -------------------------------------------------

  datatype Frames = FramingError | Frames(frames: seq<bytes>)

  class Framer {
    const maxFrameBytes: nat
    var buffer: bytes
    var mode: Mode

    function View(): State reads this { State(buffer, mode) }

    constructor (max: nat)
      requires max >= 1
      ensures maxFrameBytes == max && View() == INIT
    {
      maxFrameBytes := max;
      buffer := [];
      mode := Unset;
    }

    method SelectMode(eof: bool)
      modifies this`mode
      ensures mode == Select(old(View()), eof)
    {
      if mode != Unset || buffer == [] {
        return;
      }
      if HasCount(buffer) {
        mode := Octet;
        return;
      }
      if IsDigit(buffer[0]) && LF !in buffer {
        var n := DigitRun(buffer);
        if (n == |buffer| || buffer[n] == SPACE) && n < MAX_PREFIX && !eof {
          return;
        }
      }
      mode := Newline;
    }

    /** The octet-counting loop of `feed`. */
    method FeedOctet(eof: bool) returns (r: Frames)
      requires mode == Octet
      modifies this`buffer
      ensures r.FramingError? <==> Finish(OctetScan(old(buffer), maxFrameBytes), Octet, eof) == Raised
      ensures r.Frames? ==> Finish(OctetScan(old(buffer), maxFrameBytes), Octet, eof) == Fed(r.frames, View())
    {
      hide OctetScan, DigitRun, Value, Blank, HasCount, BodyStart, BodySize;
      var frames: seq<bytes> := [];
      ghost var whole := OctetScan(buffer, maxFrameBytes);
      PrependNothing(whole);
      OctetScanStops(buffer, maxFrameBytes);
      while buffer != []
        invariant buffer == [] ==> OctetScan(buffer, maxFrameBytes) == Good([], [])
        invariant whole == Prepend(frames, OctetScan(buffer, maxFrameBytes))
        decreases |buffer|
      {
        OctetScanStops(buffer, maxFrameBytes);
        if !HasCount(buffer) {
          if eof || |buffer| > MAX_PREFIX { return FramingError; }
          break;
        }
        var size := BodySize(buffer);
        if size > maxFrameBytes { return FramingError; }
        var start := BodyStart(buffer);
        var end := start + size;
        if |buffer| < end {
          if eof { return FramingError; }
          break;
        }
        OctetScanUnfolds(buffer, maxFrameBytes);
        BodyBehindCount(buffer);
        PrependTwice(frames, Keep(buffer[start..end]), OctetScan(buffer[end..], maxFrameBytes));
        var frame := buffer[start..end];
        frames := frames + Keep(frame);
        buffer := buffer[end..];
        OctetScanStops(buffer, maxFrameBytes);
      }
      return Frames(frames);
    }

    /** The newline loop of `feed`. */
    method FeedNewline(eof: bool) returns (r: Frames)
      requires mode == Newline
      modifies this`buffer
      ensures r.FramingError? <==> Finish(LineScan(old(buffer), maxFrameBytes), Newline, eof) == Raised
      ensures r.Frames? ==> Finish(LineScan(old(buffer), maxFrameBytes), Newline, eof) == Fed(r.frames, View())
    {
      hide LineScan, Blank;
      var frames: seq<bytes> := [];
      ghost var whole := LineScan(buffer, maxFrameBytes);
      PrependNothing(whole);
      while LF in buffer
        invariant whole == Prepend(frames, LineScan(buffer, maxFrameBytes))
        decreases |buffer|
      {
        var i := FirstLF(buffer);
        var frame := buffer[..i];
        LineScanUnfolds(buffer, maxFrameBytes);
        if |frame| > maxFrameBytes { return FramingError; }
        PrependTwice(frames, Keep(frame), LineScan(buffer[i + 1..], maxFrameBytes));
        frames := frames + Keep(frame);
        buffer := buffer[i + 1..];
      }
      LineScanUnfolds(buffer, maxFrameBytes);
      if |buffer| > maxFrameBytes { return FramingError; }
      if eof && !Blank(buffer) {
        frames := frames + [buffer];
        buffer := [];
      }
      return Frames(frames);
    }

    /** One `feed`.  A raised error ends the connection, so nothing is promised about
        the state it leaves behind. */
    method Feed(chunk: bytes, eof: bool) returns (r: Frames)
      modifies this
      ensures r.FramingError? <==> Step(old(View()), chunk, eof, maxFrameBytes) == Raised
      ensures r.Frames? ==> Step(old(View()), chunk, eof, maxFrameBytes) == Fed(r.frames, View())
    {
      buffer := buffer + chunk;
      SelectMode(eof);
      if mode == Octet {
        r := FeedOctet(eof);
      } else if mode == Newline {
        r := FeedNewline(eof);
      } else {
        // At end of stream only an empty buffer is still undecided.
        r := if |buffer| > maxFrameBytes + MAX_PREFIX then FramingError else Frames([]);
      }
    }
  }

  lemma PrependNothing(s: Scan)
    ensures Prepend([], s) == s
  {
    if s.Good? { assert [] + s.frames == s.frames; }
  }

  lemma PrependTwice(a: seq<bytes>, b: seq<bytes>, s: Scan)
    ensures Prepend(a, Prepend(b, s)) == Prepend(a + b, s)
  {
    if s.Good? {
      assert a + (b + s.frames) == (a + b) + s.frames;
    }
  }

  lemma OctetScanStops(buffer: bytes, max: nat)
    ensures buffer == [] ==> OctetScan(buffer, max) == Good([], [])
    ensures buffer != [] && !HasCount(buffer) ==>
              OctetScan(buffer, max) == if |buffer| > MAX_PREFIX then Bad else Good([], buffer)
    ensures HasCount(buffer) && BodySize(buffer) > max ==> OctetScan(buffer, max) == Bad
    ensures HasCount(buffer) && BodySize(buffer) <= max && |buffer| < BodyStart(buffer) + BodySize(buffer) ==>
              OctetScan(buffer, max) == Good([], buffer)
  {
    hide DigitRun, Value;
  }

  lemma OctetScanUnfolds(buffer: bytes, max: nat)
    requires HasCount(buffer) && BodySize(buffer) <= max && BodyStart(buffer) + BodySize(buffer) <= |buffer|
    ensures var start, end := BodyStart(buffer), BodyStart(buffer) + BodySize(buffer);
            OctetScan(buffer, max) == Prepend(Keep(buffer[start..end]), OctetScan(buffer[end..], max))
  {
    hide DigitRun, Value, Keep;
  }

  lemma LineScanUnfolds(buffer: bytes, max: nat)
    ensures LF !in buffer ==> LineScan(buffer, max) == if |buffer| > max then Bad else Good([], buffer)
    ensures LF in buffer ==>
      var i := FirstLF(buffer);
      LineScan(buffer, max) == if i > max then Bad else Prepend(Keep(buffer[..i]), LineScan(buffer[i + 1..], max))
  {
    hide FirstLF, Keep;
  }
}
