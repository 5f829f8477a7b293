/**
 * The protocol between the Java mod and the Python server: frames of [length: 4] [type: 1] [payload],
 * and the payloads each side writes for the other. Python packs and unpacks unsigned words, Java signed
 * ones. Strings stand for their UTF-8 bytes; Python raises on bytes that are none.
 */
module ModProtocol {
  import opened Bytes
  import opened Utf8

  const SERVER_LIST: byte := 0x03
  const CONNECT_RESPONSE: byte := 0x05
  const ERROR: byte := 0x07

  const MAX_LENGTH: nat := 65536

  predicate KnownType(t: byte) { 0x01 <= t <= 0x08 }

  datatype Frame = Frame(kind: byte, payload: bytes)

  datatype Side = Python | Java

  /** Why a read loop ended; Crashed is an exception other than end of stream. */
  datatype Stop = EndOfStream | TooLarge | Crashed

  datatype Parsed = Parsed(frames: seq<Frame>, used: nat, stop: Stop)

  predicate InInt32(v: int) { -0x8000_0000 <= v < 0x8000_0000 }

  /** The word of a Java int, and the int of a word. */
  function Unsigned(v: int): int {
    if v < 0 then v + 0x1_0000_0000 else v
  }

  function Signed(w: nat): int {
    if w < 0x8000_0000 then w else w - 0x1_0000_0000
  }

  // ---------------------------------------------------------------- frames

  /** `send_packet` and `sendPacket`; None is the `struct.error` of a length outside 32 bits. */
  function EncodeFrame(f: Frame): Option<bytes> {
    if InU32(1 + |f.payload|) then Some(FrameBytes(f)) else None
  }

  function FrameBytes(f: Frame): bytes {
    PutU32(1 + |f.payload|) + [f.kind] + f.payload
  }

  function Prepend(fs: seq<Frame>, rest: Parsed): Parsed {
    rest.(frames := fs + rest.frames)
  }

  /** The payload bytes announced by a length word, or None where Java's `new byte[length - 1]` throws. */
  function PayloadSize(side: Side, w: nat): Option<nat> {
    match side
    case Python => Some(if w > 0 then w - 1 else 0)
    case Java => if Signed(w) > 0 then Some(w - 1) else None
  }

  predicate Oversize(side: Side, w: nat) {
    match side case Python => w > MAX_LENGTH case Java => Signed(w) > MAX_LENGTH
  }

  /** Which frames a side's handlers get through; an exception out of one ends the loop. */
  type Handlers = Frame -> bool

  /** A frame is handed on, and the loop goes on if its handler returns. */
  function HandOn(handles: Handlers, f: Frame, end: nat, rest: Parsed): Parsed {
    if handles(f) then Prepend([f], rest) else Parsed([f], end, Crashed)
  }

  /** Python looks at the type before it reads the payload, Java after. */
  function Frames(side: Side, handles: Handlers, input: bytes, pos: nat): Parsed
    requires pos <= |input|
    decreases |input| - pos
  {
    if pos + 4 > |input| then Parsed([], pos, EndOfStream)
    else
      var w := GetU32(input[pos..pos + 4]);
      if Oversize(side, w) then Parsed([], pos, TooLarge)
      else if pos + 5 > |input| then Parsed([], pos, EndOfStream)
      else
        var kind := input[pos + 4];
        if side == Python && !KnownType(kind) then Parsed([], pos, Crashed)
        else match PayloadSize(side, w)
          case None => Parsed([], pos, Crashed)
          case Some(n) =>
            var end := pos + 5 + n;
            if end > |input| then Parsed([], pos, EndOfStream)
            else if !KnownType(kind) then Parsed([], pos, Crashed)
            else HandOn(handles, Frame(kind, input[pos + 5..end]), end, Frames(side, handles, input, end))
  }

  /** One turn of the loop of `_handle_client`, up to the call of the packet's handler. */
  method ReadFramePython(input: bytes, pos: nat, ghost handles: Handlers)
    returns (frame: Option<Frame>, end: nat, stop: Stop)
    requires pos <= |input|
    ensures frame.Some? ==> pos < end <= |input| &&
                            Frames(Python, handles, input, pos) ==
                            HandOn(handles, frame.value, end, Frames(Python, handles, input, end))
    ensures frame.None? ==> Frames(Python, handles, input, pos) == Parsed([], pos, stop)
  {
    frame, end, stop := None, pos, EndOfStream;
    if pos + 4 > |input| {
      return;
    }
    var total := GetU32(input[pos..pos + 4]);
    if total > MAX_LENGTH {
      stop := TooLarge;
      return;
    }
    if pos + 5 > |input| {
      return;
    }
    var kind := input[pos + 4];
    if !KnownType(kind) {
      stop := Crashed;
      return;
    }
    var size := total - 1;
    end := pos + 5;
    if size > 0 {
      if end + size > |input| {
        return;
      }
      end := end + size;
    }
    frame := Some(Frame(kind, input[pos + 5..end]));
    WholeFrame(input, pos, handles, end);
  }

  lemma WholeFrame(input: bytes, pos: nat, handles: Handlers, end: nat)
    requires pos + 5 <= end <= |input| && KnownType(input[pos + 4])
    requires var w := GetU32(input[pos..pos + 4]); w <= MAX_LENGTH && end == pos + 5 + if w > 0 then w - 1 else 0
    ensures Frames(Python, handles, input, pos) ==
            HandOn(handles, Frame(input[pos + 4], input[pos + 5..end]), end, Frames(Python, handles, input, end))
  {
  }

  /** One turn of `readLoop`, up to the handler. */
  method ReadFrameJava(input: bytes, pos: nat, ghost handles: Handlers)
    returns (frame: Option<Frame>, end: nat, stop: Stop)
    requires pos <= |input|
    ensures frame.Some? ==> pos < end <= |input| &&
                            Frames(Java, handles, input, pos) ==
                            HandOn(handles, frame.value, end, Frames(Java, handles, input, end))
    ensures frame.None? ==> Frames(Java, handles, input, pos) == Parsed([], pos, stop)
  {
    frame, end, stop := None, pos, EndOfStream;
    if pos + 4 > |input| {
      return;
    }
    var length := Signed(GetU32(input[pos..pos + 4]));
    if length > MAX_LENGTH {
      stop := TooLarge;
      return;
    }
    if pos + 5 > |input| {
      return;
    }
    if length - 1 < 0 {
      stop := Crashed;
      return;
    }
    end := pos + 5 + (length - 1);
    if end > |input| {
      return;
    }
    if !KnownType(input[pos + 4]) {
      stop := Crashed;
      return;
    }
    frame := Some(Frame(input[pos + 4], input[pos + 5..end]));
  }

  /** A read loop over the whole of a stream: the frames it hands on, in order. */
  method ReadLoop(side: Side, handles: Handlers, input: bytes) returns (frames: seq<Frame>, used: nat, stop: Stop)
    ensures Parsed(frames, used, stop) == Frames(side, handles, input, 0)
  {
    frames, used := [], 0;
    while true
      invariant used <= |input| &&
                Frames(side, handles, input, 0) == Prepend(frames, Frames(side, handles, input, used))
      decreases |input| - used
    {
      var frame, end, ending;
      if side == Python {
        frame, end, ending := ReadFramePython(input, used, handles);
      } else {
        frame, end, ending := ReadFrameJava(input, used, handles);
      }
      if frame.None? {
        stop := ending;
        PrependNone(frames, used, stop);
        break;
      }
      if !handles(frame.value) {
        frames, used, stop := frames + [frame.value], end, Crashed;
        break;
      }
      PrependTwice(frames, frame.value, Frames(side, handles, input, end));
      frames := frames + [frame.value];
      used := end;
    }
  }

  lemma PrependNone(fs: seq<Frame>, used: nat, stop: Stop)
    ensures Prepend(fs, Parsed([], used, stop)) == Parsed(fs, used, stop)
  {
    assert fs + [] == fs;
  }

  lemma PrependTwice(fs: seq<Frame>, f: Frame, rest: Parsed)
    ensures Prepend(fs, Prepend([f], rest)) == Prepend(fs + [f], rest)
  {
    assert fs + ([f] + rest.frames) == fs + [f] + rest.frames;
  }

  function EncodeFrames(fs: seq<Frame>): bytes {
    ConcatMap(FrameBytes, fs)
  }

  predicate Small(f: Frame) { |f.payload| < MAX_LENGTH }

  /** How many frames at the front are below the size limit and handled without an exception. */
  function LeadingHandled(fs: seq<Frame>, handles: Handlers): (k: nat)
    ensures k <= |fs| && (k < |fs| ==> !(Small(fs[k]) && handles(fs[k])))
    ensures forall i :: 0 <= i < k ==> Small(fs[i]) && handles(fs[i])
  {
    if fs == [] || !Small(fs[0]) || !handles(fs[0]) then 0 else 1 + LeadingHandled(fs[1..], handles)
  }

  /**
   * What a loop has made of frames of which not all get through: it hands on those before the first one that does
   * not, and that one too if it is its handler that throws; it has used their bytes and no more.
   */
  function Stopped(fs: seq<Frame>, k: nat, pos: nat, encode: Frame -> bytes): Parsed
    requires k < |fs|
  {
    if |fs[k].payload| < 65536 then Parsed(fs[..k + 1], pos + |ConcatMap(encode, fs[..k + 1])|, Crashed)
    else Parsed(fs[..k], pos + |ConcatMap(encode, fs[..k])|, TooLarge)
  }

  lemma TakeFrame(input: bytes, pos: nat, f: Frame, rest: bytes)
    requires InU32(1 + |f.payload|) && pos <= |input| && input[pos..] == FrameBytes(f) + rest
    ensures var end := pos + 5 + |f.payload|;
            end <= |input| && GetU32(input[pos..pos + 4]) == 1 + |f.payload| && input[pos + 4] == f.kind &&
            input[pos + 5..end] == f.payload && input[end..] == rest
  {
    var tail := input[pos..];
    var end := pos + 5 + |f.payload|;
    U32RoundTrip(1 + |f.payload|);
    assert input[pos..pos + 4] == tail[..4] == PutU32(1 + |f.payload|);
    assert input[pos + 4] == tail[4] == f.kind;
    assert input[pos + 5..end] == tail[5..5 + |f.payload|] == f.payload;
    assert input[end..] == tail[5 + |f.payload|..] == rest;
  }

  lemma FrameStep(side: Side, handles: Handlers, input: bytes, pos: nat, f: Frame)
    requires KnownType(f.kind) && 1 + |f.payload| < 0x8000_0000 && pos + 5 + |f.payload| <= |input|
    requires GetU32(input[pos..pos + 4]) == 1 + |f.payload| && input[pos + 4] == f.kind
    requires input[pos + 5..pos + 5 + |f.payload|] == f.payload
    ensures var end := pos + 5 + |f.payload|;
            Frames(side, handles, input, pos) ==
            if Small(f) then HandOn(handles, f, end, Frames(side, handles, input, end)) else Parsed([], pos, TooLarge)
  {
  }

  /** `run` is Frames, and below `encode` is FrameBytes, under a name that proofs need not look behind. */
  ghost predicate IsFrames(run: nat -> Parsed, side: Side, handles: Handlers, input: bytes) {
    forall p: nat {:trigger Frames(side, handles, input, p)} ::
      p <= |input| ==> run(p) == Frames(side, handles, input, p)
  }

  lemma NoFrame(side: Side, handles: Handlers, input: bytes, run: nat -> Parsed)
    requires IsFrames(run, side, handles, input)
    ensures run(|input|) == Parsed([], |input|, EndOfStream)
  {
    assert run(|input|) == Frames(side, handles, input, |input|);
  }

  ghost predicate IsFrameBytes(encode: Frame -> bytes) {
    forall f {:trigger FrameBytes(f)} :: encode(f) == FrameBytes(f)
  }

  lemma NextFrame(side: Side, handles: Handlers, input: bytes, pos: nat, f: Frame, rest: bytes,
                  run: nat -> Parsed, encode: Frame -> bytes)
    requires IsFrames(run, side, handles, input)
    requires IsFrameBytes(encode)
    requires KnownType(f.kind) && 1 + |f.payload| < 0x8000_0000 && pos <= |input| && input[pos..] == encode(f) + rest
    ensures var end := pos + 5 + |f.payload|;
            end <= |input| && input[end..] == rest &&
            run(pos) == if Small(f) then HandOn(handles, f, end, run(end)) else Parsed([], pos, TooLarge)
  {
    assert encode(f) == FrameBytes(f);
    TakeFrame(input, pos, f, rest);
    FrameStep(side, handles, input, pos, f);
  }

  /** What a loop makes of the encodings of these frames, frame by frame, and of what stands behind them. */
  ghost function Expected(handles: Handlers, fs: seq<Frame>, pos: nat, last: Parsed): Parsed {
    if fs == [] then last
    else if !Small(fs[0]) then Parsed([], pos, TooLarge)
    else
      var end := pos + 5 + |fs[0].payload|;
      HandOn(handles, fs[0], end, Expected(handles, fs[1..], end, last))
  }

  lemma {:induction false} FramesOf(side: Side, handles: Handlers, input: bytes, pos: nat, fs: seq<Frame>, tail: bytes,
                                    run: nat -> Parsed, encode: Frame -> bytes)
    requires IsFrames(run, side, handles, input)
    requires IsFrameBytes(encode)
    requires forall f :: f in fs ==> KnownType(f.kind) && 1 + |f.payload| < 0x8000_0000
    requires pos <= |input| && input[pos..] == ConcatMap(encode, fs) + tail
    ensures run(pos) == Expected(handles, fs, pos, run(|input| - |tail|))
    decreases |fs|
  {
    if fs != [] {
      var f, rest := fs[0], fs[1..];
      assert ConcatMap(encode, fs) + tail == encode(f) + (ConcatMap(encode, rest) + tail);
      NextFrame(side, handles, input, pos, f, ConcatMap(encode, rest) + tail, run, encode);
      FramesOf(side, handles, input, pos + 5 + |f.payload|, rest, tail, run, encode);
    }
  }

  predicate GetsThrough(handles: Handlers, f: Frame) {
    Small(f) && handles(f)
  }

  lemma {:induction false} AllThrough(handles: Handlers, fs: seq<Frame>, pos: nat, last: Parsed)
    requires forall i :: 0 <= i < |fs| ==> GetsThrough(handles, fs[i])
    ensures Expected(handles, fs, pos, last) == Prepend(fs, last)
    decreases |fs|
  {
    if fs == [] {
      assert [] + last.frames == last.frames;
    } else {
      AllThrough(handles, fs[1..], pos + 5 + |fs[0].payload|, last);
      assert GetsThrough(handles, fs[0]);
      assert [fs[0]] + (fs[1..] + last.frames) == fs + last.frames;
    }
  }

  lemma {:induction false} StopsAt(handles: Handlers, fs: seq<Frame>, k: nat, pos: nat, last: Parsed,
                                   encode: Frame -> bytes)
    requires forall f :: |encode(f)| == 5 + |f.payload|
    requires k < |fs| && !GetsThrough(handles, fs[k]) && forall i :: 0 <= i < k ==> GetsThrough(handles, fs[i])
    ensures Expected(handles, fs, pos, last) == Stopped(fs, k, pos, encode)
    decreases k
  {
    if k > 0 {
      assert GetsThrough(handles, fs[0]);
      StopsAt(handles, fs[1..], k - 1, pos + 5 + |fs[0].payload|, last, encode);
      StoppedCons(fs, k - 1, pos, encode);
    } else if Small(fs[0]) {
      ConcatTake(encode, fs, 0);
      assert fs[1..][..0] == [];
    }
  }

  lemma ExpectedIs(handles: Handlers, fs: seq<Frame>, pos: nat, last: Parsed, encode: Frame -> bytes)
    requires forall f :: |encode(f)| == 5 + |f.payload|
    ensures var k := LeadingHandled(fs, handles);
            Expected(handles, fs, pos, last) == if k < |fs| then Stopped(fs, k, pos, encode) else Prepend(fs, last)
  {
    var k := LeadingHandled(fs, handles);
    if k < |fs| {
      StopsAt(handles, fs, k, pos, last, encode);
    } else {
      AllThrough(handles, fs, pos, last);
    }
  }

  lemma StoppedCons(fs: seq<Frame>, k: nat, pos: nat, encode: Frame -> bytes)
    requires k + 1 < |fs|
    ensures Stopped(fs, k + 1, pos, encode) == Prepend([fs[0]], Stopped(fs[1..], k, pos + |encode(fs[0])|, encode))
  {
    ConcatTake(encode, fs, k);
    ConcatTake(encode, fs, k + 1);
  }

  lemma ConcatTake(encode: Frame -> bytes, fs: seq<Frame>, k: nat)
    requires k < |fs|
    ensures fs[..k + 1] == [fs[0]] + fs[1..][..k]
    ensures |ConcatMap(encode, fs[..k + 1])| == |encode(fs[0])| + |ConcatMap(encode, fs[1..][..k])|
  {
    TakeCons(fs, k);
  }

  lemma TakeCons(fs: seq<Frame>, k: nat)
    requires k < |fs|
    ensures fs[..k + 1][0] == fs[0] && fs[..k + 1][1..] == fs[1..][..k] && fs[..k + 1] == [fs[0]] + fs[1..][..k]
  {
  }

  /** Frames of known types that either side can announce to the other. */
  ghost predicate Framable(fs: seq<Frame>) {
    forall f :: f in fs ==> 0x01 <= f.kind <= 0x08 && 1 + |f.payload| < 0x8000_0000
  }

  lemma FramesBefore(side: Side, handles: Handlers, fs: seq<Frame>, tail: bytes)
    requires Framable(fs)
    ensures var input, k := EncodeFrames(fs) + tail, LeadingHandled(fs, handles);
            Frames(side, handles, input, 0) ==
            if k < |fs| then Stopped(fs, k, 0, FrameBytes)
            else Prepend(fs, Frames(side, handles, input, |EncodeFrames(fs)|))
  {
    var input := EncodeFrames(fs) + tail;
    var run := Running(side, handles, input);
    FramesOf(side, handles, input, 0, fs, tail, run, FrameBytes);
    ExpectedIs(handles, fs, 0, run(|EncodeFrames(fs)|), FrameBytes);
  }

  lemma Running(side: Side, handles: Handlers, input: bytes) returns (run: nat -> Parsed)
    ensures IsFrames(run, side, handles, input)
  {
    run := (p: nat) => if p <= |input| then Frames(side, handles, input, p) else Parsed([], p, EndOfStream);
  }

  /**
   * Either loop, run on the encodings of any frames of known types, hands on the same frames up to the first
   * one over the size limit, or up to and including the first whose handler throws, having used exactly their
   * bytes; all of them, to the last byte, if there is no such frame.
   */
  lemma FramesRoundTrip(side: Side, handles: Handlers, fs: seq<Frame>)
    requires Framable(fs)
    ensures var k := LeadingHandled(fs, handles);
            Frames(side, handles, EncodeFrames(fs), 0) ==
            if k < |fs| then Stopped(fs, k, 0, FrameBytes) else Parsed(fs, |EncodeFrames(fs)|, EndOfStream)
  {
    FramesBefore(side, handles, fs, []);
    assert EncodeFrames(fs) + [] == EncodeFrames(fs);
    PrependNone(fs, |EncodeFrames(fs)|, EndOfStream);
  }

  /**
   * A stream that ends after n bytes of these encodings, k frames being whole by then: the loop hands on those k and
   * nothing of the next, has used their bytes, and stops at the end of the stream, or at the length word of a next
   * frame over the limit. If one of the k does not get through, it is as if the stream had not ended.
   */
  lemma CutExactly(side: Side, handles: Handlers, fs: seq<Frame>, n: nat, k: nat)
    requires Framable(fs) && n <= |EncodeFrames(fs)|
    requires k <= |fs| && |EncodeFrames(fs[..k])| <= n && (k < |fs| ==> n < |EncodeFrames(fs[..k + 1])|)
    ensures var whole, j := |EncodeFrames(fs[..k])|, LeadingHandled(fs[..k], handles);
            Frames(side, handles, EncodeFrames(fs)[..n], 0) ==
            if j < k then Stopped(fs[..k], j, 0, FrameBytes)
            else
              var over := k < |fs| && n >= whole + 4 && |fs[k].payload| >= 65536;
              Parsed(fs[..k], whole, if over then TooLarge else EndOfStream)
  {
    var part := EncodeFrames(fs)[|EncodeFrames(fs[..k])|..n];
    var stop := BehindWhole(side, handles, fs, n, k);
    FramesBefore(side, handles, fs[..k], part);
    PrependNone(fs[..k], |EncodeFrames(fs[..k])|, stop);
  }

  lemma BehindWhole(side: Side, handles: Handlers, fs: seq<Frame>, n: nat, k: nat) returns (stop: Stop)
    requires Framable(fs) && n <= |EncodeFrames(fs)|
    requires k <= |fs| && |EncodeFrames(fs[..k])| <= n && (k < |fs| ==> n < |EncodeFrames(fs[..k + 1])|)
    ensures var whole := |EncodeFrames(fs[..k])|;
            && EncodeFrames(fs)[..n] == EncodeFrames(fs[..k]) + EncodeFrames(fs)[whole..n]
            && stop == (if k < |fs| && n >= whole + 4 && |fs[k].payload| >= 65536 then TooLarge else EndOfStream)
            && Frames(side, handles, EncodeFrames(fs)[..n], whole) == Parsed([], whole, stop)
  {
    var whole := |EncodeFrames(fs[..k])|;
    var input, part := EncodeFrames(fs)[..n], EncodeFrames(fs)[whole..n];
    SplitFrames(fs, k, FrameBytes);
    assert input == EncodeFrames(fs[..k]) + part && input[whole..] == part;
    assert part <= EncodeFrames(fs[k..]);
    if k < |fs| {
      stop := NextIsCut(side, handles, fs, n, k, input);
    } else {
      stop := EndOfStream;
    }
  }

  lemma NextIsCut(side: Side, handles: Handlers, fs: seq<Frame>, n: nat, k: nat, input: bytes) returns (stop: Stop)
    requires Framable(fs) && k < |fs| && |EncodeFrames(fs[..k])| <= n < |EncodeFrames(fs[..k + 1])|
    requires |input| == n && input[|EncodeFrames(fs[..k])|..] <= EncodeFrames(fs[k..])
    ensures var whole := |EncodeFrames(fs[..k])|;
            && stop == (if n >= whole + 4 && |fs[k].payload| >= 65536 then TooLarge else EndOfStream)
            && Frames(side, handles, input, whole) == Parsed([], whole, stop)
  {
    var whole := |EncodeFrames(fs[..k])|;
    FrameInside(fs, k, FrameBytes);
    assert input[whole..] == FrameBytes(fs[k])[..n - whole];
    PartOfFrame(side, handles, input, whole, fs[k], n - whole);
    stop := if n >= whole + 4 && |fs[k].payload| >= 65536 then TooLarge else EndOfStream;
  }

  lemma {:induction false} SplitFrames(fs: seq<Frame>, k: nat, encode: Frame -> bytes)
    requires k <= |fs|
    ensures ConcatMap(encode, fs) == ConcatMap(encode, fs[..k]) + ConcatMap(encode, fs[k..])
    decreases k
  {
    if k > 0 {
      SplitFrames(fs[1..], k - 1, encode);
      assert fs[..k][1..] == fs[1..][..k - 1] && fs[k..] == fs[1..][k - 1..];
    }
  }

  /** The bytes of frame k stand behind those of the frames before it. */
  lemma FrameInside(fs: seq<Frame>, k: nat, encode: Frame -> bytes)
    requires k < |fs|
    ensures ConcatMap(encode, fs[..k + 1]) == ConcatMap(encode, fs[..k]) + encode(fs[k])
    ensures ConcatMap(encode, fs[k..]) == encode(fs[k]) + ConcatMap(encode, fs[k + 1..])
  {
    assert fs[..k + 1] == fs[..k] + [fs[k]] && fs[k..][1..] == fs[k + 1..];
    ConcatMapSnoc(encode, fs[..k], fs[k]);
  }

  /** Less than a whole frame: nothing is handed on. */
  lemma PartOfFrame(side: Side, handles: Handlers, input: bytes, pos: nat, f: Frame, m: nat)
    requires 0x01 <= f.kind <= 0x08 && 1 + |f.payload| < 0x8000_0000 && m < 5 + |f.payload|
    requires pos <= |input| && input[pos..] == FrameBytes(f)[..m]
    ensures Frames(side, handles, input, pos) ==
            Parsed([], pos, if m >= 4 && |f.payload| >= 65536 then TooLarge else EndOfStream)
  {
    var part := FrameBytes(f)[..m];
    assert |input| == pos + m;
    if m >= 4 {
      U32RoundTrip(1 + |f.payload|);
      assert input[pos..pos + 4] == input[pos..][..4] == part[..4] == PutU32(1 + |f.payload|);
      if m >= 5 {
        assert input[pos + 4] == input[pos..][4] == part[4] == f.kind;
      }
    }
  }

  /**
   * What else can stop a loop. A type outside 1 to 8 does, once it is read (Python) or once its payload is (Java).
   * A word of 0 announces an empty payload to Python and a negative size to Java; a word from 2^31 up is too large
   * for Python and a negative size for Java.
   */
  lemma OddFrames(handles: Handlers, kind: byte, payload: bytes, rest: bytes)
    ensures |payload| < 65536 && !(0x01 <= kind <= 0x08) ==>
              var input := PutU32(1 + |payload|) + [kind] + payload + rest;
              && Frames(Python, handles, input, 0) == Parsed([], 0, Crashed)
              && Frames(Java, handles, input, 0) == Parsed([], 0, Crashed)
    ensures var input: bytes := [0, 0, 0, 0] + [kind] + rest;
            && Frames(Java, handles, input, 0) == Parsed([], 0, Crashed)
            && (0x01 <= kind <= 0x08 ==>
                  Frames(Python, handles, input, 0) ==
                  HandOn(handles, Frame(kind, []), 5, Frames(Python, handles, input, 5)))
    ensures forall w: nat {:trigger PutU32(w)} :: 0x8000_0000 <= w < 0x1_0000_0000 ==>
              var input := PutU32(w) + [kind] + rest;
              && Frames(Java, handles, input, 0) == Parsed([], 0, Crashed)
              && Frames(Python, handles, input, 0) == Parsed([], 0, TooLarge)
  {
    if |payload| < 65536 && !(0x01 <= kind <= 0x08) {
      UnknownType(Python, handles, kind, payload, rest);
      UnknownType(Java, handles, kind, payload, rest);
    }
    ZeroWord(handles, kind, rest);
    forall w: nat | 0x8000_0000 <= w < 0x1_0000_0000
      ensures Frames(Java, handles, PutU32(w) + [kind] + rest, 0) == Parsed([], 0, Crashed)
      ensures Frames(Python, handles, PutU32(w) + [kind] + rest, 0) == Parsed([], 0, TooLarge)
    {
      HighWord(handles, w, kind, rest);
    }
  }

  lemma UnknownType(side: Side, handles: Handlers, kind: byte, payload: bytes, rest: bytes)
    requires |payload| < 65536 && !(0x01 <= kind <= 0x08)
    ensures Frames(side, handles, PutU32(1 + |payload|) + [kind] + payload + rest, 0) == Parsed([], 0, Crashed)
  {
    var input := PutU32(1 + |payload|) + [kind] + payload + rest;
    U32RoundTrip(1 + |payload|);
    assert input[0..4] == PutU32(1 + |payload|) && input[4] == kind;
  }

  lemma ZeroWord(handles: Handlers, kind: byte, rest: bytes)
    ensures var input: bytes := [0, 0, 0, 0] + [kind] + rest;
            && Frames(Java, handles, input, 0) == Parsed([], 0, Crashed)
            && (0x01 <= kind <= 0x08 ==>
                  Frames(Python, handles, input, 0) ==
                  HandOn(handles, Frame(kind, []), 5, Frames(Python, handles, input, 5)))
  {
    var input: bytes := [0, 0, 0, 0] + [kind] + rest;
    assert input[0..4] == [0, 0, 0, 0] && input[4] == kind && input[5..5] == [];
    assert GetU32([0, 0, 0, 0]) == 0;
  }

  lemma HighWord(handles: Handlers, w: nat, kind: byte, rest: bytes)
    requires 0x8000_0000 <= w < 0x1_0000_0000
    ensures Frames(Java, handles, PutU32(w) + [kind] + rest, 0) == Parsed([], 0, Crashed)
    ensures Frames(Python, handles, PutU32(w) + [kind] + rest, 0) == Parsed([], 0, TooLarge)
  {
    var input := PutU32(w) + [kind] + rest;
    U32RoundTrip(w);
    assert input[0..4] == PutU32(w) && input[4] == kind;
  }

  // ---------------------------------------------------------------- words and strings

  /** A value and the offset behind it; Raised for an exception. */
  datatype Read<+T> = Raised | Got(value: T, next: nat)

  /** `struct.unpack('>I', payload[at:at+4])[0]`. */
  function PyInt(data: bytes, at: nat): Read<nat> {
    if at + 4 <= |data| then Got(GetU32(data[at..at + 4]), at + 4) else Raised
  }

  /** A length, then a slice, silently shorter when the payload ends early, that has to be text. */
  function PyString(data: bytes, at: nat): Read<bytes> {
    match PyInt(data, at)
    case Raised => Raised
    case Got(n, p) => if IsText(Slice(data, p, p + n)) then Got(Slice(data, p, p + n), p + n) else Raised
  }

  function JavaInt(data: bytes, at: nat): Read<int> {
    match PyInt(data, at)
    case Raised => Raised
    case Got(w, p) => Got(Signed(w), p)
  }

  /** `readString`: a negative length or one past the end throws. */
  function JavaString(data: bytes, at: nat): Read<bytes> {
    match JavaInt(data, at)
    case Raised => Raised
    case Got(n, p) => if 0 <= n && p + n <= |data| then Got(data[p..p + n], p + n) else Raised
  }

  function StringBytes(s: bytes): bytes {
    PutU32(|s|) + s
  }

  lemma PyIntAt(data: bytes, at: nat, v: int)
    requires InU32(v) && At(data, at, PutU32(v))
    ensures PyInt(data, at) == Got(v, at + 4)
  {
    U32RoundTrip(v);
  }

  lemma PySlice(data: bytes, at: nat, n: nat, p: nat, s: bytes)
    requires PyInt(data, at) == Got(n, p) && Slice(data, p, p + n) == s
    ensures PyString(data, at) == if IsText(s) then Got(s, p + n) else Raised
  {
  }

  lemma PyStringAt(data: bytes, at: nat, s: bytes)
    requires InU32(|s|) && IsText(s) && At(data, at, StringBytes(s))
    ensures PyString(data, at) == Got(s, at + |StringBytes(s)|)
  {
    AtSplit(data, at, PutU32(|s|), s);
    PyIntAt(data, at, |s|);
    AtSlice(data, at + 4, s);
    PySlice(data, at, |s|, at + 4, s);
  }

  lemma JavaIntAt(data: bytes, at: nat, v: int)
    requires InU32(v) && At(data, at, PutU32(v))
    ensures JavaInt(data, at) == Got(Signed(v), at + 4)
  {
    PyIntAt(data, at, v);
  }

  lemma JavaStringAt(data: bytes, at: nat, s: bytes)
    requires |s| < 0x8000_0000 && At(data, at, StringBytes(s))
    ensures JavaString(data, at) == Got(s, at + |StringBytes(s)|)
  {
    U32RoundTrip(|s|);
    AtSplit(data, at, PutU32(|s|), s);
    JavaIntAt(data, at, |s|);
  }

  /** Netty's buffer as the mod reads it: fixed bytes and a moving reader index. */
  class ByteBuf {
    const data: bytes
    var readerIndex: nat

    constructor (data: bytes)
      ensures this.data == data && readerIndex == 0
    {
      this.data := data;
      readerIndex := 0;
    }

    method ReadInt() returns (r: Option<int>)
      modifies this
      ensures match JavaInt(data, old(readerIndex))
              case Got(v, next) => r == Some(v) && readerIndex == next
              case Raised => r.None?
    {
      if readerIndex + 4 > |data| {
        return None;
      }
      r := Some(Signed(GetU32(data[readerIndex..readerIndex + 4])));
      readerIndex := readerIndex + 4;
    }

    method ReadBoolean() returns (r: Option<bool>)
      modifies this
      ensures old(readerIndex) < |data| ==>
                r == Some(data[old(readerIndex)] != 0) && readerIndex == old(readerIndex) + 1
      ensures old(readerIndex) >= |data| ==> r.None?
    {
      if readerIndex >= |data| {
        return None;
      }
      r := Some(data[readerIndex] != 0);
      readerIndex := readerIndex + 1;
    }

    method ReadString() returns (r: Option<bytes>)
      modifies this
      ensures match JavaString(data, old(readerIndex))
              case Got(v, next) => r == Some(v) && readerIndex == next
              case Raised => r.None?
    {
      var n :- ReadInt();
      if n < 0 || readerIndex + n > |data| {
        return None;
      }
      r := Some(data[readerIndex..readerIndex + n]);
      readerIndex := readerIndex + n;
    }
  }

  // ---------------------------------------------------------------- the server list, Python to Java

  /** The nine fields of `P2PServerInfo` that travel; the icon does not. */
  datatype Server = Server(
    id: bytes, name: bytes, description: bytes, host: bytes,
    port: int, latency: int, playerCount: int, maxPlayers: int, version: bytes)

  /** Every length and number fits `'>I'`; the default latency of -1 does not. */
  predicate Packable(s: Server) {
    InU32(|s.id|) && InU32(|s.name|) && InU32(|s.description|) && InU32(|s.host|) && InU32(|s.version|) &&
    InU32(s.port) && InU32(s.latency) && InU32(s.playerCount) && InU32(s.maxPlayers)
  }

  function TextBytes(s: Server): bytes {
    StringBytes(s.id) + StringBytes(s.name) + StringBytes(s.description) + StringBytes(s.host)
  }

  function NumberBytes(s: Server): bytes {
    PutU32(s.port) + PutU32(s.latency) + PutU32(s.playerCount) + PutU32(s.maxPlayers)
  }

  function ServerBytes(s: Server): bytes {
    TextBytes(s) + NumberBytes(s) + StringBytes(s.version)
  }

  predicate AllPackable(servers: seq<Server>) {
    forall i :: 0 <= i < |servers| ==> Packable(servers[i])
  }

  /** None is the caught `struct.error`: nothing is sent at all. */
  function ServerListPayload(servers: seq<Server>): Option<bytes> {
    if InU32(|servers|) && AllPackable(servers) then Some(PutU32(|servers|) + ConcatMap(ServerBytes, servers)) else None
  }

  method PackInt(v: int) returns (r: Option<bytes>)
    ensures r == if InU32(v) then Some(PutU32(v)) else None
  {
    r := if InU32(v) then Some(PutU32(v)) else None;
  }

  method PackString(s: bytes) returns (r: Option<bytes>)
    ensures r == if InU32(|s|) then Some(StringBytes(s)) else None
  {
    var size :- PackInt(|s|);
    r := Some(size + s);
  }

  method PackServer(s: Server) returns (r: Option<bytes>)
    ensures r == if Packable(s) then Some(ServerBytes(s)) else None
  {
    var id :- PackString(s.id);
    var name :- PackString(s.name);
    var description :- PackString(s.description);
    var host :- PackString(s.host);
    var port :- PackInt(s.port);
    var latency :- PackInt(s.latency);
    var players :- PackInt(s.playerCount);
    var most :- PackInt(s.maxPlayers);
    var version :- PackString(s.version);
    r := Some((id + name + description + host) + (port + latency + players + most) + version);
  }

  method PackRecord(s: Server, ghost record: Server -> bytes) returns (r: Option<bytes>)
    requires IsServerBytes(record)
    ensures r == if Packable(s) then Some(record(s)) else None
  {
    r := PackServer(s);
  }

  /** The loop over the servers; `record` is ServerBytes, which the proof need not look into. */
  method PackServers(payload: bytes, servers: seq<Server>, ghost record: Server -> bytes) returns (r: Option<bytes>)
    requires IsServerBytes(record)
    ensures r == if AllPackable(servers) then Some(payload + ConcatMap(record, servers)) else None
  {
    var longer := payload;
    for i := 0 to |servers|
      invariant forall j :: 0 <= j < i ==> Packable(servers[j])
      invariant longer == payload + ConcatMap(record, servers[..i])
    {
      var one := PackRecord(servers[i], record);
      if one.None? {
        return None;
      }
      ConcatMapSnoc(record, servers[..i], servers[i]);
      TakeSnoc(servers, i);
      longer := longer + one.value;
    }
    assert servers[..|servers|] == servers;
    r := Some(longer);
  }

  /** The payload `_send_server_list` builds. */
  method BuildServerList(servers: seq<Server>) returns (r: Option<bytes>)
    ensures r == ServerListPayload(servers)
  {
    var payload :- PackInt(|servers|);
    r := PackServers(payload, servers, ServerBytes);
  }

  /** What `_send_server_list` writes to the connection, if anything. */
  function ServerListFrame(servers: seq<Server>): Option<bytes> {
    match ServerListPayload(servers)
    case None => None
    case Some(payload) => EncodeFrame(Frame(SERVER_LIST, payload))
  }

  method SendServerList(servers: seq<Server>) returns (wire: Option<bytes>)
    ensures wire == ServerListFrame(servers)
  {
    var payload :- BuildServerList(servers);
    wire := EncodeFrame(Frame(SERVER_LIST, payload));
  }

  function FourStrings(data: bytes, at: nat): Read<(bytes, bytes, bytes, bytes)> {
    match JavaString(data, at) case Raised => Raised case Got(a, p) =>
    match JavaString(data, p) case Raised => Raised case Got(b, q) =>
    match JavaString(data, q) case Raised => Raised case Got(c, r) =>
    match JavaString(data, r) case Raised => Raised case Got(d, s) => Got((a, b, c, d), s)
  }

  function FourInts(data: bytes, at: nat): Read<(int, int, int, int)> {
    match JavaInt(data, at) case Raised => Raised case Got(a, p) =>
    match JavaInt(data, p) case Raised => Raised case Got(b, q) =>
    match JavaInt(data, q) case Raised => Raised case Got(c, r) =>
    match JavaInt(data, r) case Raised => Raised case Got(d, s) => Got((a, b, c, d), s)
  }

  function JavaServer(data: bytes, at: nat): Read<Server> {
    match FourStrings(data, at) case Raised => Raised case Got(t, p) =>
    match FourInts(data, p) case Raised => Raised case Got(n, q) =>
    match JavaString(data, q) case Raised => Raised case Got(v, r) =>
      Got(Server(t.0, t.1, t.2, t.3, n.0, n.1, n.2, n.3, v), r)
  }

  type Reader = (bytes, nat) -> Read<Server>

  function ReadMany(read: Reader, data: bytes, at: nat, count: nat): Read<seq<Server>>
    decreases count
  {
    if count == 0 then Got([], at)
    else match read(data, at)
      case Raised => Raised
      case Got(first, p) => Extend([first], ReadMany(read, data, p, count - 1))
  }

  function Extend(init: seq<Server>, rest: Read<seq<Server>>): Read<seq<Server>> {
    match rest case Raised => Raised case Got(servers, p) => Got(init + servers, p)
  }

  lemma ExtendNothing(rest: Read<seq<Server>>)
    ensures Extend([], rest) == rest
  {
    if rest.Got? {
      assert [] + rest.value == rest.value;
    }
  }

  lemma ExtendTwice(a: seq<Server>, s: Server, rest: Read<seq<Server>>)
    ensures Extend(a, Extend([s], rest)) == Extend(a + [s], rest)
  {
    if rest.Got? {
      assert a + ([s] + rest.value) == a + [s] + rest.value;
    }
  }

  /** `new ArrayList<>(count)` refuses a negative count; bytes behind the last record are not looked at. */
  function JavaServerList(data: bytes): Option<seq<Server>> {
    ListRead(JavaServer, data)
  }

  /** A count, then that many records. */
  function ListRead(read: Reader, data: bytes): Option<seq<Server>> {
    match JavaInt(data, 0)
    case Raised => None
    case Got(count, p) =>
      if count < 0 then None
      else match ReadMany(read, data, p, count) case Raised => None case Got(servers, _) => Some(servers)
  }

  method ReadStrings(buf: ByteBuf) returns (r: Option<(bytes, bytes, bytes, bytes)>)
    modifies buf
    ensures match FourStrings(buf.data, old(buf.readerIndex))
            case Got(v, next) => r == Some(v) && buf.readerIndex == next
            case Raised => r.None?
  {
    var a :- buf.ReadString();
    var b :- buf.ReadString();
    var c :- buf.ReadString();
    var d :- buf.ReadString();
    r := Some((a, b, c, d));
  }

  method ReadInts(buf: ByteBuf) returns (r: Option<(int, int, int, int)>)
    modifies buf
    ensures match FourInts(buf.data, old(buf.readerIndex))
            case Got(v, next) => r == Some(v) && buf.readerIndex == next
            case Raised => r.None?
  {
    var a :- buf.ReadInt();
    var b :- buf.ReadInt();
    var c :- buf.ReadInt();
    var d :- buf.ReadInt();
    r := Some((a, b, c, d));
  }

  /** The nine reads of one record: id, name, description, host; port, latency, players, maximum; version. */
  method ReadServer(buf: ByteBuf) returns (r: Option<Server>)
    modifies buf
    ensures match JavaServer(buf.data, old(buf.readerIndex))
            case Got(v, next) => r == Some(v) && buf.readerIndex == next
            case Raised => r.None?
  {
    var t :- ReadStrings(buf);
    var n :- ReadInts(buf);
    var version :- buf.ReadString();
    r := Some(Server(t.0, t.1, t.2, t.3, n.0, n.1, n.2, n.3, version));
  }

  /** `one` is JavaServer, which the proofs about the loop need not look into. */
  ghost predicate IsJavaServer(one: Reader) {
    forall data, at {:trigger JavaServer(data, at)} :: one(data, at) == JavaServer(data, at)
  }

  method ReadRecord(buf: ByteBuf, ghost one: Reader) returns (r: Option<Server>)
    requires IsJavaServer(one)
    modifies buf
    ensures match one(buf.data, old(buf.readerIndex))
            case Got(v, next) => r == Some(v) && buf.readerIndex == next
            case Raised => r.None?
  {
    r := ReadServer(buf);
  }

  /** The loop that fills the `ArrayList`. */
  method ReadServers(buf: ByteBuf, count: nat, ghost one: Reader) returns (r: Option<seq<Server>>)
    requires IsJavaServer(one)
    modifies buf
    ensures match ReadMany(one, buf.data, old(buf.readerIndex), count)
            case Got(v, _) => r == Some(v)
            case Raised => r.None?
  {
    var servers: seq<Server> := [];
    ghost var goal := ReadMany(one, buf.data, buf.readerIndex, count);
    ExtendNothing(goal);
    for i := 0 to count
      invariant goal == Extend(servers, ReadMany(one, buf.data, buf.readerIndex, count - i))
    {
      var info := ReadRecord(buf, one);
      if info.None? {
        return None;
      }
      ExtendTwice(servers, info.value, ReadMany(one, buf.data, buf.readerIndex, count - i - 1));
      servers := servers + [info.value];
    }
    ExtendEnd(servers, buf.readerIndex);
    r := Some(servers);
  }

  lemma ExtendEnd(servers: seq<Server>, at: nat)
    ensures Extend(servers, Got([], at)) == Got(servers, at)
  {
    assert servers + [] == servers;
  }

  /** `handleServerList`: the list handed to the callback, or None if a read throws. */
  method HandleServerList(buf: ByteBuf) returns (r: Option<seq<Server>>)
    requires buf.readerIndex == 0
    modifies buf
    ensures r == JavaServerList(buf.data)
  {
    var count :- buf.ReadInt();
    if count < 0 {
      return None;
    }
    r := ReadServers(buf, count, JavaServer);
  }

  /** The record as Java sees it: words from 2^31 up have turned negative. */
  function SeenByJava(s: Server): Server {
    s.(port := Sign(s.port), latency := Sign(s.latency),
       playerCount := Sign(s.playerCount), maxPlayers := Sign(s.maxPlayers))
  }

  function Sign(v: int): int { if v >= 0x8000_0000 then v - 0x1_0000_0000 else v }

  predicate ShortStrings(s: Server) {
    |s.id| < 0x8000_0000 && |s.name| < 0x8000_0000 && |s.description| < 0x8000_0000 &&
    |s.host| < 0x8000_0000 && |s.version| < 0x8000_0000
  }

  lemma FourStringsAt(data: bytes, at: nat, a: bytes, b: bytes, c: bytes, d: bytes)
    requires |a| < 0x8000_0000 && |b| < 0x8000_0000 && |c| < 0x8000_0000 && |d| < 0x8000_0000
    requires At(data, at, StringBytes(a) + StringBytes(b) + StringBytes(c) + StringBytes(d))
    ensures FourStrings(data, at) ==
            Got((a, b, c, d), at + |StringBytes(a)| + |StringBytes(b)| + |StringBytes(c)| + |StringBytes(d)|)
  {
    AtSplit4(data, at, StringBytes(a), StringBytes(b), StringBytes(c), StringBytes(d));
    var p, q := at + |StringBytes(a)|, at + |StringBytes(a)| + |StringBytes(b)|;
    var r := q + |StringBytes(c)|;
    JavaStringAt(data, at, a);
    JavaStringAt(data, p, b);
    JavaStringAt(data, q, c);
    JavaStringAt(data, r, d);
    FourStringsChain(data, at, p, q, r, r + |StringBytes(d)|, a, b, c, d);
  }

  lemma FourStringsChain(data: bytes, at: nat, p: nat, q: nat, r: nat, s: nat, a: bytes, b: bytes, c: bytes, d: bytes)
    requires JavaString(data, at) == Got(a, p) && JavaString(data, p) == Got(b, q)
    requires JavaString(data, q) == Got(c, r) && JavaString(data, r) == Got(d, s)
    ensures FourStrings(data, at) == Got((a, b, c, d), s)
  {
  }

  lemma FourIntsAt(data: bytes, at: nat, a: int, b: int, c: int, d: int)
    requires InU32(a) && InU32(b) && InU32(c) && InU32(d)
    requires At(data, at, PutU32(a) + PutU32(b) + PutU32(c) + PutU32(d))
    ensures FourInts(data, at) == Got((Sign(a), Sign(b), Sign(c), Sign(d)), at + 16)
  {
    AtSplit4(data, at, PutU32(a), PutU32(b), PutU32(c), PutU32(d));
    JavaIntAt(data, at, a);
    JavaIntAt(data, at + 4, b);
    JavaIntAt(data, at + 8, c);
    JavaIntAt(data, at + 12, d);
  }

  lemma TextAt(data: bytes, at: nat, s: Server)
    requires ShortStrings(s) && At(data, at, TextBytes(s))
    ensures FourStrings(data, at) == Got((s.id, s.name, s.description, s.host), at + |TextBytes(s)|)
  {
    FourStringsAt(data, at, s.id, s.name, s.description, s.host);
  }

  lemma NumbersAt(data: bytes, at: nat, s: Server)
    requires Packable(s) && At(data, at, NumberBytes(s))
    ensures FourInts(data, at) ==
            Got((Sign(s.port), Sign(s.latency), Sign(s.playerCount), Sign(s.maxPlayers)), at + |NumberBytes(s)|)
  {
    FourIntsAt(data, at, s.port, s.latency, s.playerCount, s.maxPlayers);
  }

  lemma ServerParts(data: bytes, at: nat, s: Server)
    requires Packable(s) && At(data, at, ServerBytes(s))
    ensures var p := at + |TextBytes(s)|;
            var q := p + |NumberBytes(s)|;
            At(data, at, TextBytes(s)) && At(data, p, NumberBytes(s)) && At(data, q, StringBytes(s.version)) &&
            at + |ServerBytes(s)| == q + |StringBytes(s.version)|
  {
    AtSplit3(data, at, TextBytes(s), NumberBytes(s), StringBytes(s.version));
  }

  lemma ServerChain(data: bytes, at: nat, p: nat, q: nat, r: nat, s: Server)
    requires FourStrings(data, at) == Got((s.id, s.name, s.description, s.host), p)
    requires FourInts(data, p) == Got((Sign(s.port), Sign(s.latency), Sign(s.playerCount), Sign(s.maxPlayers)), q)
    requires JavaString(data, q) == Got(s.version, r)
    ensures JavaServer(data, at) == Got(SeenByJava(s), r)
  {
  }

  function AllSeen(servers: seq<Server>): seq<Server> {
    if servers == [] then [] else [SeenByJava(servers[0])] + AllSeen(servers[1..])
  }

  ghost predicate IsServerBytes(record: Server -> bytes) {
    forall s {:trigger ServerBytes(s)} :: record(s) == ServerBytes(s)
  }

  type Texts = (bytes, bytes, bytes, bytes)
  type Numbers = (int, int, int, int)

  /** The parts of a record and their readers, which the proof of the whole need not look into. */
  datatype Parts = Parts(
    text: Server -> bytes, numbers: Server -> bytes,
    texts: (bytes, nat) -> Read<Texts>, ints: (bytes, nat) -> Read<Numbers>, last: (bytes, nat) -> Read<bytes>)

  ghost predicate AreParts(ps: Parts) {
    && (forall s {:trigger TextBytes(s)} :: ps.text(s) == TextBytes(s))
    && (forall s {:trigger NumberBytes(s)} :: ps.numbers(s) == NumberBytes(s))
    && (forall data, at: nat {:trigger FourStrings(data, at)} :: ps.texts(data, at) == FourStrings(data, at))
    && (forall data, at: nat {:trigger FourInts(data, at)} :: ps.ints(data, at) == FourInts(data, at))
    && (forall data, at: nat {:trigger JavaString(data, at)} :: ps.last(data, at) == JavaString(data, at))
  }

  lemma TextPart(data: bytes, at: nat, s: Server, ps: Parts)
    requires AreParts(ps) && ShortStrings(s) && At(data, at, ps.text(s))
    ensures ps.texts(data, at) == Got((s.id, s.name, s.description, s.host), at + |ps.text(s)|)
  {
    assert ps.text(s) == TextBytes(s) && ps.texts(data, at) == FourStrings(data, at);
    TextAt(data, at, s);
  }

  lemma NumberPart(data: bytes, at: nat, s: Server, ps: Parts)
    requires AreParts(ps) && Packable(s) && At(data, at, ps.numbers(s))
    ensures ps.ints(data, at) ==
            Got((Sign(s.port), Sign(s.latency), Sign(s.playerCount), Sign(s.maxPlayers)), at + |ps.numbers(s)|)
  {
    assert ps.numbers(s) == NumberBytes(s) && ps.ints(data, at) == FourInts(data, at);
    NumbersAt(data, at, s);
  }

  lemma VersionPart(data: bytes, at: nat, s: Server, ps: Parts)
    requires AreParts(ps) && ShortStrings(s) && At(data, at, StringBytes(s.version))
    ensures ps.last(data, at) == Got(s.version, at + |StringBytes(s.version)|)
  {
    assert ps.last(data, at) == JavaString(data, at);
    JavaStringAt(data, at, s.version);
  }

  lemma WholeRecord(data: bytes, at: nat, p: nat, q: nat, r: nat, s: Server, one: Reader, ps: Parts)
    requires AreParts(ps) && IsJavaServer(one)
    requires ps.texts(data, at) == Got((s.id, s.name, s.description, s.host), p)
    requires ps.ints(data, p) == Got((Sign(s.port), Sign(s.latency), Sign(s.playerCount), Sign(s.maxPlayers)), q)
    requires ps.last(data, q) == Got(s.version, r)
    ensures one(data, at) == Got(SeenByJava(s), r)
  {
    assert FourStrings(data, at) == ps.texts(data, at) && FourInts(data, p) == ps.ints(data, p);
    assert JavaString(data, q) == ps.last(data, q);
    ServerChain(data, at, p, q, r, s);
  }

  lemma RecordSplit(data: bytes, at: nat, s: Server, record: Server -> bytes, ps: Parts)
    requires AreParts(ps) && IsServerBytes(record) && Packable(s) && At(data, at, record(s))
    ensures var p := at + |ps.text(s)|;
            var q := p + |ps.numbers(s)|;
            && At(data, at, ps.text(s)) && At(data, p, ps.numbers(s)) && At(data, q, StringBytes(s.version))
            && at + |record(s)| == q + |StringBytes(s.version)|
  {
    assert record(s) == ServerBytes(s) && ps.text(s) == TextBytes(s) && ps.numbers(s) == NumberBytes(s);
    ServerParts(data, at, s);
  }

  lemma RecordBy(data: bytes, at: nat, s: Server, record: Server -> bytes, one: Reader, ps: Parts)
    requires AreParts(ps) && IsServerBytes(record) && IsJavaServer(one)
    requires Packable(s) && ShortStrings(s) && At(data, at, record(s))
    ensures one(data, at) == Got(SeenByJava(s), at + |record(s)|)
  {
    var p := at + |ps.text(s)|;
    var q := p + |ps.numbers(s)|;
    RecordSplit(data, at, s, record, ps);
    TextPart(data, at, s, ps);
    NumberPart(data, p, s, ps);
    VersionPart(data, q, s, ps);
    WholeRecord(data, at, p, q, q + |StringBytes(s.version)|, s, one, ps);
  }

  lemma RecordAt(data: bytes, at: nat, s: Server, record: Server -> bytes, one: Reader)
    requires IsServerBytes(record) && IsJavaServer(one)
    requires Packable(s) && ShortStrings(s) && At(data, at, record(s))
    ensures one(data, at) == Got(SeenByJava(s), at + |record(s)|)
  {
    RecordBy(data, at, s, record, one, Parts(TextBytes, NumberBytes, FourStrings, FourInts, JavaString));
  }

  lemma {:induction false} ServersAt(data: bytes, at: nat, servers: seq<Server>, record: Server -> bytes, one: Reader)
    requires IsServerBytes(record) && IsJavaServer(one)
    requires AllPackable(servers) && (forall i :: 0 <= i < |servers| ==> ShortStrings(servers[i]))
    requires At(data, at, ConcatMap(record, servers))
    ensures ReadMany(one, data, at, |servers|) == Got(AllSeen(servers), at + |ConcatMap(record, servers)|)
    decreases |servers|
  {
    if servers != [] {
      var s, rest := servers[0], servers[1..];
      AtSplit(data, at, record(s), ConcatMap(record, rest));
      RecordAt(data, at, s, record, one);
      ServersAt(data, at + |record(s)|, rest, record, one);
    }
  }

  /** What the mod reads from any list that could be packed, short of strings of 2^31 bytes. */
  lemma ServerListSeen(servers: seq<Server>)
    requires ServerListPayload(servers).Some? && |servers| < 0x8000_0000
    requires forall i :: 0 <= i < |servers| ==> ShortStrings(servers[i])
    ensures JavaServerList(ServerListPayload(servers).value) == Some(AllSeen(servers))
  {
    ListSeen(ServerListPayload(servers).value, servers, ServerBytes, JavaServer);
  }

  lemma ListSeen(data: bytes, servers: seq<Server>, record: Server -> bytes, one: Reader)
    requires IsServerBytes(record) && IsJavaServer(one)
    requires AllPackable(servers) && (forall i :: 0 <= i < |servers| ==> ShortStrings(servers[i]))
    requires |servers| < 0x8000_0000 && data == PutU32(|servers|) + ConcatMap(record, servers)
    ensures ListRead(one, data) == Some(AllSeen(servers))
  {
    AtSplit(data, 0, PutU32(|servers|), ConcatMap(record, servers));
    JavaIntAt(data, 0, |servers|);
    ServersAt(data, 4, servers, record, one);
  }

  predicate InJavaRange(s: Server) {
    0 <= s.port < 0x8000_0000 && 0 <= s.latency < 0x8000_0000 &&
    0 <= s.playerCount < 0x8000_0000 && 0 <= s.maxPlayers < 0x8000_0000
  }

  lemma {:induction false} SeenUnchangedExactly(servers: seq<Server>)
    requires AllPackable(servers)
    ensures AllSeen(servers) == servers <==> forall i :: 0 <= i < |servers| ==> InJavaRange(servers[i])
  {
    if servers != [] {
      var s, rest := servers[0], servers[1..];
      SeenUnchangedExactly(rest);
      assert servers == [s] + rest;
      assert SeenByJava(s) == s <==> InJavaRange(s);
      assert AllSeen(servers) == servers <==> SeenByJava(s) == s && AllSeen(rest) == rest by {
        if AllSeen(servers) == servers {
          assert AllSeen(servers)[1..] == rest;
        }
      }
    }
  }

  lemma {:induction false} RecordFits(servers: seq<Server>, record: Server -> bytes, i: nat)
    requires i < |servers|
    ensures |record(servers[i])| <= |ConcatMap(record, servers)|
  {
    if i > 0 {
      RecordFits(servers[1..], record, i - 1);
    }
  }

  lemma {:induction false} CountFits(servers: seq<Server>, record: Server -> bytes)
    requires IsServerBytes(record)
    ensures |servers| <= |ConcatMap(record, servers)|
  {
    if servers != [] {
      assert |ServerBytes(servers[0])| > 0;
      CountFits(servers[1..], record);
    }
  }

  lemma SmallStrings(servers: seq<Server>)
    requires |ConcatMap(ServerBytes, servers)| < MAX_LENGTH
    ensures forall i :: 0 <= i < |servers| ==> ShortStrings(servers[i])
  {
    forall i | 0 <= i < |servers| ensures ShortStrings(servers[i]) {
      RecordFits(servers, ServerBytes, i);
      StringsFit(servers[i]);
    }
  }

  lemma StringsFit(s: Server)
    requires |ServerBytes(s)| < MAX_LENGTH
    ensures ShortStrings(s)
  {
    assert |TextBytes(s)| <= |ServerBytes(s)| && |StringBytes(s.version)| <= |ServerBytes(s)|;
    assert |StringBytes(s.id)| + |StringBytes(s.name)| + |StringBytes(s.description)| + |StringBytes(s.host)| ==
           |TextBytes(s)|;
  }

  /** What the mod's callback gets from the bytes of one server list packet. */
  function Delivered(servers: seq<Server>, handles: Handlers): Option<seq<Server>> {
    match ServerListPayload(servers)
    case None => None
    case Some(payload) => Handed(Frame(SERVER_LIST, payload), handles)
  }

  function Handed(f: Frame, handles: Handlers): Option<seq<Server>> {
    match EncodeFrame(f)
    case None => None
    case Some(wire) =>
      var frames := Frames(Java, handles, wire, 0).frames;
      if |frames| == 1 then JavaServerList(frames[0].payload) else None
  }

  lemma HandedExactly(f: Frame, handles: Handlers)
    requires KnownType(f.kind)
    ensures Handed(f, handles) == if Small(f) then JavaServerList(f.payload) else None
  {
    if EncodeFrame(f).Some? {
      var input := FrameBytes(f);
      assert input[0..] == input == input + [];
      TakeFrame(input, 0, f, []);
      if Small(f) {
        FrameStep(Java, handles, input, 0, f);
        assert Frames(Java, handles, input, |input|) == Parsed([], |input|, EndOfStream);
      } else {
        assert Frames(Java, handles, input, 0).frames == [];
      }
    }
  }

  /**
   * The mod gets the list the server sent exactly when every number lies in [0, 2^31) and the payload stays
   * below 65536 bytes. A latency of -1, the default of a server record, stops the whole list; a number
   * from 2^31 up arrives negative; a longer payload makes the mod hang up.
   */
  lemma DeliveredExactly(servers: seq<Server>, handles: Handlers)
    ensures Delivered(servers, handles) == Some(servers) <==>
            (forall i :: 0 <= i < |servers| ==> InJavaRange(servers[i])) &&
            4 + |ConcatMap(ServerBytes, servers)| < MAX_LENGTH
  {
    if 4 + |ConcatMap(ServerBytes, servers)| < MAX_LENGTH {
      SmallStrings(servers);
      CountFits(servers, ServerBytes);
      if ServerListPayload(servers).Some? {
        HandedExactly(Frame(SERVER_LIST, ServerListPayload(servers).value), handles);
        ServerListSeen(servers);
        SeenUnchangedExactly(servers);
      } else {
        assert exists i :: 0 <= i < |servers| && !Packable(servers[i]);
      }
    } else if ServerListPayload(servers).Some? {
      HandedExactly(Frame(SERVER_LIST, ServerListPayload(servers).value), handles);
    }
  }

  /** A server record as it is made when nothing has measured it yet: with it in the list, nothing is sent. */
  lemma DefaultLatencyStopsList(before: seq<Server>, s: Server, after: seq<Server>, handles: Handlers)
    requires s.latency == -1
    ensures Delivered(before + [s] + after, handles) == None
  {
    assert (before + [s] + after)[|before|] == s && !Packable(s);
  }
}
