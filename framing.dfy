/**
 * What the buffer procedures compute, as functions of the bytes involved and
 * of the peer's script: `write_all` (repeat write(2) until every byte is
 * taken) and `line_advance` (find the next line in a buffer, reading more as
 * needed), with the properties the rest of the library relies on.
 */
module Framing {
  import opened Types
  import opened Wire
  import opened Env

  // ---------------------------------------------------------------- write_all

  /** The result of writing a whole byte string: the code, how many bytes the
      peer took, and the script left. */
  datatype Transmitted = Transmitted(res: PfResult, sent: nat, script: seq<WriteStep>)

  /** `write_all`: write(2) the bytes not yet taken until none remain; -1 gives
      `SysWrite` and 0 gives `SysWriteReturnedZero`. */
  function Transmit(bytes: seq<Byte>, script: seq<WriteStep>): (t: Transmitted)
    ensures t.sent <= |bytes|
    ensures t.res == Ok <==> t.sent == |bytes|
    ensures t.res == Ok || t.res == SysWrite || t.res == SysWriteReturnedZero
    decreases |bytes|, 2
  {
    NextWrite(bytes, script)
  }

  /** The write `Transmit` makes; kept apart so that it is unfolded only
      where a proof asks for it. */
  function NextWrite(bytes: seq<Byte>, script: seq<WriteStep>): Transmitted
    decreases |bytes|, 1
  {
    TransmitPass(bytes, script)
  }

  /** One write(2) of the loop in `write_all`, and the rest after it. */
  function TransmitPass(bytes: seq<Byte>, script: seq<WriteStep>): (t: Transmitted)
    ensures t.sent <= |bytes|
    ensures t.res == Ok <==> t.sent == |bytes|
    ensures t.res == Ok || t.res == SysWrite || t.res == SysWriteReturnedZero
    decreases |bytes|, 0
  {
    if |bytes| == 0 then Transmitted(Ok, 0, script)
    else
      var o := WriteCall(script, |bytes|);
      if o.status == -1 then Transmitted(SysWrite, 0, o.script)
      else if o.status == 0 then Transmitted(SysWriteReturnedZero, 0, o.script)
      else
        var t := Transmit(bytes[o.status..], o.script);
        Transmitted(t.res, o.status + t.sent, t.script)
  }

  /** A peer that never fails a write and always takes at least one byte. */
  predicate Cooperative(script: seq<WriteStep>) {
    forall i :: 0 <= i < |script| ==> script[i].Accept? && script[i].limit > 0
  }

  /** Against such a peer every write_all succeeds, and the peer stays so. */
  lemma {:induction false} CooperativePeerTakesAll(bytes: seq<Byte>, script: seq<WriteStep>)
    requires Cooperative(script)
    ensures Transmit(bytes, script).res == Ok
    ensures Cooperative(Transmit(bytes, script).script)
    decreases |bytes|
  {
    assert Transmit(bytes, script) == TransmitPass(bytes, script);
    if |bytes| > 0 {
      var o := WriteCall(script, |bytes|);
      assert Cooperative(o.script);
      CooperativePeerTakesAll(bytes[o.status..], o.script);
    }
  }

  // ---------------------------------------------------------------- line_advance

  /** Index of the first terminator in `s`, or `|s|` if there is none. */
  function FirstNewline(s: seq<Byte>): (i: nat)
    ensures i <= |s|
    ensures forall j :: 0 <= j < i ==> s[j] != Newline
    ensures i < |s| ==> s[i] == Newline
  {
    if s == [] || s[0] == Newline then 0 else 1 + FirstNewline(s[1..])
  }

  /** The first terminator is where the scan stops. */
  lemma FirstNewlineAt(s: seq<Byte>, k: nat)
    requires k <= |s| && (k < |s| ==> s[k] == Newline)
    requires forall j :: 0 <= j < k ==> s[j] != Newline
    ensures FirstNewline(s) == k
  {
  }

  /** Bytes appended after a line without a terminator are searched after it. */
  lemma {:induction false} FirstNewlineExtends(s: seq<Byte>, t: seq<Byte>)
    requires FirstNewline(s) == |s|
    ensures |s| <= FirstNewline(s + t)
  {
    if s != [] {
      assert (s + t)[1..] == s[1..] + t;
      FirstNewlineExtends(s[1..], t);
    }
  }

  /** The result of extracting one line: the code, the line (terminator
      excluded), the unread bytes the buffer holds afterwards, and what the
      peer has left to read and how. */
  datatype Framed = Framed(res: PfResult, line: seq<Byte>, held: seq<Byte>,
                           inbound: seq<Byte>, steps: seq<ReadStep>)

  /** `line_advance` on a buffer of capacity `cap` whose unread bytes are
      `unread`: a line is returned as soon as a terminator is held; otherwise
      more than `MinBufferSize` unterminated bytes are a protocol error, and
      fewer lead to one read(2) into the free space after compaction. The
      line and the bytes still held fit the buffer. */
  function Advance(unread: seq<Byte>, cap: nat, inbound: seq<Byte>, steps: seq<ReadStep>): (f: Framed)
    requires |unread| <= cap
    ensures f.res == Ok || f.res == ProtocolError || f.res == SysRead || f.res == SysReadReturnedZero
    ensures |f.held| <= cap
    ensures f.res == Ok ==> |f.line| + |f.held| < cap
    ensures f.res != Ok ==> f.line == []
    decreases cap - |unread|, 2
  {
    NextPass(unread, cap, inbound, steps)
  }

  /** The pass `Advance` makes; kept apart so that the pass is unfolded only
      where a proof asks for it. */
  function NextPass(unread: seq<Byte>, cap: nat, inbound: seq<Byte>, steps: seq<ReadStep>): Framed
    requires |unread| <= cap
    decreases cap - |unread|, 1
  {
    AdvancePass(unread, cap, inbound, steps)
  }

  /** One pass of the loop in `line_advance`: look for a terminator among
      the held bytes, give up when too many are held, or read and go on. */
  function AdvancePass(unread: seq<Byte>, cap: nat, inbound: seq<Byte>, steps: seq<ReadStep>): (f: Framed)
    requires |unread| <= cap
    ensures f.res == Ok || f.res == ProtocolError || f.res == SysRead || f.res == SysReadReturnedZero
    ensures |f.held| <= cap
    ensures f.res == Ok ==> |f.line| + |f.held| < cap
    ensures f.res != Ok ==> f.line == []
    decreases cap - |unread|, 0
  {
    var i := FirstNewline(unread);
    if i < |unread| then Framed(Ok, unread[..i], unread[i + 1..], inbound, steps)
    else if |unread| > MinBufferSize then Framed(ProtocolError, [], unread, inbound, steps)
    else
      var o := ReadCall(inbound, steps, cap - |unread|);
      if o.status == -1 then Framed(SysRead, [], unread, o.inbound, o.steps)
      else if o.status == 0 then Framed(SysReadReturnedZero, [], unread, o.inbound, o.steps)
      else Advance(unread + o.got, cap, o.inbound, o.steps)
  }

  /** No byte is lost or invented: the held bytes and the peer's stream are,
      afterwards, the line (the first one), its terminator, the bytes still
      held and the stream left; without a line, the bytes held and the stream
      left. A protocol error means more than `MinBufferSize` bytes held
      without a terminator. */
  lemma {:induction false} AdvanceConserves(unread: seq<Byte>, cap: nat, inbound: seq<Byte>, steps: seq<ReadStep>)
    requires |unread| <= cap
    ensures var f := Advance(unread, cap, inbound, steps);
            && (f.res == Ok ==> NoNewline(f.line) && unread + inbound == f.line + [Newline] + f.held + f.inbound)
            && (f.res != Ok ==> unread + inbound == f.held + f.inbound)
            && (f.res == ProtocolError ==> NoNewline(f.held) && MinBufferSize < |f.held|)
    decreases cap - |unread|
  {
    assert Advance(unread, cap, inbound, steps) == AdvancePass(unread, cap, inbound, steps);
    var i := FirstNewline(unread);
    if i < |unread| {
      assert unread == unread[..i] + [Newline] + unread[i + 1..];
    } else if |unread| > MinBufferSize {
      assert unread[..i] == unread;
    } else {
      var o := ReadCall(inbound, steps, cap - |unread|);
      if o.status > 0 {
        assert unread + inbound == (unread + o.got) + o.inbound;
        AdvanceConserves(unread + o.got, cap, o.inbound, o.steps);
      }
    }
  }

  /** The pass of the loop in `line_advance` that finds a terminator. */
  lemma AdvanceFound(unread: seq<Byte>, cap: nat, inbound: seq<Byte>, steps: seq<ReadStep>)
    requires |unread| <= cap && FirstNewline(unread) < |unread|
    ensures var k := FirstNewline(unread);
            Advance(unread, cap, inbound, steps) == Framed(Ok, unread[..k], unread[k + 1..], inbound, steps)
  {
    assert Advance(unread, cap, inbound, steps) == AdvancePass(unread, cap, inbound, steps);
  }

  /** The pass of the loop in `line_advance` that holds too many bytes
      without a terminator. */
  lemma AdvanceTooLong(unread: seq<Byte>, cap: nat, inbound: seq<Byte>, steps: seq<ReadStep>)
    requires |unread| <= cap && FirstNewline(unread) == |unread| && MinBufferSize < |unread|
    ensures Advance(unread, cap, inbound, steps) == Framed(ProtocolError, [], unread, inbound, steps)
  {
    assert Advance(unread, cap, inbound, steps) == AdvancePass(unread, cap, inbound, steps);
  }

  /** The pass of the loop in `line_advance` whose read(2) fails or returns 0. */
  lemma AdvanceReadFails(unread: seq<Byte>, cap: nat, inbound: seq<Byte>, steps: seq<ReadStep>)
    requires |unread| <= MinBufferSize && |unread| <= cap && FirstNewline(unread) == |unread|
    requires ReadCall(inbound, steps, cap - |unread|).status <= 0
    ensures var o := ReadCall(inbound, steps, cap - |unread|);
            Advance(unread, cap, inbound, steps)
            == Framed(if o.status == -1 then SysRead else SysReadReturnedZero, [], unread, o.inbound, o.steps)
  {
    assert Advance(unread, cap, inbound, steps) == AdvancePass(unread, cap, inbound, steps);
  }

  /** The pass of the loop in `line_advance` that reads and goes on: the
      result is that of the search over the held bytes and the bytes read. */
  lemma AdvanceReadStep(unread: seq<Byte>, cap: nat, inbound: seq<Byte>, steps: seq<ReadStep>)
    requires |unread| <= MinBufferSize && |unread| <= cap && FirstNewline(unread) == |unread|
    requires ReadCall(inbound, steps, cap - |unread|).status > 0
    ensures var o := ReadCall(inbound, steps, cap - |unread|);
            Advance(unread, cap, inbound, steps) == Advance(unread + o.got, cap, o.inbound, o.steps)
  {
    assert Advance(unread, cap, inbound, steps) == AdvancePass(unread, cap, inbound, steps);
  }

  /** Fragmentation independence: if the held bytes followed by the peer's
      stream start with a line of at most `MinBufferSize` bytes (and the
      buffer is larger than the line), a reliable peer gets that line
      through, however it splits its stream into reads. */
  lemma {:induction false} ShortLineFramed(unread: seq<Byte>, cap: nat, inbound: seq<Byte>, steps: seq<ReadStep>, p: nat)
    requires |unread| <= cap && Reliable(steps)
    requires p < |unread + inbound| && (unread + inbound)[p] == Newline
    requires NoNewline((unread + inbound)[..p])
    requires p <= MinBufferSize && p < cap
    ensures var f := Advance(unread, cap, inbound, steps);
            && f.res == Ok && f.line == (unread + inbound)[..p]
            && f.held + f.inbound == (unread + inbound)[p + 1..]
    decreases cap - |unread|
  {
    assert Advance(unread, cap, inbound, steps) == AdvancePass(unread, cap, inbound, steps);
    var s := unread + inbound;
    var i := FirstNewline(unread);
    if i < |unread| {
      assert s[i] == unread[i];
      assert i == p;
      assert s[..p] == unread[..i];
      assert s[p + 1..] == unread[i + 1..] + inbound;
    } else {
      assert |unread| <= p;
      var count := cap - |unread|;
      ReliableReadProgresses(inbound, steps, count);
      var o := ReadCall(inbound, steps, count);
      assert (unread + o.got) + o.inbound == s;
      ShortLineFramed(unread + o.got, cap, o.inbound, o.steps, p);
    }
  }

  /** Two reliable peers that send the same stream with different chunking
      give the same line and leave the same bytes to come. */
  lemma FragmentationIndependent(unread: seq<Byte>, cap: nat, inbound: seq<Byte>,
                                 s1: seq<ReadStep>, s2: seq<ReadStep>, p: nat)
    requires |unread| <= cap && Reliable(s1) && Reliable(s2)
    requires p < |unread + inbound| && (unread + inbound)[p] == Newline
    requires NoNewline((unread + inbound)[..p])
    requires p <= MinBufferSize && p < cap
    ensures var f1, f2 := Advance(unread, cap, inbound, s1), Advance(unread, cap, inbound, s2);
            && f1.res == Ok && f2.res == Ok && f1.line == f2.line
            && f1.held + f1.inbound == f2.held + f2.inbound
  {
    ShortLineFramed(unread, cap, inbound, s1, p);
    ShortLineFramed(unread, cap, inbound, s2, p);
  }

  /** Anti-stall bound: a reliable peer that sends more than `cap` bytes
      with no terminator among the first `cap` gets a protocol error once
      more than `MinBufferSize` bytes are held; in a buffer of exactly the
      minimum size that bound cannot be passed, and the outcome is instead a
      read(2) of zero bytes, which returns 0. */
  lemma {:induction false} UnterminatedLineRejected(unread: seq<Byte>, cap: nat, inbound: seq<Byte>, steps: seq<ReadStep>)
    requires MinBufferSize <= cap && |unread| <= cap && Reliable(steps)
    requires |unread + inbound| > cap
    requires NoNewline((unread + inbound)[..cap])
    ensures Advance(unread, cap, inbound, steps).res
            == if cap > MinBufferSize then ProtocolError else SysReadReturnedZero
    decreases cap - |unread|
  {
    assert Advance(unread, cap, inbound, steps) == AdvancePass(unread, cap, inbound, steps);
    var s := unread + inbound;
    assert unread == s[..cap][..|unread|];
    var i := FirstNewline(unread);
    if i == |unread| && |unread| <= MinBufferSize {
      var count := cap - |unread|;
      if count > 0 {
        ReliableReadProgresses(inbound, steps, count);
        var o := ReadCall(inbound, steps, count);
        assert (unread + o.got) + o.inbound == s;
        UnterminatedLineRejected(unread + o.got, cap, o.inbound, o.steps);
      }
    }
  }

  // ---------------------------------------------------------------- get_single_line

  /** The result of reading a single reply line. */
  datatype Replied = Replied(res: PfResult, line: seq<Byte>, inbound: seq<Byte>, steps: seq<ReadStep>)

  /** `get_single_line`: one line through a fresh buffer of the minimum size;
      any byte held after it is `ReadTooMuch`. */
  function SingleLine(inbound: seq<Byte>, steps: seq<ReadStep>): Replied
  {
    var f := Advance([], MinBufferSize, inbound, steps);
    if f.res != Ok then Replied(f.res, f.line, f.inbound, f.steps)
    else if f.held != [] then Replied(ReadTooMuch, f.line, f.inbound, f.steps)
    else Replied(Ok, f.line, f.inbound, f.steps)
  }

  /** A successful single-line read took exactly one line and its terminator
      from the peer's stream. */
  lemma SingleLineExact(inbound: seq<Byte>, steps: seq<ReadStep>)
    requires SingleLine(inbound, steps).res == Ok
    ensures var r := SingleLine(inbound, steps);
            NoNewline(r.line) && inbound == r.line + [Newline] + r.inbound
  {
    var empty: seq<Byte> := [];
    AdvanceConserves(empty, MinBufferSize, inbound, steps);
    var f := Advance(empty, MinBufferSize, inbound, steps);
    assert empty + inbound == inbound;
    LineThenNothing(inbound, f.line, f.held, f.inbound);
  }

  lemma LineThenNothing(s: seq<Byte>, line: seq<Byte>, held: seq<Byte>, rest: seq<Byte>)
    requires s == line + [Newline] + held + rest && held == []
    ensures s == line + [Newline] + rest
  {
  }

  /** A reliable peer whose whole stream is one line shorter than the minimum
      buffer size is read correctly, whatever its chunking. */
  lemma SingleLineAccepted(inbound: seq<Byte>, steps: seq<ReadStep>, line: seq<Byte>)
    requires inbound == line + [Newline] && NoNewline(line) && Reliable(steps)
    requires |line| < MinBufferSize
    ensures SingleLine(inbound, steps).res == Ok && SingleLine(inbound, steps).line == line
  {
    AdvanceConserves([], MinBufferSize, inbound, steps);
    assert [] + inbound == inbound;
    assert inbound[..|line|] == line;
    ShortLineFramed([], MinBufferSize, inbound, steps, |line|);
  }

  // ---------------------------------------------------------------- pf_get_many_recv

  /** The result of receiving the answers to a batch of read requests: the
      code, the pixels afterwards, the reply lines accepted, the unread bytes
      held by the buffer, and what the peer has left to read and how. */
  datatype Answered = Answered(res: PfResult, pixels: seq<Pixel>, lines: seq<seq<Byte>>,
                               held: seq<Byte>, inbound: seq<Byte>, steps: seq<ReadStep>)

  /** The loop of `pf_get_many_recv` over the pixels `ps[i..end]`, with the
      lines accepted so far and the buffer holding `held`: each pixel in turn
      takes its answer; the first failure ends the loop, and the pixels
      already coloured stay so. The accepted lines extend those before, one
      per pixel answered, and the code is `Ok` exactly when every pixel was
      answered. */
  function Answers(ps: seq<Pixel>, i: nat, end: nat, lines: seq<seq<Byte>>, held: seq<Byte>, cap: nat,
                   inbound: seq<Byte>, steps: seq<ReadStep>): (a: Answered)
    requires i <= end <= |ps| && |held| <= cap
    ensures |a.pixels| == |ps| && |a.held| <= cap
    ensures |lines| <= |a.lines| <= |lines| + end - i && a.lines[..|lines|] == lines
    ensures a.res == Ok <==> |a.lines| == |lines| + end - i
    ensures a.res in {Ok, ProtocolError, GetUnexpectedCoords, SysRead, SysReadReturnedZero}
    decreases end - i, 2
  {
    if i == end then Answered(Ok, ps, lines, held, inbound, steps)
    else NextAnswer(ps, i, end, lines, held, cap, inbound, steps)
  }

  /** The loop from pixel `i` on, when some pixel is left. */
  function NextAnswer(ps: seq<Pixel>, i: nat, end: nat, lines: seq<seq<Byte>>, held: seq<Byte>, cap: nat,
                      inbound: seq<Byte>, steps: seq<ReadStep>): Answered
    requires i < end <= |ps| && |held| <= cap
    decreases end - i, 1
  {
    Answer(ps, i, end, lines, held, cap, inbound, steps)
  }

  /** Pixel `i` takes the next line, which must be framed and be a
      well-formed reply with 16-bit coordinates echoing the pixel's; the
      pixel then takes its colour, fully opaque, and the loop goes on with
      the next pixel. */
  function Answer(ps: seq<Pixel>, i: nat, end: nat, lines: seq<seq<Byte>>, held: seq<Byte>, cap: nat,
                  inbound: seq<Byte>, steps: seq<ReadStep>): (a: Answered)
    requires i < end <= |ps| && |held| <= cap
    ensures |a.pixels| == |ps| && |a.held| <= cap
    ensures |lines| <= |a.lines| <= |lines| + end - i && a.lines[..|lines|] == lines
    ensures a.res == Ok <==> |a.lines| == |lines| + end - i
    ensures a.res in {Ok, ProtocolError, GetUnexpectedCoords, SysRead, SysReadReturnedZero}
    decreases end - i, 0
  {
    var f := Advance(held, cap, inbound, steps);
    if f.res != Ok then Answered(f.res, ps, lines, f.held, f.inbound, f.steps)
    else match CheckPxReply(f.line, ps[i].x, ps[i].y, RecvYBound)
      case Failure(e) => Answered(e, ps, lines, f.held, f.inbound, f.steps)
      case Success(c) =>
        var a := Answers(ps[i := WithColour(ps[i], c)], i + 1, end, lines + [f.line], f.held, cap, f.inbound, f.steps);
        assert a.lines[..|lines|] == a.lines[..|lines| + 1][..|lines|];
        a
  }

  /** `pf_get_many_recv` on the batch `ps[start..start + n]` through a fresh
      buffer of capacity `cap`: all answers, and then nothing more held. */
  function RecvBatch(ps: seq<Pixel>, start: nat, n: nat, cap: nat, inbound: seq<Byte>, steps: seq<ReadStep>): Answered
    requires start + n <= |ps|
  {
    var a := Answers(ps, start, start + n, [], [], cap, inbound, steps);
    if a.res == Ok && a.held != [] then a.(res := ReadTooMuch) else a
  }

  /** The pixels of the batch starting at `start` that took a reply from
      `a`, from `i` on: each took the colour of an accepted line echoing its
      coordinates; every other pixel is unchanged. */
  predicate AnsweredFrom(ps: seq<Pixel>, start: nat, i: nat, a: Answered)
  {
    && |a.pixels| == |ps| && start <= i <= start + |a.lines| <= |ps|
    && (forall j :: 0 <= j < i ==> a.pixels[j] == ps[j])
    && (forall j :: i <= j < start + |a.lines| ==> AnswerOf(ps[j], a.lines[j - start], a.pixels[j]))
    && (forall j :: start + |a.lines| <= j < |ps| ==> a.pixels[j] == ps[j])
  }

  /** Colouring pixel `i` from an accepted line extends what was answered. */
  lemma AnsweredFromStep(ps: seq<Pixel>, start: nat, i: nat, a: Answered, c: Rgb)
    requires start <= i < |ps| && i - start < |a.lines|
    requires AnsweredFrom(ps[i := WithColour(ps[i], c)], start, i + 1, a)
    requires NoNewline(a.lines[i - start]) && CheckPxReply(a.lines[i - start], ps[i].x, ps[i].y, RecvYBound) == Success(c)
    ensures AnsweredFrom(ps, start, i, a)
  {
    var ps' := ps[i := WithColour(ps[i], c)];
    assert a.pixels[i] == ps'[i];
    forall j | i < j < |ps| ensures ps'[j] == ps[j] { }
  }

  /** The pixels are coloured from the accepted lines exactly as far as they
      go, each line being a reply that echoes its pixel's coordinates. */
  lemma {:induction false} AnswersColour(ps: seq<Pixel>, start: nat, i: nat, end: nat, lines: seq<seq<Byte>>,
                                         held: seq<Byte>, cap: nat, inbound: seq<Byte>, steps: seq<ReadStep>)
    requires start <= i <= end <= |ps| && |held| <= cap && |lines| == i - start
    ensures AnsweredFrom(ps, start, i, Answers(ps, i, end, lines, held, cap, inbound, steps))
    decreases end - i
  {
    if i < end {
      var f := Advance(held, cap, inbound, steps);
      if f.res == Ok && CheckPxReply(f.line, ps[i].x, ps[i].y, RecvYBound).Success? {
        var c := CheckPxReply(f.line, ps[i].x, ps[i].y, RecvYBound).value;
        AnswersColour(ps[i := WithColour(ps[i], c)], start, i + 1, end, lines + [f.line], f.held, cap, f.inbound, f.steps);
        ColourStep(ps, start, i, end, lines, held, cap, inbound, steps, c);
      } else {
        ColourStops(ps, start, i, end, lines, held, cap, inbound, steps);
      }
    }
  }

  /** The pixel whose line cannot be framed or whose reply is rejected ends
      the colouring: nothing from it on changes. */
  lemma ColourStops(ps: seq<Pixel>, start: nat, i: nat, end: nat, lines: seq<seq<Byte>>,
                    held: seq<Byte>, cap: nat, inbound: seq<Byte>, steps: seq<ReadStep>)
    requires start <= i < end <= |ps| && |held| <= cap && |lines| == i - start
    requires var f := Advance(held, cap, inbound, steps);
             !(f.res == Ok && CheckPxReply(f.line, ps[i].x, ps[i].y, RecvYBound).Success?)
    ensures AnsweredFrom(ps, start, i, Answers(ps, i, end, lines, held, cap, inbound, steps))
  {
    var f := Advance(held, cap, inbound, steps);
    if f.res != Ok {
      AnswersAdvanceFails(ps, i, end, lines, held, cap, inbound, steps);
    } else {
      AnswersRejected(ps, i, end, lines, held, cap, inbound, steps,
                      CheckPxReply(f.line, ps[i].x, ps[i].y, RecvYBound).error);
    }
  }

  /** One step of that induction, for a pixel whose reply is accepted. */
  lemma ColourStep(ps: seq<Pixel>, start: nat, i: nat, end: nat, lines: seq<seq<Byte>>,
                   held: seq<Byte>, cap: nat, inbound: seq<Byte>, steps: seq<ReadStep>, c: Rgb)
    requires start <= i < end <= |ps| && |held| <= cap && |lines| == i - start
    requires var f := Advance(held, cap, inbound, steps);
             f.res == Ok && CheckPxReply(f.line, ps[i].x, ps[i].y, RecvYBound) == Success(c)
    requires var f := Advance(held, cap, inbound, steps);
             AnsweredFrom(ps[i := WithColour(ps[i], c)], start, i + 1,
                          Answers(ps[i := WithColour(ps[i], c)], i + 1, end, lines + [f.line], f.held, cap, f.inbound, f.steps))
    ensures AnsweredFrom(ps, start, i, Answers(ps, i, end, lines, held, cap, inbound, steps))
  {
    var f := Advance(held, cap, inbound, steps);
    AnswersTake(ps, i, end, lines, held, cap, inbound, steps, c);
    var a := Answers(ps[i := WithColour(ps[i], c)], i + 1, end, lines + [f.line], f.held, cap, f.inbound, f.steps);
    assert a.lines[i - start] == a.lines[..i - start + 1][i - start] == f.line;
    AdvanceConserves(held, cap, inbound, steps);
    AnsweredFromStep(ps, start, i, a, c);
  }

  /** On success no byte is lost or invented: the lines read with their
      terminators, the bytes held and the peer's stream make up what the
      buffer and the stream held before. */
  lemma {:induction false} AnswersConserve(ps: seq<Pixel>, i: nat, end: nat, lines: seq<seq<Byte>>, held: seq<Byte>,
                                           cap: nat, inbound: seq<Byte>, steps: seq<ReadStep>)
    requires i <= end <= |ps| && |held| <= cap
    ensures var a := Answers(ps, i, end, lines, held, cap, inbound, steps);
            a.res == Ok ==> JoinLines(lines) + (held + inbound) == JoinLines(a.lines) + a.held + a.inbound
    decreases end - i
  {
    if i < end {
      assert Answers(ps, i, end, lines, held, cap, inbound, steps) == Answer(ps, i, end, lines, held, cap, inbound, steps);
      var f := Advance(held, cap, inbound, steps);
      if f.res == Ok {
        var o := CheckPxReply(f.line, ps[i].x, ps[i].y, RecvYBound);
        if o.Success? {
          var ps' := ps[i := WithColour(ps[i], o.value)];
          AnswersConserve(ps', i + 1, end, lines + [f.line], f.held, cap, f.inbound, f.steps);
          ConserveStep(ps, i, end, lines, held, cap, inbound, steps, o.value);
        }
      }
    }
  }

  /** One step of that induction, for a pixel whose reply is accepted. */
  lemma ConserveStep(ps: seq<Pixel>, i: nat, end: nat, lines: seq<seq<Byte>>, held: seq<Byte>,
                     cap: nat, inbound: seq<Byte>, steps: seq<ReadStep>, c: Rgb)
    requires i < end <= |ps| && |held| <= cap
    requires var f := Advance(held, cap, inbound, steps);
             f.res == Ok && CheckPxReply(f.line, ps[i].x, ps[i].y, RecvYBound) == Success(c)
    requires var f := Advance(held, cap, inbound, steps);
             var a := Answers(ps[i := WithColour(ps[i], c)], i + 1, end, lines + [f.line], f.held, cap, f.inbound, f.steps);
             a.res == Ok ==> JoinLines(lines + [f.line]) + (f.held + f.inbound) == JoinLines(a.lines) + a.held + a.inbound
    ensures var a := Answers(ps, i, end, lines, held, cap, inbound, steps);
            a.res == Ok ==> JoinLines(lines) + (held + inbound) == JoinLines(a.lines) + a.held + a.inbound
  {
    var f := Advance(held, cap, inbound, steps);
    AnswersTake(ps, i, end, lines, held, cap, inbound, steps, c);
    AdvanceConserves(held, cap, inbound, steps);
    JoinStep(lines, f.line, held + inbound, f.held, f.inbound);
  }

  /** Taking one more line off the front of the remaining bytes. */
  lemma JoinStep(lines: seq<seq<Byte>>, line: seq<Byte>, rest: seq<Byte>, held: seq<Byte>, inbound: seq<Byte>)
    requires rest == line + [Newline] + held + inbound
    ensures JoinLines(lines) + rest == JoinLines(lines + [line]) + held + inbound
  {
    JoinLinesSnoc(lines, line);
  }

  /** The loop's step for a pixel whose reply is accepted. */
  lemma AnswersTake(ps: seq<Pixel>, i: nat, end: nat, lines: seq<seq<Byte>>, held: seq<Byte>,
                    cap: nat, inbound: seq<Byte>, steps: seq<ReadStep>, c: Rgb)
    requires i < end <= |ps| && |held| <= cap
    requires var f := Advance(held, cap, inbound, steps);
             f.res == Ok && CheckPxReply(f.line, ps[i].x, ps[i].y, RecvYBound) == Success(c)
    ensures var f := Advance(held, cap, inbound, steps);
            Answers(ps, i, end, lines, held, cap, inbound, steps)
            == Answers(ps[i := WithColour(ps[i], c)], i + 1, end, lines + [f.line], f.held, cap, f.inbound, f.steps)
  {
    assert Answers(ps, i, end, lines, held, cap, inbound, steps) == Answer(ps, i, end, lines, held, cap, inbound, steps);
  }

  /** The loop's exit for a pixel whose line cannot be framed. */
  lemma AnswersAdvanceFails(ps: seq<Pixel>, i: nat, end: nat, lines: seq<seq<Byte>>, held: seq<Byte>,
                            cap: nat, inbound: seq<Byte>, steps: seq<ReadStep>)
    requires i < end <= |ps| && |held| <= cap && Advance(held, cap, inbound, steps).res != Ok
    ensures var f := Advance(held, cap, inbound, steps);
            Answers(ps, i, end, lines, held, cap, inbound, steps) == Answered(f.res, ps, lines, f.held, f.inbound, f.steps)
  {
    assert Answers(ps, i, end, lines, held, cap, inbound, steps) == Answer(ps, i, end, lines, held, cap, inbound, steps);
  }

  /** The loop's exit for a pixel whose reply is rejected. */
  lemma AnswersRejected(ps: seq<Pixel>, i: nat, end: nat, lines: seq<seq<Byte>>, held: seq<Byte>,
                        cap: nat, inbound: seq<Byte>, steps: seq<ReadStep>, e: PfResult)
    requires i < end <= |ps| && |held| <= cap
    requires var f := Advance(held, cap, inbound, steps);
             f.res == Ok && CheckPxReply(f.line, ps[i].x, ps[i].y, RecvYBound) == Failure(e)
    ensures var f := Advance(held, cap, inbound, steps);
            Answers(ps, i, end, lines, held, cap, inbound, steps) == Answered(e, ps, lines, f.held, f.inbound, f.steps)
  {
    assert Answers(ps, i, end, lines, held, cap, inbound, steps) == Answer(ps, i, end, lines, held, cap, inbound, steps);
  }

  /** The end of `pf_get_many_recv`: after the loop ends with `a`, the code
      turns into `ReadTooMuch` when every pixel was answered and bytes are
      still held. */
  lemma RecvBatchFinal(ps: seq<Pixel>, start: nat, n: nat, cap: nat, inbound: seq<Byte>, steps: seq<ReadStep>, a: Answered)
    requires start + n <= |ps| && Answers(ps, start, start + n, [], [], cap, inbound, steps) == a
    ensures RecvBatch(ps, start, n, cap, inbound, steps) == if a.res == Ok && a.held != [] then a.(res := ReadTooMuch) else a
  {
  }

  /** The pixels of a batch are coloured from the accepted replies exactly as
      far as they go, each reply echoing its pixel's coordinates, and no
      other pixel changes. */
  lemma RecvBatchColours(ps: seq<Pixel>, start: nat, n: nat, cap: nat, inbound: seq<Byte>, steps: seq<ReadStep>)
    requires start + n <= |ps|
    ensures AnsweredFrom(ps, start, start, RecvBatch(ps, start, n, cap, inbound, steps))
    ensures start + |RecvBatch(ps, start, n, cap, inbound, steps).lines| <= start + n
  {
    AnswersColour(ps, start, start, start + n, [], [], cap, inbound, steps);
    var a := Answers(ps, start, start + n, [], [], cap, inbound, steps);
    var b := RecvBatch(ps, start, n, cap, inbound, steps);
    assert b.pixels == a.pixels && b.lines == a.lines;
  }

  /** The code of a batch: `Ok` or `ReadTooMuch` exactly when every reply was
      accepted, and `ReadTooMuch` exactly when bytes are then left in the
      buffer. */
  lemma RecvBatchResult(ps: seq<Pixel>, start: nat, n: nat, cap: nat, inbound: seq<Byte>, steps: seq<ReadStep>)
    requires start + n <= |ps|
    ensures var b := RecvBatch(ps, start, n, cap, inbound, steps);
            && ((b.res == Ok || b.res == ReadTooMuch) <==> |b.lines| == n)
            && (b.res == ReadTooMuch <==> |b.lines| == n && b.held != [])
            && (b.res in {Ok, ReadTooMuch, ProtocolError, GetUnexpectedCoords, SysRead, SysReadReturnedZero})
  {
  }

  /** Conservation for a batch started on an empty buffer. */
  lemma AnswersConserveFromStart(ps: seq<Pixel>, start: nat, n: nat, cap: nat, inbound: seq<Byte>, steps: seq<ReadStep>)
    requires start + n <= |ps|
    ensures var a := Answers(ps, start, start + n, [], [], cap, inbound, steps);
            a.res == Ok ==> inbound == JoinLines(a.lines) + a.held + a.inbound
  {
    var none: seq<seq<Byte>> := [];
    var empty: seq<Byte> := [];
    AnswersConserve(ps, start, start + n, none, empty, cap, inbound, steps);
    assert JoinLines(none) + (empty + inbound) == inbound;
  }

  /** A batch that succeeds is the whole loop, with nothing held after it. */
  lemma RecvBatchOk(ps: seq<Pixel>, start: nat, n: nat, cap: nat, inbound: seq<Byte>, steps: seq<ReadStep>)
    requires start + n <= |ps|
    ensures var b := RecvBatch(ps, start, n, cap, inbound, steps);
            b.res == Ok ==> b == Answers(ps, start, start + n, [], [], cap, inbound, steps) && b.held == []
  {
  }

  /** On `Ok` the peer's stream was exactly the accepted lines, each with its
      terminator, followed by what is left, and the buffer is empty. */
  lemma RecvBatchConserves(ps: seq<Pixel>, start: nat, n: nat, cap: nat, inbound: seq<Byte>, steps: seq<ReadStep>)
    requires start + n <= |ps|
    ensures var b := RecvBatch(ps, start, n, cap, inbound, steps);
            b.res == Ok ==> b.held == [] && inbound == JoinLines(b.lines) + b.inbound
  {
    AnswersConserveFromStart(ps, start, n, cap, inbound, steps);
    RecvBatchOk(ps, start, n, cap, inbound, steps);
    var b := RecvBatch(ps, start, n, cap, inbound, steps);
    if b.res == Ok {
      NothingHeld(b, inbound);
    }
  }

  /** `qs` holds the pixels of `ps` with the same coordinates. */
  predicate SameCoordinates(ps: seq<Pixel>, qs: seq<Pixel>)
  {
    |qs| == |ps| && forall j :: 0 <= j < |ps| ==> qs[j].x == ps[j].x && qs[j].y == ps[j].y
  }

  /** Pixel `p` was answered by `line`, a reply echoing its coordinates, and
      `q` is `p` coloured from that reply. */
  predicate AnswerOf(p: Pixel, line: seq<Byte>, q: Pixel)
  {
    && NoNewline(line)
    && CheckPxReply(line, p.x, p.y, RecvYBound).Success?
    && q == WithColour(p, CheckPxReply(line, p.x, p.y, RecvYBound).value)
  }

  /** Each pixel of `ps` was answered by its line of `lines`, and `qs` holds
      it coloured from that reply. */
  predicate Coloured(ps: seq<Pixel>, lines: seq<seq<Byte>>, qs: seq<Pixel>)
    decreases |ps|, 1
  {
    && |lines| == |ps| && |qs| == |ps|
    && (ps == [] || ColouredUpToLast(ps, lines, qs))
  }

  /** The same for a non-empty batch, pixel by pixel from the last: the
      pixels before it are coloured, and the last one has its answer. */
  predicate ColouredUpToLast(ps: seq<Pixel>, lines: seq<seq<Byte>>, qs: seq<Pixel>)
    requires |lines| == |ps| == |qs| > 0
    decreases |ps|, 0
  {
    var m := |ps| - 1;
    Coloured(ps[..m], lines[..m], qs[..m]) && AnswerOf(ps[m], lines[m], qs[m])
  }

  /** `Coloured` holds exactly when every pixel has its answer. */
  lemma {:induction false} ColouredIff(ps: seq<Pixel>, lines: seq<seq<Byte>>, qs: seq<Pixel>)
    ensures Coloured(ps, lines, qs) <==>
              && |lines| == |ps| && |qs| == |ps|
              && forall j {:trigger AnswerOf(ps[j], lines[j], qs[j])} :: 0 <= j < |ps| ==> AnswerOf(ps[j], lines[j], qs[j])
    decreases |ps|
  {
    if ps != [] && |lines| == |ps| && |qs| == |ps| {
      var m := |ps| - 1;
      ColouredIff(ps[..m], lines[..m], qs[..m]);
      ColouredIffStep(ps, lines, qs);
    }
  }

  /** The step of `ColouredIff`: from the pixels before the last to all. */
  lemma ColouredIffStep(ps: seq<Pixel>, lines: seq<seq<Byte>>, qs: seq<Pixel>)
    requires |lines| == |ps| == |qs| > 0
    requires var a, l, q := ps[..|ps| - 1], lines[..|ps| - 1], qs[..|ps| - 1];
             Coloured(a, l, q) <==>
               && |l| == |a| && |q| == |a|
               && forall j {:trigger AnswerOf(a[j], l[j], q[j])} :: 0 <= j < |a| ==> AnswerOf(a[j], l[j], q[j])
    ensures Coloured(ps, lines, qs) <==>
              forall j {:trigger AnswerOf(ps[j], lines[j], qs[j])} :: 0 <= j < |ps| ==> AnswerOf(ps[j], lines[j], qs[j])
  {
    var m := |ps| - 1;
    assert Coloured(ps, lines, qs) <==> ColouredUpToLast(ps, lines, qs);
    assert ColouredUpToLast(ps, lines, qs) <==>
           Coloured(ps[..m], lines[..m], qs[..m]) && AnswerOf(ps[m], lines[m], qs[m]);
    if forall j {:trigger AnswerOf(ps[j], lines[j], qs[j])} :: 0 <= j < |ps| ==> AnswerOf(ps[j], lines[j], qs[j]) {
      forall j | 0 <= j < m
        ensures AnswerOf(ps[..m][j], lines[..m][j], qs[..m][j])
      {
        assert AnswerOf(ps[j], lines[j], qs[j]);
      }
    }
    if Coloured(ps, lines, qs) {
      forall j | 0 <= j < |ps|
        ensures AnswerOf(ps[j], lines[j], qs[j])
      {
        if j < m {
          assert AnswerOf(ps[..m][j], lines[..m][j], qs[..m][j]);
        }
      }
    }
  }

  /** Colouring keeps the coordinates. */
  lemma ColouredSameCoordinates(ps: seq<Pixel>, lines: seq<seq<Byte>>, qs: seq<Pixel>)
    requires Coloured(ps, lines, qs)
    ensures SameCoordinates(ps, qs)
  {
    ColouredIff(ps, lines, qs);
    forall j | 0 <= j < |ps|
      ensures qs[j].x == ps[j].x && qs[j].y == ps[j].y
    {
      assert AnswerOf(ps[j], lines[j], qs[j]);
    }
  }

  /** Batches answered one after the other. */
  lemma ColouredConcat(ps: seq<Pixel>, lines: seq<seq<Byte>>, qs: seq<Pixel>,
                       ps': seq<Pixel>, lines': seq<seq<Byte>>, qs': seq<Pixel>)
    requires Coloured(ps, lines, qs) && Coloured(ps', lines', qs')
    ensures Coloured(ps + ps', lines + lines', qs + qs')
  {
    ColouredIff(ps, lines, qs);
    ColouredIff(ps', lines', qs');
    var a, l, q := ps + ps', lines + lines', qs + qs';
    forall j | 0 <= j < |a|
      ensures AnswerOf(a[j], l[j], q[j])
    {
      if j < |ps| {
        assert a[j] == ps[j] && l[j] == lines[j] && q[j] == qs[j];
      } else {
        assert a[j] == ps'[j - |ps|] && l[j] == lines'[j - |ps|] && q[j] == qs'[j - |ps|];
      }
    }
    ColouredIff(a, l, q);
  }

  /** Coordinates kept batch after batch. */
  lemma SameCoordinatesConcat(ps: seq<Pixel>, qs: seq<Pixel>, ps': seq<Pixel>, qs': seq<Pixel>)
    requires SameCoordinates(ps, qs) && SameCoordinates(ps', qs')
    ensures SameCoordinates(ps + ps', qs + qs')
  {
    var a, q := ps + ps', qs + qs';
    forall j | |ps| <= j < |a|
      ensures a[j] == ps'[j - |ps|] && q[j] == qs'[j - |ps|]
    {
    }
  }

  /** What a batch means, in plain terms: the pixels outside it are
      untouched and those inside keep their coordinates; on `Ok` every pixel
      of the batch was answered by one accepted line, coloured from it, and
      the peer's stream was those lines followed by what is left. */
  lemma BatchMeaning(ps: seq<Pixel>, start: nat, n: nat, cap: nat, inbound: seq<Byte>, steps: seq<ReadStep>, b: Answered)
    requires start + n <= |ps| && RecvBatch(ps, start, n, cap, inbound, steps) == b
    ensures |b.pixels| == |ps| && b.pixels[..start] == ps[..start] && b.pixels[start + n..] == ps[start + n..]
    ensures SameCoordinates(ps[start..start + n], b.pixels[start..start + n])
    ensures b.res == Ok ==> Coloured(ps[start..start + n], b.lines, b.pixels[start..start + n])
                            && inbound == JoinLines(b.lines) + b.inbound
    ensures b.res in {Ok, ReadTooMuch, ProtocolError, GetUnexpectedCoords, SysRead, SysReadReturnedZero}
  {
    RecvBatchColours(ps, start, n, cap, inbound, steps);
    RecvBatchResult(ps, start, n, cap, inbound, steps);
    RecvBatchConserves(ps, start, n, cap, inbound, steps);
    BatchFrames(ps, start, n, b);
    BatchCoordinates(ps, start, n, b);
    if b.res == Ok {
      BatchColoured(ps, start, n, b);
    }
  }

  /** The pixels before and after a batch keep their values. */
  lemma BatchFrames(ps: seq<Pixel>, start: nat, n: nat, b: Answered)
    requires AnsweredFrom(ps, start, start, b) && start + |b.lines| <= start + n <= |ps|
    ensures b.pixels[..start] == ps[..start] && b.pixels[start + n..] == ps[start + n..]
  {
    assert forall j :: start + n <= j < |ps| ==> b.pixels[j] == ps[j];
  }

  /** The pixels of a batch keep their coordinates. */
  lemma BatchCoordinates(ps: seq<Pixel>, start: nat, n: nat, b: Answered)
    requires AnsweredFrom(ps, start, start, b) && start + |b.lines| <= start + n <= |ps|
    ensures SameCoordinates(ps[start..start + n], b.pixels[start..start + n])
  {
    var w, q := ps[start..start + n], b.pixels[start..start + n];
    forall j | 0 <= j < n
      ensures q[j].x == w[j].x && q[j].y == w[j].y
    {
      if j < |b.lines| {
        assert AnswerOf(ps[start + j], b.lines[start + j - start], b.pixels[start + j]);
      }
    }
  }

  /** The pixels of a batch answered in full are coloured from its lines. */
  lemma BatchColoured(ps: seq<Pixel>, start: nat, n: nat, b: Answered)
    requires AnsweredFrom(ps, start, start, b) && start + |b.lines| == start + n <= |ps|
    ensures Coloured(ps[start..start + n], b.lines, b.pixels[start..start + n])
  {
    var w, q := ps[start..start + n], b.pixels[start..start + n];
    forall j | 0 <= j < n
      ensures AnswerOf(w[j], b.lines[j], q[j])
    {
      assert AnswerOf(ps[start + j], b.lines[start + j - start], b.pixels[start + j]);
    }
    ColouredIff(w, b.lines, q);
  }

  lemma NothingHeld(a: Answered, inbound: seq<Byte>)
    requires a.held == [] && inbound == JoinLines(a.lines) + a.held + a.inbound
    ensures inbound == JoinLines(a.lines) + a.inbound
  {
  }
}
