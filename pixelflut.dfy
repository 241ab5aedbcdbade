/**
 * The public interface of the library: a connection (`struct pf_conn`) and
 * the operations on it. Every failure after the argument checks closes the
 * connection, and the pixel counters move only on success.
 */
module Pixelflut {
  import opened Types
  import opened Wire
  import opened Env
  import opened Framing
  import opened Buffers
  import opened Batching

  // ---------------------------------------------------------------- one request, one reply

  /** The result of sending one command and reading its one-line reply: the
      code, the reply line, how many command bytes the peer took, and the
      peer's state afterwards. */
  datatype Exchange = Exchange(res: PfResult, line: seq<Byte>, sent: nat, writeSteps: seq<WriteStep>,
                               inbound: seq<Byte>, readSteps: seq<ReadStep>)

  /** `write_all` of the command, then `get_single_line`; a failed write
      reads nothing. */
  function Converse(cmd: seq<Byte>, writeSteps: seq<WriteStep>, inbound: seq<Byte>, readSteps: seq<ReadStep>): Exchange
  {
    var t := Transmit(cmd, writeSteps);
    if t.res != Ok then Exchange(t.res, [], t.sent, t.script, inbound, readSteps)
    else
      var r := SingleLine(inbound, readSteps);
      Exchange(r.res, r.line, t.sent, t.script, r.inbound, r.steps)
  }

  /** A failed write leaves the reply unread and does not take the whole
      command; a successful exchange took the whole command and exactly one
      reply line and its terminator. */
  lemma ConverseMeaning(cmd: seq<Byte>, writeSteps: seq<WriteStep>, inbound: seq<Byte>, readSteps: seq<ReadStep>)
    ensures var e := Converse(cmd, writeSteps, inbound, readSteps);
            && e.sent <= |cmd|
            && ((e.res == SysWrite || e.res == SysWriteReturnedZero) ==>
                  e.sent < |cmd| && e.inbound == inbound && e.readSteps == readSteps)
            && (e.res == Ok ==> e.sent == |cmd| && NoNewline(e.line) && inbound == e.line + [Newline] + e.inbound)
  {
    var t := Transmit(cmd, writeSteps);
    if t.res == Ok && SingleLine(inbound, readSteps).res == Ok {
      SingleLineExact(inbound, readSteps);
    }
  }

  /** A peer that takes every write and reliably sends back one line shorter
      than the minimum buffer size makes the exchange succeed with that line. */
  lemma ConverseAnswered(cmd: seq<Byte>, writeSteps: seq<WriteStep>, line: seq<Byte>, readSteps: seq<ReadStep>)
    requires Cooperative(writeSteps) && Reliable(readSteps)
    requires NoNewline(line) && |line| < MinBufferSize
    ensures var e := Converse(cmd, writeSteps, line + [Newline], readSteps);
            e.res == Ok && e.line == line && e.sent == |cmd|
  {
    CooperativePeerTakesAll(cmd, writeSteps);
    SingleLineAccepted(line + [Newline], readSteps, line);
  }

  /** Sends `cmd` and reads the one-line reply into a scratch array of the
      minimum size. */
  method Ask(sock: Socket, cmd: seq<Byte>) returns (res: PfResult, line: seq<Byte>, ghost sent: nat)
    requires !sock.closed
    modifies sock
    ensures Converse(cmd, old(sock.writeSteps), old(sock.inbound), old(sock.readSteps))
            == Exchange(res, line, sent, sock.writeSteps, sock.inbound, sock.readSteps)
    ensures sock.sent == old(sock.sent) + cmd[..sent]
    ensures res == Ok ==> old(sock.inbound) == line + [Newline] + sock.inbound
    ensures ReadsWhile(old(sock.readAt), old(sock.inbound), sock.readAt, sock.inbound, |old(sock.sent)| + |cmd|)
    ensures !sock.closed
  {
    var scratch := new Byte[MinBufferSize];
    res := WriteAll(sock, cmd);
    sent := Transmit(cmd, old(sock.writeSteps)).sent;
    if res != Ok {
      return res, [], sent;
    }
    res, line := GetSingleLine(sock, scratch);
  }

  /** What `pf_get` makes of the exchange for pixel `px`: the reply must be a
      pixel line with x within 16 bits and y within `GetYBound`, echoing the
      pixel's coordinates. */
  function GetOutcome(e: Exchange, px: Pixel): Outcome<Rgb>
  {
    if e.res != Ok then Failure(e.res) else CheckPxReply(e.line, px.x, px.y, GetYBound)
  }

  /** The exchange of `pf_get` for `px`: send the read request, read the
      reply and check it; on success `c` is the colour it gives. */
  method AskPixel(sock: Socket, px: Pixel) returns (res: PfResult, c: Rgb, ghost line: seq<Byte>)
    requires !sock.closed
    modifies sock
    ensures var e := Converse(GetCommand(px.x, px.y), old(sock.writeSteps), old(sock.inbound), old(sock.readSteps));
            && sock.writeSteps == e.writeSteps && sock.inbound == e.inbound && sock.readSteps == e.readSteps
            && sock.sent == old(sock.sent) + GetCommand(px.x, px.y)[..e.sent] && line == e.line
            && res == GetOutcome(e, px).Result()
            && (res == Ok ==> GetOutcome(e, px) == Success(c))
    ensures ReadsWhile(old(sock.readAt), old(sock.inbound), sock.readAt, sock.inbound,
                       |old(sock.sent)| + |GetCommand(px.x, px.y)|)
    ensures !sock.closed
  {
    c := Rgb(0, 0, 0);
    GetCommandFits(px.x, px.y);
    ghost var sent;
    var reply;
    res, reply, sent := Ask(sock, GetCommand(px.x, px.y));
    line := reply;
    if res != Ok {
      return;
    }
    var o := CheckPxReply(reply, px.x, px.y, GetYBound);
    if o.Failure? {
      return o.error, c, line;
    }
    c := o.value;
  }

  /** What `pf_get_size` makes of the exchange. */
  function SizeOutcome(e: Exchange): Outcome<(u16, u16)>
  {
    if e.res != Ok then Failure(e.res) else CheckSizeReply(e.line)
  }

  /** A cooperative, reliable server that answers a read of a pixel with
      y up to 0xff with the canonical reply gives its colour to `pf_get`. */
  lemma GetAnswered(px: Pixel, c: Rgb, writeSteps: seq<WriteStep>, readSteps: seq<ReadStep>)
    requires Cooperative(writeSteps) && Reliable(readSteps) && px.y <= GetYBound
    ensures GetOutcome(Converse(GetCommand(px.x, px.y), writeSteps, PxLine(px.x, px.y, c) + [Newline], readSteps), px)
            == Success(c)
  {
    var echo := Pixel(px.x, px.y, c.r, c.g, c.b, 0);
    PutCommandFits(echo, false);
    PutCommandIsReplyLine(echo);
    var line := PxLine(px.x, px.y, c);
    assert PutCommand(echo, false)[..|PutCommand(echo, false)| - 1] == line;
    ConverseAnswered(GetCommand(px.x, px.y), writeSteps, line, readSteps);
    CheckEchoedReply(px.x, px.y, px.x, px.y, c, [], GetYBound);
    assert line + [] == line;
  }

  /** A cooperative, reliable server that answers the size request with the
      canonical reply gives its dimensions to `pf_get_size`. */
  lemma SizeAnswered(w: u16, h: u16, writeSteps: seq<WriteStep>, readSteps: seq<ReadStep>)
    requires Cooperative(writeSteps) && Reliable(readSteps)
    ensures SizeOutcome(Converse(SizeCommand, writeSteps, "SIZE " + Decimal(w) + " " + Decimal(h) + [Newline], readSteps))
            == Success((w, h))
  {
    var line := "SIZE " + Decimal(w) + " " + Decimal(h);
    CoordinateWidth(w);
    CoordinateWidth(h);
    DigitsAreNotNewlines(Decimal(w));
    DigitsAreNotNewlines(Decimal(h));
    NoNewlineConcat("SIZE ", Decimal(w));
    NoNewlineConcat("SIZE " + Decimal(w), " ");
    NoNewlineConcat("SIZE " + Decimal(w) + " ", Decimal(h));
    ConverseAnswered(SizeCommand, writeSteps, line, readSteps);
    CheckCanonicalSizeReply(w, h);
  }

  // ---------------------------------------------------------------- the connection

  /** `struct pf_conn`: the descriptor (-1 when closed), the socket it
      designates, and the pixel counters. */
  class Conn {
    var sockfd: int
    var sock: Socket
    var numPixelsWritten: nat
    var numPixelsRead: nat

    /** An open descriptor designates a socket not yet released. */
    predicate Valid()
      reads this, sock
    {
      sockfd >= -1 && (sockfd != -1 ==> !sock.closed)
    }

    /** `CONN_VALID`. */
    predicate IsOpen()
      reads this
    {
      sockfd != -1
    }

    /** A connection that is not open, with zero counters. */
    constructor ()
      ensures Valid() && !IsOpen() && numPixelsWritten == 0 && numPixelsRead == 0
    {
      sockfd := -1;
      sock := new Socket([], [], []);
      numPixelsWritten, numPixelsRead := 0, 0;
    }

    /** `DO_CLOSE`: release the descriptor if it is open; otherwise nothing. */
    method DoClose()
      requires Valid()
      modifies this, sock
      ensures Valid() && !IsOpen() && sock == old(sock)
      ensures numPixelsWritten == old(numPixelsWritten) && numPixelsRead == old(numPixelsRead)
      ensures old(IsOpen()) ==> sock.closed
      ensures sock.writeSteps == old(sock.writeSteps) && sock.inbound == old(sock.inbound)
      ensures sock.readSteps == old(sock.readSteps)
      ensures sock.sent == old(sock.sent) && sock.readAt == old(sock.readAt)
      ensures !old(IsOpen()) ==> unchanged(this) && unchanged(sock)
    {
      if sockfd != -1 {
        sock.Close();
        sockfd := -1;
      }
    }

    /** `pf_connect_raw`. The address check (`inet_aton`), the descriptor
        `socket()` returns and whether `connect()` succeeds are given as
        `addrParses`, `fd` and `connects`; `s` is the socket `fd` designates.
        `Valid()` is the invariant every connection keeps from its
        constructor on, as for every other operation here. */
    method ConnectRaw(addr: Option<seq<Byte>>, port: Option<seq<Byte>>,
                      addrParses: bool, fd: int, connects: bool, s: Socket) returns (res: PfResult)
      requires Valid() && fd >= -1 && !s.closed
      modifies this, s
      ensures Valid()
      ensures addr.None? || port.None? ==> res == NullArg && unchanged(this)
      ensures addr.Some? && port.Some? ==>
                && numPixelsWritten == 0 && numPixelsRead == 0
                && res == (if !addrParses then ConnectParseAddr
                           else if ParsePort(port.value).None? then ConnectParsePort
                           else if fd == -1 then SysSocket
                           else if !connects then SysConnect
                           else Ok)
                && (IsOpen() <==> res == Ok)
                && (res == Ok ==> sockfd == fd && sock == s && s.sent == old(s.sent))
                && (res == SysConnect ==> s.closed)
      ensures res != SysConnect ==> unchanged(s)
    {
      if addr.None? || port.None? {
        return NullArg;
      }
      sockfd, numPixelsWritten, numPixelsRead := -1, 0, 0;
      if !addrParses {
        return ConnectParseAddr;
      }
      var parsed := ParsePort(port.value);
      if parsed.None? {
        return ConnectParsePort;
      }
      sockfd := fd;
      if sockfd == -1 {
        return SysSocket;
      }
      sock := s;
      if !connects {
        DoClose();
        return SysConnect;
      }
      res := Ok;
    }

    /** `pf_put_general`: send one set command, with or without alpha. */
    method PutGeneral(px: Pixel, useAlpha: bool) returns (res: PfResult)
      requires Valid()
      modifies this, sock
      ensures Valid() && sock == old(sock) && numPixelsRead == old(numPixelsRead)
      ensures !old(IsOpen()) ==> res == ConnInvalidState && unchanged(this) && unchanged(sock)
      ensures old(IsOpen()) ==>
                var cmd := PutCommand(px, useAlpha);
                var t := Transmit(cmd, old(sock.writeSteps));
                && res == t.res && sock.writeSteps == t.script
                && sock.sent == old(sock.sent) + cmd[..t.sent]
                && sock.inbound == old(sock.inbound) && sock.readSteps == old(sock.readSteps)
                && sock.readAt == old(sock.readAt)
                && (res == Ok ==> IsOpen() && numPixelsWritten == old(numPixelsWritten) + 1)
                && (res != Ok ==> !IsOpen() && sock.closed && numPixelsWritten == old(numPixelsWritten))
    {
      if sockfd == -1 {
        return ConnInvalidState;
      }
      var cmd := PutCommand(px, useAlpha);
      PutCommandFits(px, useAlpha);
      res := WriteAll(sock, cmd);
      if res != Ok {
        DoClose();
        return;
      }
      numPixelsWritten := numPixelsWritten + 1;
    }

    /** `pf_put_rgb`. */
    method PutRgb(px: Pixel) returns (res: PfResult)
      requires Valid()
      modifies this, sock
      ensures Valid() && sock == old(sock) && numPixelsRead == old(numPixelsRead)
      ensures !old(IsOpen()) ==> res == ConnInvalidState && unchanged(this) && unchanged(sock)
      ensures old(IsOpen()) ==>
                var t := Transmit(PutCommand(px, false), old(sock.writeSteps));
                && res == t.res && sock.writeSteps == t.script
                && sock.sent == old(sock.sent) + PutCommand(px, false)[..t.sent]
                && sock.inbound == old(sock.inbound) && sock.readSteps == old(sock.readSteps)
                && sock.readAt == old(sock.readAt)
                && (res == Ok ==> IsOpen() && numPixelsWritten == old(numPixelsWritten) + 1)
                && (res != Ok ==> !IsOpen() && sock.closed && numPixelsWritten == old(numPixelsWritten))
    {
      res := PutGeneral(px, false);
    }

    /** `pf_put_rgba`. */
    method PutRgba(px: Pixel) returns (res: PfResult)
      requires Valid()
      modifies this, sock
      ensures Valid() && sock == old(sock) && numPixelsRead == old(numPixelsRead)
      ensures !old(IsOpen()) ==> res == ConnInvalidState && unchanged(this) && unchanged(sock)
      ensures old(IsOpen()) ==>
                var t := Transmit(PutCommand(px, true), old(sock.writeSteps));
                && res == t.res && sock.writeSteps == t.script
                && sock.sent == old(sock.sent) + PutCommand(px, true)[..t.sent]
                && sock.inbound == old(sock.inbound) && sock.readSteps == old(sock.readSteps)
                && sock.readAt == old(sock.readAt)
                && (res == Ok ==> IsOpen() && numPixelsWritten == old(numPixelsWritten) + 1)
                && (res != Ok ==> !IsOpen() && sock.closed && numPixelsWritten == old(numPixelsWritten))
    {
      res := PutGeneral(px, true);
    }

    /** `pf_get_size`. A dimension the caller does not ask for (a NULL
        output pointer) is not reported; outputs are written only on success. */
    method GetSize(wantWidth: bool, wantHeight: bool)
      returns (res: PfResult, width: Option<u16>, height: Option<u16>, ghost line: seq<Byte>)
      requires Valid()
      modifies this, sock
      ensures Valid() && sock == old(sock)
      ensures numPixelsWritten == old(numPixelsWritten) && numPixelsRead == old(numPixelsRead)
      ensures !old(IsOpen()) ==> res == ConnInvalidState && width.None? && height.None?
                                 && unchanged(this) && unchanged(sock)
      ensures old(IsOpen()) ==>
                var e := Converse(SizeCommand, old(sock.writeSteps), old(sock.inbound), old(sock.readSteps));
                && sock.writeSteps == e.writeSteps && sock.inbound == e.inbound && sock.readSteps == e.readSteps
                && sock.sent == old(sock.sent) + SizeCommand[..e.sent] && line == e.line
                && res == SizeOutcome(e).Result()
                && width == (if res == Ok && wantWidth then Some(SizeOutcome(e).value.0) else None)
                && height == (if res == Ok && wantHeight then Some(SizeOutcome(e).value.1) else None)
                && (res == Ok ==> IsOpen())
                && (res != Ok ==> !IsOpen() && sock.closed)
    {
      width, height, line := None, None, [];
      if sockfd == -1 {
        return ConnInvalidState, width, height, line;
      }
      ghost var sent;
      var reply;
      res, reply, sent := Ask(sock, SizeCommand);
      line := reply;
      if res != Ok {
        DoClose();
        return;
      }
      var o := CheckSizeReply(reply);
      if o.Failure? {
        res := o.error;
        DoClose();
        return;
      }
      if wantWidth {
        width := Some(o.value.0);
      }
      if wantHeight {
        height := Some(o.value.1);
      }
    }

    /** `pf_get`: read the colour of `px`, with alpha forced to 0xff; the
        pixel is left as it was on any failure. */
    method Get(px: Option<Pixel>) returns (res: PfResult, after: Option<Pixel>, ghost line: seq<Byte>)
      requires Valid()
      modifies this, sock
      ensures Valid() && sock == old(sock) && numPixelsWritten == old(numPixelsWritten)
      ensures !old(IsOpen()) ==> res == ConnInvalidState && after == px && unchanged(this) && unchanged(sock)
      ensures old(IsOpen()) && px.None? ==> res == NullArg && after == px && unchanged(this) && unchanged(sock)
      ensures old(IsOpen()) && px.Some? ==>
                var p := px.value;
                var e := Converse(GetCommand(p.x, p.y), old(sock.writeSteps), old(sock.inbound), old(sock.readSteps));
                && sock.writeSteps == e.writeSteps && sock.inbound == e.inbound && sock.readSteps == e.readSteps
                && sock.sent == old(sock.sent) + GetCommand(p.x, p.y)[..e.sent] && line == e.line
                && res == GetOutcome(e, p).Result()
                && (res == Ok ==> && after == Some(WithColour(p, GetOutcome(e, p).value))
                                  && IsOpen() && numPixelsRead == old(numPixelsRead) + 1)
                && (res != Ok ==> after == px && !IsOpen() && sock.closed && numPixelsRead == old(numPixelsRead))
    {
      after, line := px, [];
      if sockfd == -1 {
        return ConnInvalidState, after, line;
      }
      if px.None? {
        return NullArg, after, line;
      }
      var p := px.value;
      var c;
      res, c, line := AskPixel(sock, p);
      if res != Ok {
        DoClose();
        return;
      }
      after := Some(WithColour(p, c));
      numPixelsRead := numPixelsRead + 1;
    }

    /** `pf_put_general_many`: queue the set command of each of the `n` pixels
        in a buffer of `bufSize` bytes over `storage`, flushing whenever the
        next command does not fit, and flush at the end. Whatever happens, the
        bytes sent are a prefix of the commands in order; a peer that takes
        every write makes it succeed. */
    method PutGeneralMany(pxs: array?<Pixel>, n: nat, useAlpha: bool, storage: array?<Byte>, bufSize: nat)
      returns (res: PfResult)
      requires Valid()
      requires pxs != null ==> n <= pxs.Length
      requires storage != null ==> bufSize <= storage.Length
      modifies this, sock, storage
      ensures Valid() && sock == old(sock) && numPixelsRead == old(numPixelsRead)
      ensures sock.inbound == old(sock.inbound) && sock.readSteps == old(sock.readSteps)
      ensures sock.readAt == old(sock.readAt)
      ensures !old(IsOpen()) ==> res == ConnInvalidState && unchanged(this) && unchanged(sock)
      ensures old(IsOpen()) && (pxs == null || storage == null) ==> res == NullArg && unchanged(this) && unchanged(sock)
      ensures old(IsOpen()) && pxs != null && storage != null && bufSize < MinBufferSize ==>
                res == BufferSize && unchanged(this) && unchanged(sock)
      ensures old(IsOpen()) && pxs != null && storage != null && MinBufferSize <= bufSize ==>
                var stream := PutStream(pxs[..n], useAlpha);
                && sock.sent <= old(sock.sent) + stream
                && (res == Ok ==> sock.sent == old(sock.sent) + stream
                                  && IsOpen() && numPixelsWritten == old(numPixelsWritten) + n)
                && (res != Ok ==> (res == SysWrite || res == SysWriteReturnedZero)
                                  && !IsOpen() && sock.closed && numPixelsWritten == old(numPixelsWritten))
                && (Cooperative(old(sock.writeSteps)) ==> res == Ok)
    {
      if sockfd == -1 {
        return ConnInvalidState;
      }
      if pxs == null || storage == null {
        return NullArg;
      }
      if bufSize < MinBufferSize {
        return BufferSize;
      }
      var wbuf := new Buffer(storage, bufSize);
      ghost var start := sock.sent;
      assert sock.sent + wbuf.Pending() == start;
      ghost var stream := PutStream(pxs[..n], useAlpha);
      res := QueueAll(sock, wbuf, pxs, n, useAlpha);
      if res != Ok {
        assert sock.sent <= start + stream;
        DoClose();
        return;
      }
      ghost var queued := sock.sent + wbuf.Pending();
      assert queued == start + stream;
      res := DoFlush(sock, wbuf);
      assert sock.sent <= queued;
      if res != Ok {
        DoClose();
        return;
      }
      assert sock.sent == queued;
      numPixelsWritten := numPixelsWritten + n;
    }

    /** `pf_put_rgb_many`: the buffered put without alpha. */
    method PutRgbMany(pxs: array?<Pixel>, n: nat, storage: array?<Byte>, bufSize: nat)
      returns (res: PfResult)
      requires Valid()
      requires pxs != null ==> n <= pxs.Length
      requires storage != null ==> bufSize <= storage.Length
      modifies this, sock, storage
      ensures Valid() && sock == old(sock) && numPixelsRead == old(numPixelsRead)
      ensures sock.inbound == old(sock.inbound) && sock.readSteps == old(sock.readSteps)
      ensures sock.readAt == old(sock.readAt)
      ensures !old(IsOpen()) ==> res == ConnInvalidState && unchanged(this) && unchanged(sock)
      ensures old(IsOpen()) && (pxs == null || storage == null) ==> res == NullArg && unchanged(this) && unchanged(sock)
      ensures old(IsOpen()) && pxs != null && storage != null && bufSize < MinBufferSize ==>
                res == BufferSize && unchanged(this) && unchanged(sock)
      ensures old(IsOpen()) && pxs != null && storage != null && MinBufferSize <= bufSize ==>
                var stream := PutStream(pxs[..n], false);
                && sock.sent <= old(sock.sent) + stream
                && (res == Ok ==> sock.sent == old(sock.sent) + stream
                                  && IsOpen() && numPixelsWritten == old(numPixelsWritten) + n)
                && (res != Ok ==> (res == SysWrite || res == SysWriteReturnedZero)
                                  && !IsOpen() && sock.closed && numPixelsWritten == old(numPixelsWritten))
                && (Cooperative(old(sock.writeSteps)) ==> res == Ok)
    {
      res := PutGeneralMany(pxs, n, false, storage, bufSize);
    }

    /** `pf_put_rgba_many`: the buffered put with alpha. */
    method PutRgbaMany(pxs: array?<Pixel>, n: nat, storage: array?<Byte>, bufSize: nat)
      returns (res: PfResult)
      requires Valid()
      requires pxs != null ==> n <= pxs.Length
      requires storage != null ==> bufSize <= storage.Length
      modifies this, sock, storage
      ensures Valid() && sock == old(sock) && numPixelsRead == old(numPixelsRead)
      ensures sock.inbound == old(sock.inbound) && sock.readSteps == old(sock.readSteps)
      ensures sock.readAt == old(sock.readAt)
      ensures !old(IsOpen()) ==> res == ConnInvalidState && unchanged(this) && unchanged(sock)
      ensures old(IsOpen()) && (pxs == null || storage == null) ==> res == NullArg && unchanged(this) && unchanged(sock)
      ensures old(IsOpen()) && pxs != null && storage != null && bufSize < MinBufferSize ==>
                res == BufferSize && unchanged(this) && unchanged(sock)
      ensures old(IsOpen()) && pxs != null && storage != null && MinBufferSize <= bufSize ==>
                var stream := PutStream(pxs[..n], true);
                && sock.sent <= old(sock.sent) + stream
                && (res == Ok ==> sock.sent == old(sock.sent) + stream
                                  && IsOpen() && numPixelsWritten == old(numPixelsWritten) + n)
                && (res != Ok ==> (res == SysWrite || res == SysWriteReturnedZero)
                                  && !IsOpen() && sock.closed && numPixelsWritten == old(numPixelsWritten))
                && (Cooperative(old(sock.writeSteps)) ==> res == Ok)
    {
      res := PutGeneralMany(pxs, n, true, storage, bufSize);
    }

    /** `pf_get_many`: ask for the colours of the `n` pixels of `pxs`, in
        batches of `limit` requests (`limit == 0`: one batch), through a
        buffer of `bufSize` bytes over `storage`. On success every one of the
        `n` pixels is coloured from its reply, the replies are the lines the
        peer sent, in order, the requests were written exactly, and the
        record of reads says that the replies to each batch were read when
        its requests, and no later ones, had been written
        (`ReadsFollowRequests`). On any failure after the checks the
        connection is closed and the pixels keep their coordinates. */
    method GetMany(pxs: array?<Pixel>, n: nat, storage: array?<Byte>, bufSize: nat, limit: nat)
      returns (res: PfResult, ghost lines: seq<seq<Byte>>, ghost sizes: seq<nat>, ghost sentAt: seq<nat>)
      requires Valid()
      requires pxs != null ==> n <= pxs.Length
      requires storage != null ==> bufSize <= storage.Length
      modifies this, sock, storage, pxs
      ensures Valid() && sock == old(sock) && numPixelsWritten == old(numPixelsWritten)
      ensures !old(IsOpen()) ==> res == ConnInvalidState && unchanged(this) && unchanged(sock)
                                 && (pxs != null ==> unchanged(pxs))
      ensures old(IsOpen()) && (pxs == null || storage == null) ==>
                res == NullArg && unchanged(this) && unchanged(sock) && (pxs != null ==> unchanged(pxs))
      ensures old(IsOpen()) && pxs != null && storage != null && bufSize < MinBufferSize ==>
                res == BufferSize && unchanged(this) && unchanged(sock) && unchanged(pxs)
      ensures old(IsOpen()) && pxs != null && storage != null && MinBufferSize <= bufSize ==>
                var ps := old(pxs[..]);
                && (res == Ok ==> && sock.sent == old(sock.sent) + RequestStream(ps[..n])
                                  && old(sock.inbound) == JoinLines(lines) + sock.inbound
                                  && Collected(pxs[..], ps, n, lines)
                                  && sizes == Batches(n, limit)
                                  && SentBefore(sizes, sentAt, |old(sock.sent)|, ps)
                                  && sock.readAt == old(sock.readAt) + Schedule(lines, sizes, sentAt)
                                  && IsOpen() && numPixelsRead == old(numPixelsRead) + n)
                && (res != Ok ==> && GetManyFailure(res)
                                  && sock.sent <= old(sock.sent) + RequestStream(ps[..n])
                                  && SameCoordinates(ps, pxs[..])
                                  && !IsOpen() && sock.closed && numPixelsRead == old(numPixelsRead))
      ensures old(IsOpen()) && pxs != null && storage != null && MinBufferSize <= bufSize && n == 0 ==>
                res == Ok && unchanged(sock) && unchanged(pxs)
    {
      lines, sizes, sentAt := [], [], [];
      if sockfd == -1 {
        return ConnInvalidState, lines, sizes, sentAt;
      }
      if pxs == null || storage == null {
        return NullArg, lines, sizes, sentAt;
      }
      if bufSize < MinBufferSize {
        return BufferSize, lines, sizes, sentAt;
      }
      var wbuf := new Buffer(storage, bufSize);
      res, lines, sizes, sentAt := RequestAll(sock, wbuf, pxs, n, limit);
      if res != Ok {
        DoClose();
        return;
      }
      numPixelsRead := numPixelsRead + n;
    }
  }

  /** The loop of `pf_put_general_many`: queue the set command of each of the
      first `n` pixels of `pxs`. On success the commands follow what was sent
      or queued before; on failure what was sent is a prefix of that. */
  method QueueAll(sock: Socket, wbuf: Buffer, pxs: array<Pixel>, n: nat, useAlpha: bool) returns (res: PfResult)
    requires wbuf.Valid() && wbuf.readPos == 0 && !sock.closed && n <= pxs.Length
    modifies sock, wbuf, wbuf.data
    ensures wbuf.Valid() && wbuf.readPos == 0 && !sock.closed
    ensures res == Ok ==> sock.sent + wbuf.Pending() == old(sock.sent + wbuf.Pending()) + PutStream(pxs[..n], useAlpha)
    ensures res != Ok ==> (res == SysWrite || res == SysWriteReturnedZero)
                          && sock.sent <= old(sock.sent + wbuf.Pending()) + PutStream(pxs[..n], useAlpha)
    ensures Cooperative(old(sock.writeSteps)) ==> res == Ok && Cooperative(sock.writeSteps)
    ensures sock.inbound == old(sock.inbound) && sock.readSteps == old(sock.readSteps)
    ensures sock.readAt == old(sock.readAt)
  {
    ghost var base := sock.sent + wbuf.Pending();
    var all := pxs[..n];
    var i := 0;
    while i < n
      invariant 0 <= i <= n && !sock.closed
      invariant wbuf.Valid() && wbuf.readPos == 0
      invariant sock.sent + wbuf.Pending() == base + PutStream(all[..i], useAlpha)
      invariant Cooperative(old(sock.writeSteps)) ==> Cooperative(sock.writeSteps)
      invariant sock.inbound == old(sock.inbound) && sock.readSteps == old(sock.readSteps)
      invariant sock.readAt == old(sock.readAt)
    {
      var cmd := PutCommand(all[i], useAlpha);
      PutCommandFits(all[i], useAlpha);
      QueueStep(base, all, i, useAlpha);
      res := Enqueue(sock, wbuf, cmd, base + PutStream(all[..i + 1], useAlpha), base + PutStream(all, useAlpha));
      if res != Ok {
        return;
      }
      i := i + 1;
    }
    assert all[..n] == all;
    res := Ok;
  }

  /** The commands of the pixels so far and of pixel `i` are those of the
      pixels up to `i`, and they start the commands of all pixels. */
  lemma QueueStep(base: seq<Byte>, all: seq<Pixel>, i: nat, useAlpha: bool)
    requires i < |all|
    ensures base + PutStream(all[..i], useAlpha) + PutCommand(all[i], useAlpha) == base + PutStream(all[..i + 1], useAlpha)
    ensures base + PutStream(all[..i + 1], useAlpha) <= base + PutStream(all, useAlpha)
  {
    PutStreamSnoc(all, i, useAlpha);
    PutStreamPrefix(all, i + 1, |all|, useAlpha);
    assert all[..|all|] == all;
    PrefixThrough(base + PutStream(all[..i + 1], useAlpha), base, PutStream(all[..i + 1], useAlpha), PutStream(all, useAlpha));
  }

  /** One pass of that loop: `add_to_buffer` of one command, where `target`
      is what the bytes sent and queued should then be, within `whole`. */
  method Enqueue(sock: Socket, wbuf: Buffer, cmd: seq<Byte>, ghost target: seq<Byte>, ghost whole: seq<Byte>)
    returns (res: PfResult)
    requires wbuf.Valid() && wbuf.readPos == 0 && !sock.closed && 0 < |cmd| <= wbuf.cap
    requires sock.sent + wbuf.Pending() + cmd == target && target <= whole
    modifies sock, wbuf, wbuf.data
    ensures wbuf.Valid() && wbuf.readPos == 0 && !sock.closed
    ensures res == Ok ==> sock.sent + wbuf.Pending() == target
    ensures res != Ok ==> (res == SysWrite || res == SysWriteReturnedZero) && sock.sent <= whole
    ensures Cooperative(old(sock.writeSteps)) ==> res == Ok && Cooperative(sock.writeSteps)
    ensures sock.inbound == old(sock.inbound) && sock.readSteps == old(sock.readSteps)
    ensures sock.readAt == old(sock.readAt)
  {
    ghost var before := sock.sent + wbuf.Pending();
    res := AddToBuffer(sock, wbuf, cmd);
    if res != Ok {
      PrefixAppend(before, before, cmd);
      PrefixThrough(sock.sent, [], before, whole);
    }
  }

  /** `pf_get_many_recv`: receives the answers to the `n` requests for
      `pxs[start..start + n]` through a fresh buffer of `bufSize` bytes over
      `storage`, colouring each pixel from its reply, and then insists that
      nothing more was read. */
  method GetManyRecv(sock: Socket, pxs: array<Pixel>, start: nat, n: nat, storage: array<Byte>, bufSize: nat)
    returns (res: PfResult, ghost lines: seq<seq<Byte>>, ghost held: seq<Byte>)
    requires 0 < n && start + n <= pxs.Length && MinBufferSize <= bufSize <= storage.Length && !sock.closed
    modifies sock, pxs, storage
    ensures RecvBatch(old(pxs[..]), start, n, bufSize, old(sock.inbound), old(sock.readSteps))
            == Answered(res, pxs[..], lines, held, sock.inbound, sock.readSteps)
    ensures !sock.closed && sock.writeSteps == old(sock.writeSteps) && sock.sent == old(sock.sent)
    ensures ReadsWhile(old(sock.readAt), old(sock.inbound), sock.readAt, sock.inbound, |sock.sent|)
  {
    var buf := new Buffer(storage, bufSize);
    ghost var empty: seq<Byte> := [];
    assert buf.Unread() == empty;
    ghost var ps0, inbound0, steps0 := pxs[..], sock.inbound, sock.readSteps;
    res, lines := RecvAll(sock, buf, pxs, start, start + n);
    held := buf.Unread();
    RecvBatchFinal(ps0, start, n, bufSize, inbound0, steps0, Answered(res, pxs[..], lines, held, sock.inbound, sock.readSteps));
    if res == Ok && buf.readPos < buf.len {
      res := ReadTooMuch;
    }
  }

  /** The loop of `pf_get_many_recv`: one reply line per pixel of
      `pxs[start..end]`, until the first failure. */
  method RecvAll(sock: Socket, buf: Buffer, pxs: array<Pixel>, start: nat, end: nat)
    returns (res: PfResult, ghost lines: seq<seq<Byte>>)
    requires buf.Valid() && !sock.closed && start <= end <= pxs.Length
    modifies sock, buf, buf.data, pxs
    ensures buf.Valid()
    ensures Answers(old(pxs[..]), start, end, [], old(buf.Unread()), buf.cap, old(sock.inbound), old(sock.readSteps))
            == Answered(res, pxs[..], lines, buf.Unread(), sock.inbound, sock.readSteps)
    ensures !sock.closed && sock.writeSteps == old(sock.writeSteps) && sock.sent == old(sock.sent)
    ensures ReadsWhile(old(sock.readAt), old(sock.inbound), sock.readAt, sock.inbound, |sock.sent|)
  {
    ghost var target := Answers(pxs[..], start, end, [], buf.Unread(), buf.cap, sock.inbound, sock.readSteps);
    lines := [];
    var i := start;
    while i < end
      invariant start <= i <= end && |lines| == i - start && buf.Valid()
      invariant !sock.closed && sock.writeSteps == old(sock.writeSteps) && sock.sent == old(sock.sent)
      invariant ReadsWhile(old(sock.readAt), old(sock.inbound), sock.readAt, sock.inbound, |sock.sent|)
      invariant Answers(pxs[..], i, end, lines, buf.Unread(), buf.cap, sock.inbound, sock.readSteps) == target
    {
      var reply;
      ghost var r1, i1 := sock.readAt, sock.inbound;
      res, reply := RecvOne(sock, buf, pxs, i, end, lines);
      ReadsWhileChain(old(sock.readAt), old(sock.inbound), r1, i1, sock.readAt, sock.inbound, |sock.sent|);
      if res != Ok {
        return;
      }
      lines := lines + [reply];
      i := i + 1;
    }
    res := Ok;
  }

  /** One pass of that loop, for pixel `i`: frame its reply line, check it,
      and colour the pixel. */
  method RecvOne(sock: Socket, buf: Buffer, pxs: array<Pixel>, i: nat, end: nat, ghost lines: seq<seq<Byte>>)
    returns (res: PfResult, reply: seq<Byte>)
    requires buf.Valid() && !sock.closed && i < end <= pxs.Length
    modifies sock, buf, buf.data, pxs
    ensures buf.Valid() && !sock.closed && sock.writeSteps == old(sock.writeSteps) && sock.sent == old(sock.sent)
    ensures ReadsWhile(old(sock.readAt), old(sock.inbound), sock.readAt, sock.inbound, |sock.sent|)
    ensures var a := Answers(old(pxs[..]), i, end, lines, old(buf.Unread()), buf.cap, old(sock.inbound), old(sock.readSteps));
            if res == Ok
            then a == Answers(pxs[..], i + 1, end, lines + [reply], buf.Unread(), buf.cap, sock.inbound, sock.readSteps)
            else a == Answered(res, pxs[..], lines, buf.Unread(), sock.inbound, sock.readSteps)
  {
    ghost var ps := pxs[..];
    ghost var h, inb, st := buf.Unread(), sock.inbound, sock.readSteps;
    var lineStart;
    ghost var line;
    res, lineStart, line := LineAdvance(sock, buf);
    if res != Ok {
      AnswersAdvanceFails(ps, i, end, lines, h, buf.cap, inb, st);
      return res, [];
    }
    reply := buf.data[lineStart..buf.readPos - 1];
    var px := pxs[i];
    match CheckPxReply(reply, px.x, px.y, RecvYBound)
    case Failure(e) =>
      AnswersRejected(ps, i, end, lines, h, buf.cap, inb, st, e);
      res := e;
    case Success(c) =>
      AnswersTake(ps, i, end, lines, h, buf.cap, inb, st, c);
      pxs[i] := WithColour(px, c);
      assert pxs[..] == ps[i := WithColour(ps[i], c)];
  }

  /** The end of a batch of `pf_get_many`: flush the queued requests, then
      receive the `count` answers for `pxs[start..start + count]` into the
      same storage (the flush left the write buffer empty). */
  method FinishBatch(sock: Socket, wbuf: Buffer, pxs: array<Pixel>, start: nat, count: nat, storage: array<Byte>)
    returns (res: PfResult, ghost lines: seq<seq<Byte>>)
    requires wbuf.Valid() && wbuf.readPos == 0 && wbuf.data == storage && !sock.closed
    requires 0 < count && start + count <= pxs.Length
    modifies sock, wbuf, storage, pxs
    ensures wbuf.Valid() && wbuf.readPos == 0 && !sock.closed
    ensures sock.sent <= old(sock.sent) + old(wbuf.Pending())
    ensures res == Ok ==> sock.sent == old(sock.sent) + old(wbuf.Pending()) && wbuf.len == 0
    ensures res == Ok ==> && Coloured(old(pxs[start..start + count]), lines, pxs[start..start + count])
                          && old(sock.inbound) == JoinLines(lines) + sock.inbound
                          && sock.readAt == old(sock.readAt) + Marks(|sock.sent|, |JoinLines(lines)|)
    ensures res != Ok ==> res in {SysWrite, SysWriteReturnedZero, ReadTooMuch, ProtocolError,
                                  GetUnexpectedCoords, SysRead, SysReadReturnedZero}
    ensures SameCoordinates(old(pxs[start..start + count]), pxs[start..start + count])
    ensures pxs[..start] == old(pxs[..start]) && pxs[start + count..] == old(pxs[start + count..])
  {
    lines := [];
    res := DoFlush(sock, wbuf);
    if res != Ok {
      return;
    }
    ghost var ps := pxs[..];
    assert ps[start..start + count] == old(pxs[start..start + count]);
    assert ps[..start] == old(pxs[..start]) && ps[start + count..] == old(pxs[start + count..]);
    ghost var i0, st := sock.inbound, sock.readSteps;
    ghost var held;
    res, lines, held := GetManyRecv(sock, pxs, start, count, storage, wbuf.cap);
    assert ReadsWhile(old(sock.readAt), i0, sock.readAt, sock.inbound, |sock.sent|);
    BatchMeaning(ps, start, count, wbuf.cap, i0, st, Answered(res, pxs[..], lines, held, sock.inbound, sock.readSteps));
    assert pxs[..][start..start + count] == pxs[start..start + count];
    assert pxs[..][..start] == pxs[..start] && pxs[..][start + count..] == pxs[start + count..];
  }

  /** The codes `pf_get_many` can fail with once its arguments are checked. */
  predicate GetManyFailure(res: PfResult)
  {
    res in {SysWrite, SysWriteReturnedZero, ReadTooMuch, ProtocolError, GetUnexpectedCoords, SysRead, SysReadReturnedZero}
  }

  /** The loop of `pf_get_many` over the `n` pixels of `pxs`: queue the read
      request of each; whenever `limit` requests (`limit > 0`) are queued
      since the last batch, and once more for the remainder at the end, flush
      them and receive their answers before queueing any more. */
  method RequestAll(sock: Socket, wbuf: Buffer, pxs: array<Pixel>, n: nat, limit: nat)
    returns (res: PfResult, ghost lines: seq<seq<Byte>>, ghost sizes: seq<nat>, ghost sentAt: seq<nat>)
    requires wbuf.Valid() && wbuf.readPos == 0 && wbuf.len == 0 && !sock.closed && n <= pxs.Length
    modifies sock, wbuf, wbuf.data, pxs
    ensures !sock.closed
    ensures res == Ok ==> && sock.sent == old(sock.sent) + RequestStream(old(pxs[..])[..n])
                          && old(sock.inbound) == JoinLines(lines) + sock.inbound
                          && Collected(pxs[..], old(pxs[..]), n, lines)
                          && sizes == Batches(n, limit)
                          && SentBefore(sizes, sentAt, |old(sock.sent)|, old(pxs[..]))
                          && sock.readAt == old(sock.readAt) + Schedule(lines, sizes, sentAt)
    ensures res != Ok ==> && GetManyFailure(res)
                          && sock.sent <= old(sock.sent) + RequestStream(old(pxs[..])[..n])
                          && SameCoordinates(old(pxs[..]), pxs[..])
    ensures n == 0 ==> res == Ok && unchanged(sock) && unchanged(pxs)
  {
    ghost var ps, base, i0 := pxs[..], sock.sent, sock.inbound;
    assert sock.sent + wbuf.Pending() == base + RequestStream(ps[..0]);
    lines, sizes, sentAt := [], [], [];
    CollectedStart(ps);
    var idx, batchStart := 0, 0;
    while idx < n
      invariant wbuf.Valid() && wbuf.readPos == 0 && !sock.closed
      invariant Progress(n, limit, idx, batchStart, ps, base, i0, sock.sent, wbuf.Pending(), pxs[..],
                         sock.inbound, lines, sizes, sentAt)
      invariant sock.readAt == old(sock.readAt) + Schedule(lines, sizes, sentAt)
      invariant n == 0 ==> unchanged(sock) && unchanged(pxs)
    {
      res, idx, batchStart, lines, sizes, sentAt := RequestStep(sock, wbuf, pxs, n, limit, idx, batchStart,
                                                                ps, base, i0, old(sock.readAt), lines, sizes, sentAt);
      if res != Ok {
        return;
      }
    }
    res, lines, sizes, sentAt := LastBatch(sock, wbuf, pxs, n, limit, batchStart, ps, base, i0, old(sock.readAt), lines, sizes, sentAt);
  }

  /** Where the loop of `pf_get_many` stands with `idx` requests queued and
      the batches before `batchStart` answered: the bytes written and queued
      are the requests so far, the pixels of those batches are coloured from
      the lines read, and the batches so far are the first of `Batches`. */
  predicate Progress(n: nat, limit: nat, idx: nat, batchStart: nat, ps: seq<Pixel>, base: seq<Byte>, i0: seq<Byte>,
                     sent: seq<Byte>, pending: seq<Byte>, qs: seq<Pixel>, inbound: seq<Byte>,
                     lines: seq<seq<Byte>>, sizes: seq<nat>, sentAt: seq<nat>)
  {
    && batchStart <= idx <= n <= |ps| && (limit > 0 ==> idx - batchStart < limit)
    && sent + pending == base + RequestStream(ps[..idx]) && (idx == batchStart ==> pending == [])
    && Collected(qs, ps, batchStart, lines) && i0 == JoinLines(lines) + inbound
    && SentBefore(sizes, sentAt, |base|, ps) && Sum(sizes) == batchStart
    && Batches(n, limit) == sizes + Batches(n - batchStart, limit)
  }

  /** One pass of that loop: queue the request for pixel `idx`, and end the
      batch when it is full. */
  method RequestStep(sock: Socket, wbuf: Buffer, pxs: array<Pixel>, n: nat, limit: nat, idx: nat, batchStart: nat,
                     ghost ps: seq<Pixel>, ghost base: seq<Byte>, ghost i0: seq<Byte>, ghost r0: seq<nat>,
                     ghost lines: seq<seq<Byte>>, ghost sizes: seq<nat>, ghost sentAt: seq<nat>)
    returns (res: PfResult, idx': nat, batchStart': nat,
             ghost lines': seq<seq<Byte>>, ghost sizes': seq<nat>, ghost sentAt': seq<nat>)
    requires wbuf.Valid() && wbuf.readPos == 0 && !sock.closed && idx < n
    requires Progress(n, limit, idx, batchStart, ps, base, i0, sock.sent, wbuf.Pending(), pxs[..],
                      sock.inbound, lines, sizes, sentAt)
    requires sock.readAt == r0 + Schedule(lines, sizes, sentAt)
    modifies sock, wbuf, wbuf.data, pxs
    ensures wbuf.Valid() && wbuf.readPos == 0 && !sock.closed
    ensures res == Ok ==> && idx' == idx + 1
                          && Progress(n, limit, idx', batchStart', ps, base, i0, sock.sent, wbuf.Pending(), pxs[..],
                                      sock.inbound, lines', sizes', sentAt')
                          && sock.readAt == r0 + Schedule(lines', sizes', sentAt')
    ensures res != Ok ==> && GetManyFailure(res)
                          && sock.sent <= base + RequestStream(ps[..n])
                          && SameCoordinates(ps, pxs[..])
  {
    lines', sizes', sentAt' := lines, sizes, sentAt;
    batchStart' := batchStart;
    var px := pxs[idx];
    assert px == ps[idx] by {
      assert pxs[..][batchStart..][idx - batchStart] == ps[batchStart..][idx - batchStart];
    }
    var cmd := GetCommand(px.x, px.y);
    GetCommandFits(px.x, px.y);
    RequestQueued(base, ps, idx, n);
    res := Enqueue(sock, wbuf, cmd, base + RequestStream(ps[..idx + 1]), base + RequestStream(ps[..n]));
    if res != Ok {
      CollectedCoordinates(pxs[..], ps, batchStart, lines);
      return res, idx, batchStart, lines, sizes, sentAt;
    }
    idx' := idx + 1;
    if limit > 0 && idx' == batchStart + limit {
      res, lines', sizes', sentAt' := EndBatch(sock, wbuf, pxs, batchStart, limit, n, ps, base, i0, r0, lines, sizes, sentAt);
      if res != Ok {
        return;
      }
      assert wbuf.Pending() == [];
      ProgressBatched(n, limit, idx, batchStart, ps, base, i0, sock.sent, pxs[..], sock.inbound, lines', sizes, sizes', sentAt');
      batchStart' := idx';
    } else {
      ProgressQueued(n, limit, idx, batchStart, ps, base, i0, old(sock.sent), old(wbuf.Pending()), sock.sent, wbuf.Pending(),
                     pxs[..], sock.inbound, lines, sizes, sentAt);
    }
  }

  /** A request queued inside a batch that is not yet full. */
  lemma ProgressQueued(n: nat, limit: nat, idx: nat, batchStart: nat, ps: seq<Pixel>, base: seq<Byte>, i0: seq<Byte>,
                       sent: seq<Byte>, pending: seq<Byte>, sent': seq<Byte>, pending': seq<Byte>, qs: seq<Pixel>,
                       inbound: seq<Byte>, lines: seq<seq<Byte>>, sizes: seq<nat>, sentAt: seq<nat>)
    requires Progress(n, limit, idx, batchStart, ps, base, i0, sent, pending, qs, inbound, lines, sizes, sentAt)
    requires idx < n && sent' + pending' == base + RequestStream(ps[..idx + 1])
    requires !(limit > 0 && idx + 1 == batchStart + limit)
    ensures Progress(n, limit, idx + 1, batchStart, ps, base, i0, sent', pending', qs, inbound, lines, sizes, sentAt)
  {
  }

  /** The request that fills a batch, once that batch is answered. */
  lemma ProgressBatched(n: nat, limit: nat, idx: nat, batchStart: nat, ps: seq<Pixel>, base: seq<Byte>, i0: seq<Byte>,
                        sent: seq<Byte>, qs: seq<Pixel>, inbound: seq<Byte>, lines: seq<seq<Byte>>,
                        sizes: seq<nat>, sizes': seq<nat>, sentAt: seq<nat>)
    requires batchStart <= idx < n <= |ps| && 0 < limit && idx + 1 == batchStart + limit
    requires Batches(n, limit) == sizes + Batches(n - batchStart, limit)
    requires sent == base + RequestStream(ps[..idx + 1]) && Collected(qs, ps, idx + 1, lines)
    requires i0 == JoinLines(lines) + inbound
    requires sizes' == sizes + [limit] && SentBefore(sizes', sentAt, |base|, ps) && Sum(sizes') == idx + 1
    ensures Progress(n, limit, idx + 1, idx + 1, ps, base, i0, sent, [], qs, inbound, lines, sizes', sentAt)
  {
    BatchesAfterFull(n, limit, batchStart, sizes);
    assert sent + [] == sent;
  }

  /** After the loop: the remaining requests form the last batch. */
  method LastBatch(sock: Socket, wbuf: Buffer, pxs: array<Pixel>, n: nat, limit: nat, batchStart: nat,
                   ghost ps: seq<Pixel>, ghost base: seq<Byte>, ghost i0: seq<Byte>, ghost r0: seq<nat>,
                   ghost lines: seq<seq<Byte>>, ghost sizes: seq<nat>, ghost sentAt: seq<nat>)
    returns (res: PfResult, ghost lines': seq<seq<Byte>>, ghost sizes': seq<nat>, ghost sentAt': seq<nat>)
    requires wbuf.Valid() && wbuf.readPos == 0 && !sock.closed
    requires Progress(n, limit, n, batchStart, ps, base, i0, sock.sent, wbuf.Pending(), pxs[..],
                      sock.inbound, lines, sizes, sentAt)
    requires sock.readAt == r0 + Schedule(lines, sizes, sentAt)
    modifies sock, wbuf, wbuf.data, pxs
    ensures !sock.closed
    ensures res == Ok ==> && sock.sent == base + RequestStream(ps[..n])
                          && i0 == JoinLines(lines') + sock.inbound
                          && Collected(pxs[..], ps, n, lines')
                          && sizes' == Batches(n, limit)
                          && SentBefore(sizes', sentAt', |base|, ps)
                          && sock.readAt == r0 + Schedule(lines', sizes', sentAt')
    ensures res != Ok ==> && GetManyFailure(res)
                          && sock.sent <= base + RequestStream(ps[..n])
                          && SameCoordinates(ps, pxs[..])
    ensures n == batchStart ==> res == Ok && unchanged(sock) && unchanged(pxs)
  {
    lines', sizes', sentAt' := lines, sizes, sentAt;
    res := Ok;
    BatchesFinish(n, limit, batchStart, sizes);
    if n > batchStart {
      res, lines', sizes', sentAt' := EndBatch(sock, wbuf, pxs, batchStart, n - batchStart, n, ps, base, i0, r0, lines, sizes, sentAt);
      if res != Ok {
        return;
      }
    } else {
      assert wbuf.Pending() == [];
    }
  }

  /** The end of batch `[start, start + count)` inside that loop: flush,
      receive, and account for the answers. */
  method EndBatch(sock: Socket, wbuf: Buffer, pxs: array<Pixel>, start: nat, count: nat, n: nat,
                  ghost ps: seq<Pixel>, ghost base: seq<Byte>, ghost i0: seq<Byte>, ghost r0: seq<nat>,
                  ghost lines: seq<seq<Byte>>, ghost sizes: seq<nat>, ghost sentAt: seq<nat>)
    returns (res: PfResult, ghost lines': seq<seq<Byte>>, ghost sizes': seq<nat>, ghost sentAt': seq<nat>)
    requires wbuf.Valid() && wbuf.readPos == 0 && !sock.closed
    requires 0 < count && start + count <= n <= pxs.Length
    requires Collected(pxs[..], ps, start, lines)
    requires sock.sent + wbuf.Pending() == base + RequestStream(ps[..start + count])
    requires i0 == JoinLines(lines) + sock.inbound
    requires SentBefore(sizes, sentAt, |base|, ps) && Sum(sizes) == start
    requires sock.readAt == r0 + Schedule(lines, sizes, sentAt)
    modifies sock, wbuf, wbuf.data, pxs
    ensures wbuf.Valid() && wbuf.readPos == 0 && !sock.closed
    ensures res == Ok ==> && wbuf.len == 0 && sock.sent == base + RequestStream(ps[..start + count])
                          && Collected(pxs[..], ps, start + count, lines')
                          && i0 == JoinLines(lines') + sock.inbound
                          && sizes' == sizes + [count]
                          && SentBefore(sizes', sentAt', |base|, ps) && Sum(sizes') == start + count
                          && sock.readAt == r0 + Schedule(lines', sizes', sentAt')
    ensures res != Ok ==> && GetManyFailure(res)
                          && sock.sent <= base + RequestStream(ps[..n])
                          && SameCoordinates(ps, pxs[..])
  {
    ghost var qs := pxs[..];
    assert qs[start..start + count] == pxs[start..start + count];
    ghost var queued := base + RequestStream(ps[..start + count]);
    assert sock.sent + wbuf.Pending() == queued;
    ghost var batch;
    ghost var mid := sock.inbound;
    ghost var marked := sock.readAt;
    res, batch := FinishBatch(sock, wbuf, pxs, start, count, wbuf.data);
    ghost var qs' := pxs[..];
    assert qs'[..start] == qs[..start] && qs'[start + count..] == qs[start + count..];
    assert qs'[start..start + count] == pxs[start..start + count];
    if res != Ok {
      BatchFails(sock.sent, base, ps, start, count, n, qs, qs', lines);
      lines', sizes', sentAt' := lines, sizes, sentAt;
      return;
    }
    lines', sizes', sentAt' := BatchDone(sock.sent, base, ps, start, count, qs, qs', lines, batch, sizes, sentAt);
    InboundAppend(i0, lines, batch, mid, sock.inbound);
    assert |batch| == count;
    BatchMarks(r0, marked, sock.readAt, lines, batch, sizes, sentAt, |sock.sent|);
  }

  /** The reply lines of one batch taken off the stream after those of the
      batches before. */
  lemma InboundAppend(i0: seq<Byte>, lines: seq<seq<Byte>>, batch: seq<seq<Byte>>, mid: seq<Byte>, after: seq<Byte>)
    requires i0 == JoinLines(lines) + mid && mid == JoinLines(batch) + after
    ensures i0 == JoinLines(lines + batch) + after
  {
    JoinLinesAppend(lines, batch);
  }

  /** What a failed batch leaves: the bytes written are some of the requests,
      and every pixel keeps its coordinates. */
  lemma BatchFails(sent: seq<Byte>, base: seq<Byte>, ps: seq<Pixel>, start: nat, count: nat, n: nat,
                   qs: seq<Pixel>, qs': seq<Pixel>, lines: seq<seq<Byte>>)
    requires start + count <= n <= |ps|
    requires sent <= base + RequestStream(ps[..start + count])
    requires Collected(qs, ps, start, lines) && |qs'| == |qs|
    requires qs'[..start] == qs[..start] && qs'[start + count..] == qs[start + count..]
    requires SameCoordinates(qs[start..start + count], qs'[start..start + count])
    ensures sent <= base + RequestStream(ps[..n])
    ensures SameCoordinates(ps, qs')
  {
    RequestStreamPrefix(ps, start + count, n);
    PrefixThrough(sent, base, RequestStream(ps[..start + count]), RequestStream(ps[..n]));
    CollectedFails(qs, qs', ps, start, count, lines);
  }

  /** What a batch answered adds: its lines, its size, and the bytes written
      when its answers were awaited. */
  lemma BatchDone(sent: seq<Byte>, base: seq<Byte>, ps: seq<Pixel>, start: nat, count: nat,
                  qs: seq<Pixel>, qs': seq<Pixel>, lines: seq<seq<Byte>>, batch: seq<seq<Byte>>,
                  sizes: seq<nat>, sentAt: seq<nat>)
    returns (lines': seq<seq<Byte>>, sizes': seq<nat>, sentAt': seq<nat>)
    requires start + count <= |ps|
    requires sent == base + RequestStream(ps[..start + count])
    requires Collected(qs, ps, start, lines) && |qs'| == |qs|
    requires qs'[..start] == qs[..start] && qs'[start + count..] == qs[start + count..]
    requires Coloured(qs[start..start + count], batch, qs'[start..start + count])
    requires SentBefore(sizes, sentAt, |base|, ps) && Sum(sizes) == start
    ensures lines' == lines + batch && sizes' == sizes + [count] && sentAt' == sentAt + [|sent|]
    ensures Collected(qs', ps, start + count, lines')
    ensures SentBefore(sizes', sentAt', |base|, ps) && Sum(sizes') == start + count
  {
    CollectedStep(qs, qs', ps, start, count, lines, batch);
    SentBeforeSnoc(sizes, sentAt, |base|, ps, count);
    lines', sizes', sentAt' := lines + batch, sizes + [count], sentAt + [|sent|];
  }

  /** The read requests of `pf_get_many` queued for pixels `0` to `i`:
      those of the pixels before, then pixel `i`'s, within those of all. */
  lemma RequestQueued(base: seq<Byte>, ps: seq<Pixel>, i: nat, n: nat)
    requires i < n <= |ps|
    ensures base + RequestStream(ps[..i]) + GetCommand(ps[i].x, ps[i].y) == base + RequestStream(ps[..i + 1])
    ensures base + RequestStream(ps[..i + 1]) <= base + RequestStream(ps[..n])
  {
    RequestStreamSnoc(ps, i);
    RequestStreamPrefix(ps, i + 1, n);
    PrefixThrough(base + RequestStream(ps[..i + 1]), base, RequestStream(ps[..i + 1]), RequestStream(ps[..n]));
  }

  /** The pixels `qs` of `pf_get_many`, started from `ps`, once the batches
      before `done` are answered by `lines`: those coloured, the rest as
      they were. */
  predicate Collected(qs: seq<Pixel>, ps: seq<Pixel>, done: nat, lines: seq<seq<Byte>>)
  {
    done <= |qs| == |ps| && qs[done..] == ps[done..] && Coloured(ps[..done], lines, qs[..done])
  }

  /** At the start nothing is answered. */
  lemma CollectedStart(ps: seq<Pixel>)
    ensures Collected(ps, ps, 0, [])
  {
  }

  /** A batch answered after the ones before. */
  lemma CollectedStep(qs: seq<Pixel>, qs': seq<Pixel>, ps: seq<Pixel>, start: nat, count: nat,
                      lines: seq<seq<Byte>>, batch: seq<seq<Byte>>)
    requires Collected(qs, ps, start, lines) && start + count <= |qs| == |qs'|
    requires qs'[..start] == qs[..start] && qs'[start + count..] == qs[start + count..]
    requires Coloured(qs[start..start + count], batch, qs'[start..start + count])
    ensures Collected(qs', ps, start + count, lines + batch)
  {
    assert qs[start..start + count] == ps[start..start + count];
    ColouredConcat(ps[..start], lines, qs'[..start], ps[start..start + count], batch, qs'[start..start + count]);
    assert ps[..start] + ps[start..start + count] == ps[..start + count];
    assert qs'[..start] + qs'[start..start + count] == qs'[..start + count];
    assert qs'[start + count..] == ps[start + count..];
  }

  /** A failed batch keeps every coordinate. */
  lemma CollectedFails(qs: seq<Pixel>, qs': seq<Pixel>, ps: seq<Pixel>, start: nat, count: nat, lines: seq<seq<Byte>>)
    requires Collected(qs, ps, start, lines) && start + count <= |qs| == |qs'|
    requires qs'[..start] == qs[..start] && qs'[start + count..] == qs[start + count..]
    requires SameCoordinates(qs[start..start + count], qs'[start..start + count])
    ensures SameCoordinates(ps, qs')
  {
    assert qs[start..start + count] == ps[start..start + count];
    ColouredSameCoordinates(ps[..start], lines, qs'[..start]);
    SameCoordinatesConcat(ps[..start], qs'[..start], ps[start..start + count], qs'[start..start + count]);
    SameCoordinatesConcat(ps[..start + count], qs'[..start + count], ps[start + count..], qs'[start + count..]);
    assert ps[..start] + ps[start..start + count] == ps[..start + count];
    assert qs'[..start] + qs'[start..start + count] == qs'[..start + count];
    assert ps[..start + count] + ps[start + count..] == ps;
    assert qs'[..start + count] + qs'[start + count..] == qs';
  }

  /** A failure before the batch ends keeps every coordinate too. */
  lemma CollectedCoordinates(qs: seq<Pixel>, ps: seq<Pixel>, done: nat, lines: seq<seq<Byte>>)
    requires Collected(qs, ps, done, lines)
    ensures SameCoordinates(ps, qs)
  {
    ColouredSameCoordinates(ps[..done], lines, qs[..done]);
    SameCoordinatesConcat(ps[..done], qs[..done], ps[done..], qs[done..]);
    assert ps[..done] + ps[done..] == ps;
    assert qs[..done] + qs[done..] == qs;
  }

  /** For each batch answered, `sentAt` is how many bytes had been written
      when its answers were awaited: exactly the requests up to the end of
      that batch, none beyond. */
  predicate SentBefore(sizes: seq<nat>, sentAt: seq<nat>, base: nat, ps: seq<Pixel>)
  {
    && |sentAt| == |sizes|
    && forall k :: 0 <= k < |sizes| ==>
         BatchEnd(sizes, k) <= |ps| && sentAt[k] == base + |RequestStream(ps[..BatchEnd(sizes, k)])|
  }

  /** The marks the reads of `pf_get_many` leave when its batches, of the
      sizes `sizes`, are answered by `lines` while `sentAt` bytes had been
      written: batch after batch, one mark for each byte of its reply lines,
      all saying what had been written when that batch was awaited. */
  ghost function Schedule(lines: seq<seq<Byte>>, sizes: seq<nat>, sentAt: seq<nat>): seq<nat>
    requires |sentAt| == |sizes|
    decreases |sizes|
  {
    if sizes == [] then []
    else
      var m := |sizes| - 1;
      var start := if sizes[m] <= |lines| then |lines| - sizes[m] else 0;
      Schedule(lines[..start], sizes[..m], sentAt[..m]) + Marks(sentAt[m], |JoinLines(lines[start..])|)
  }

  /** The reads of one more batch, after those of the batches before. */
  lemma BatchMarks(r0: seq<nat>, mid: seq<nat>, readAt: seq<nat>, lines: seq<seq<Byte>>, batch: seq<seq<Byte>>,
                   sizes: seq<nat>, sentAt: seq<nat>, at: nat)
    requires |sentAt| == |sizes|
    requires mid == r0 + Schedule(lines, sizes, sentAt) && readAt == mid + Marks(at, |JoinLines(batch)|)
    ensures readAt == r0 + Schedule(lines + batch, sizes + [|batch|], sentAt + [at])
  {
    ScheduleSnoc(lines, batch, sizes, sentAt, at);
  }

  /** One more batch answered. */
  lemma ScheduleSnoc(lines: seq<seq<Byte>>, batch: seq<seq<Byte>>, sizes: seq<nat>, sentAt: seq<nat>, at: nat)
    requires |sentAt| == |sizes|
    ensures Schedule(lines + batch, sizes + [|batch|], sentAt + [at])
            == Schedule(lines, sizes, sentAt) + Marks(at, |JoinLines(batch)|)
  {
    var all := lines + batch;
    assert all[..|lines|] == lines && all[|lines|..] == batch;
    assert (sizes + [|batch|])[..|sizes|] == sizes && (sentAt + [at])[..|sizes|] == sentAt;
  }

  /** The marks cover the reply lines byte for byte. */
  lemma {:induction false} ScheduleLength(lines: seq<seq<Byte>>, sizes: seq<nat>, sentAt: seq<nat>)
    requires |sentAt| == |sizes| && |lines| == Sum(sizes)
    ensures |Schedule(lines, sizes, sentAt)| == |JoinLines(lines)|
    decreases |sizes|
  {
    if sizes != [] {
      var m := |sizes| - 1;
      assert sizes == sizes[..m] + [sizes[m]];
      SumSnoc(sizes[..m], sizes[m]);
      var start := |lines| - sizes[m];
      ScheduleLength(lines[..start], sizes[..m], sentAt[..m]);
      assert lines[..start] + lines[start..] == lines;
      JoinLinesAppend(lines[..start], lines[start..]);
    }
  }

  /** Batch `k` through `Schedule`: the bytes of its reply lines, which come
      after those of the batches before it, were all read while `sentAt[k]`
      bytes had been written. */
  lemma {:induction false} ScheduleBatch(lines: seq<seq<Byte>>, sizes: seq<nat>, sentAt: seq<nat>, k: nat)
    requires |sentAt| == |sizes| && |lines| == Sum(sizes) && k < |sizes|
    ensures sizes[k] <= BatchEnd(sizes, k) <= |lines|
    ensures BatchMarked(lines, BatchEnd(sizes, k) - sizes[k], BatchEnd(sizes, k), Schedule(lines, sizes, sentAt), sentAt[k])
    decreases |sizes|
  {
    var m := |sizes| - 1;
    var start := ScheduleSplit(lines, sizes, sentAt);
    BatchEndSplit(sizes, k);
    var prior := Schedule(lines[..start], sizes[..m], sentAt[..m]);
    if k < m {
      ScheduleBatch(lines[..start], sizes[..m], sentAt[..m], k);
      BatchMarkedPrefix(lines, start, BatchEnd(sizes, k) - sizes[k], BatchEnd(sizes, k), prior,
                        Marks(sentAt[m], |JoinLines(lines[start..])|), sentAt[k]);
    } else {
      BatchMarkedLast(lines, start, prior, sentAt[m]);
    }
  }

  /** The bytes of `lines[lo..hi]`, which follow those of `lines[..lo]`, all
      carry the mark `at` in `marks`. */
  ghost predicate BatchMarked(lines: seq<seq<Byte>>, lo: nat, hi: nat, marks: seq<nat>, at: nat)
    requires lo <= hi <= |lines|
  {
    && |JoinLines(lines[..lo])| <= |JoinLines(lines[..hi])| <= |marks|
    && forall j :: |JoinLines(lines[..lo])| <= j < |JoinLines(lines[..hi])| ==> marks[j] == at
  }

  /** A batch marked among the batches before the last stays marked. */
  lemma BatchMarkedPrefix(lines: seq<seq<Byte>>, start: nat, lo: nat, hi: nat, prior: seq<nat>, last: seq<nat>, at: nat)
    requires lo <= hi <= start <= |lines|
    requires BatchMarked(lines[..start], lo, hi, prior, at)
    ensures BatchMarked(lines, lo, hi, prior + last, at)
  {
    assert lines[..start][..lo] == lines[..lo] && lines[..start][..hi] == lines[..hi];
    var all := prior + last;
    forall j | |JoinLines(lines[..lo])| <= j < |JoinLines(lines[..hi])|
      ensures all[j] == at
    {
      assert all[j] == prior[j];
    }
  }

  /** The last batch carries the marks after those of the batches before. */
  lemma BatchMarkedLast(lines: seq<seq<Byte>>, start: nat, prior: seq<nat>, at: nat)
    requires start <= |lines| && |prior| == |JoinLines(lines[..start])|
    requires |JoinLines(lines)| == |prior| + |JoinLines(lines[start..])|
    ensures BatchMarked(lines, start, |lines|, prior + Marks(at, |JoinLines(lines[start..])|), at)
  {
    assert lines[..|lines|] == lines;
    var all := prior + Marks(at, |JoinLines(lines[start..])|);
    forall j | |JoinLines(lines[..start])| <= j < |JoinLines(lines)|
      ensures all[j] == at
    {
      assert all[j] == Marks(at, |JoinLines(lines[start..])|)[j - |prior|];
    }
  }

  /** `Schedule` of a non-empty list of batches is that of the batches before
      the last one, in front of the marks of the last. */
  lemma ScheduleSplit(lines: seq<seq<Byte>>, sizes: seq<nat>, sentAt: seq<nat>) returns (start: nat)
    requires |sentAt| == |sizes| && |lines| == Sum(sizes) && sizes != []
    ensures start + sizes[|sizes| - 1] == |lines| && Sum(sizes[..|sizes| - 1]) == start
    ensures var prior := Schedule(lines[..start], sizes[..|sizes| - 1], sentAt[..|sizes| - 1]);
            && Schedule(lines, sizes, sentAt) == prior + Marks(sentAt[|sizes| - 1], |JoinLines(lines[start..])|)
            && |prior| == |JoinLines(lines[..start])|
            && |JoinLines(lines)| == |prior| + |JoinLines(lines[start..])|
  {
    var m := |sizes| - 1;
    assert sizes == sizes[..m] + [sizes[m]];
    SumSnoc(sizes[..m], sizes[m]);
    start := |lines| - sizes[m];
    ScheduleLength(lines[..start], sizes[..m], sentAt[..m]);
    assert lines[..start] + lines[start..] == lines;
    JoinLinesAppend(lines[..start], lines[start..]);
  }

  /** Where batch `k` starts and ends, also among the batches before the last. */
  lemma BatchEndSplit(sizes: seq<nat>, k: nat)
    requires k < |sizes|
    ensures BatchEnd(sizes, k) == Sum(sizes[..k]) + sizes[k]
    ensures k == |sizes| - 1 ==> BatchEnd(sizes, k) == Sum(sizes)
    ensures k < |sizes| - 1 ==> BatchEnd(sizes[..|sizes| - 1], k) == BatchEnd(sizes, k)
  {
    var upTo := sizes[..k + 1];
    assert upTo == sizes[..k] + [sizes[k]];
    SumSnoc(sizes[..k], sizes[k]);
    if k == |sizes| - 1 {
      assert upTo == sizes;
    } else {
      assert sizes[..|sizes| - 1][..k + 1] == upTo;
    }
  }

  /** What the reads of a successful `pf_get_many` record: every byte of the
      replies to batch `k` was read when exactly the requests up to the end
      of that batch had been written, none of a later batch. */
  lemma ReadsFollowRequests(lines: seq<seq<Byte>>, sizes: seq<nat>, sentAt: seq<nat>, base: nat, ps: seq<Pixel>, k: nat)
    requires SentBefore(sizes, sentAt, base, ps) && |lines| == Sum(sizes) && k < |sizes|
    ensures sizes[k] <= BatchEnd(sizes, k) <= |lines|
    ensures var lo := |JoinLines(lines[..BatchEnd(sizes, k) - sizes[k]])|;
            var hi := |JoinLines(lines[..BatchEnd(sizes, k)])|;
            && lo <= hi <= |Schedule(lines, sizes, sentAt)|
            && forall j :: lo <= j < hi ==>
                 Schedule(lines, sizes, sentAt)[j] == base + |RequestStream(ps[..BatchEnd(sizes, k)])|
  {
    ScheduleBatch(lines, sizes, sentAt, k);
  }

  /** One more batch awaited. */
  lemma SentBeforeSnoc(sizes: seq<nat>, sentAt: seq<nat>, base: nat, ps: seq<Pixel>, count: nat)
    requires SentBefore(sizes, sentAt, base, ps) && Sum(sizes) + count <= |ps|
    ensures SentBefore(sizes + [count], sentAt + [base + |RequestStream(ps[..Sum(sizes) + count])|], base, ps)
    ensures Sum(sizes + [count]) == Sum(sizes) + count
  {
    SumSnoc(sizes, count);
    var sizes' := sizes + [count];
    forall k | 0 <= k < |sizes|
      ensures BatchEnd(sizes', k) == BatchEnd(sizes, k)
    {
      assert sizes'[..k + 1] == sizes[..k + 1];
    }
    assert sizes'[..|sizes| + 1] == sizes';
  }

  /** Prefixes chain. */
  lemma PrefixThrough(s: seq<Byte>, base: seq<Byte>, a: seq<Byte>, b: seq<Byte>)
    requires s <= base + a && a <= b
    ensures s <= base + b
  {
    assert (base + b)[..|base + a|] == base + a;
  }

  /** `pf_disconnect`: a NULL connection is ignored. */
  method Disconnect(conn: Conn?)
    requires conn != null ==> conn.Valid()
    modifies if conn == null then {} else {conn, conn.sock}
    ensures conn != null ==> conn.Valid() && !conn.IsOpen() && conn.sock == old(conn.sock)
    ensures conn != null && old(conn.IsOpen()) ==> conn.sock.closed
  {
    if conn != null {
      conn.DoClose();
    }
  }
}
