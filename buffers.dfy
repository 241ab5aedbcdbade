/**
 * The buffer layer: `struct pf_buf` over caller storage, and the procedures
 * that move bytes between a buffer and the socket (`write_all`, `do_flush`,
 * `add_to_buffer`, `line_advance`, `get_single_line`). Each is proved
 * against the function in `Framing` that says what it computes.
 */
module Buffers {
  import opened Types
  import opened Wire
  import opened Env
  import opened Framing

  /** `write_all`: the whole of `bytes` goes out in as many write(2) calls as
      the peer needs, or the first failing call decides the result. */
  method WriteAll(sock: Socket, bytes: seq<Byte>) returns (res: PfResult)
    requires !sock.closed
    modifies sock
    ensures var t := Transmit(bytes, old(sock.writeSteps));
            && res == t.res && sock.writeSteps == t.script
            && sock.sent == old(sock.sent) + bytes[..t.sent]
    ensures sock.inbound == old(sock.inbound) && sock.readSteps == old(sock.readSteps)
    ensures sock.readAt == old(sock.readAt)
    ensures !sock.closed
  {
    ghost var t0 := Transmit(bytes, sock.writeSteps);
    var written := 0;
    while written < |bytes|
      invariant 0 <= written <= |bytes| && !sock.closed
      invariant var t := Transmit(bytes[written..], sock.writeSteps);
                t.res == t0.res && t.script == t0.script && written + t.sent == t0.sent
      invariant sock.sent == old(sock.sent) + bytes[..written]
      invariant sock.inbound == old(sock.inbound) && sock.readSteps == old(sock.readSteps)
      invariant sock.readAt == old(sock.readAt)
    {
      ghost var script := sock.writeSteps;
      var status := sock.Write(bytes[written..]);
      TransmitStep(bytes, written, script, status, sock.writeSteps);
      if status == -1 {
        return SysWrite;
      } else if status == 0 {
        return SysWriteReturnedZero;
      }
      SentStep(old(sock.sent), bytes, written, status);
      written := written + status;
    }
    res := Ok;
  }

  /** What one write(2) of the bytes left means for the rest of
      `write_all`: a failure or a zero return decides it, and a write that
      takes `status` bytes leaves the rest to the bytes after them. */
  lemma TransmitStep(bytes: seq<Byte>, written: nat, script: seq<WriteStep>, status: int, script': seq<WriteStep>)
    requires written < |bytes|
    requires WriteCall(script, |bytes| - written) == WriteOutcome(status, script')
    ensures status == -1 ==> Transmit(bytes[written..], script) == Transmitted(SysWrite, 0, script')
    ensures status == 0 ==> Transmit(bytes[written..], script) == Transmitted(SysWriteReturnedZero, 0, script')
    ensures status > 0 ==> written + status <= |bytes|
    ensures status > 0 ==>
              var t, t' := Transmit(bytes[written..], script), Transmit(bytes[written + status..], script');
              t.res == t'.res && t.script == t'.script && t.sent == status + t'.sent
  {
    assert Transmit(bytes[written..], script) == TransmitPass(bytes[written..], script);
    if status > 0 {
      assert bytes[written..][status..] == bytes[written + status..];
    }
  }

  /** The bytes written so far, `status` more of them. */
  lemma SentStep(s0: seq<Byte>, bytes: seq<Byte>, written: nat, status: nat)
    requires written + status <= |bytes|
    ensures s0 + bytes[..written] + bytes[written..][..status] == s0 + bytes[..written + status]
  {
    assert bytes[..written + status] == bytes[..written] + bytes[written..][..status];
  }

  /** `struct pf_buf`: `len` bytes of `data` are in use, of which those from
      `readPos` on are not yet consumed; `cap` bytes of `data` belong to it. */
  class Buffer {
    var len: nat
    const cap: nat
    var readPos: nat
    const data: array<Byte>

    /** `BUF_VALID` (the pointer checks hold by typing). */
    predicate Valid()
      reads this
    {
      MinBufferSize <= cap <= data.Length && readPos <= len <= cap
    }

    /** The bytes received but not yet returned as lines. */
    function Unread(): seq<Byte>
      requires Valid()
      reads this, data
    {
      data[readPos..len]
    }

    /** The bytes queued for the next flush. */
    function Pending(): seq<Byte>
      requires Valid()
      reads this, data
    {
      data[..len]
    }

    /** A buffer of capacity `size` over `storage`, empty. */
    constructor (storage: array<Byte>, size: nat)
      requires MinBufferSize <= size <= storage.Length
      ensures Valid() && data == storage && cap == size && len == 0 && readPos == 0
    {
      data, cap := storage, size;
      len, readPos := 0, 0;
    }

    /** The `memmove` in `line_advance`: the unread bytes move to the front. */
    method Compact()
      requires Valid()
      modifies this, data
      ensures Valid() && readPos == 0 && len == old(len) - old(readPos)
      ensures data[..len] == old(data[readPos..len])
      ensures forall i :: len <= i < data.Length ==> data[i] == old(data[i])
    {
      var n := len - readPos;
      var j := 0;
      while j < n
        modifies data
        invariant 0 <= j <= n
        invariant forall i :: 0 <= i < j ==> data[i] == old(data[readPos + i])
        invariant forall i :: j <= i < data.Length ==> data[i] == old(data[i])
      {
        data[j] := data[readPos + j];
        j := j + 1;
      }
      len, readPos := n, 0;
    }
    /** The `memcpy` in `add_to_buffer`: `bytes` are queued after the
        pending ones, in the free space. */
    method Append(bytes: seq<Byte>)
      requires Valid() && len + |bytes| <= cap
      modifies this, data
      ensures Valid() && readPos == old(readPos) && len == old(len) + |bytes|
      ensures Pending() == old(Pending()) + bytes
      ensures forall i :: len <= i < data.Length ==> data[i] == old(data[i])
    {
      var j := 0;
      while j < |bytes|
        modifies data
        invariant 0 <= j <= |bytes|
        invariant data[..len] == old(data[..len])
        invariant forall i :: len <= i < len + j ==> data[i] == bytes[i - len]
        invariant forall i :: len + j <= i < data.Length ==> data[i] == old(data[i])
      {
        data[len + j] := bytes[j];
        j := j + 1;
      }
      assert data[..len + |bytes|] == data[..len] + bytes;
      len := len + |bytes|;
    }
  }

  /** `do_flush`: write the queued bytes; on success the buffer is empty.
      Only buffers never read from are flushed, so `readPos` is 0. */
  method DoFlush(sock: Socket, buf: Buffer) returns (res: PfResult)
    requires buf.Valid() && buf.readPos == 0 && !sock.closed
    modifies sock, buf
    ensures buf.Valid() && buf.readPos == 0
    ensures var t := Transmit(old(buf.Pending()), old(sock.writeSteps));
            && res == t.res && sock.writeSteps == t.script
            && sock.sent == old(sock.sent) + old(buf.Pending())[..t.sent]
            && buf.len == if res == Ok then 0 else old(buf.len)
    ensures res == Ok ==> sock.sent == old(sock.sent) + old(buf.Pending())
    ensures sock.sent <= old(sock.sent) + old(buf.Pending())
    ensures Cooperative(old(sock.writeSteps)) ==> res == Ok && Cooperative(sock.writeSteps)
    ensures sock.inbound == old(sock.inbound) && sock.readSteps == old(sock.readSteps)
    ensures sock.readAt == old(sock.readAt)
    ensures !sock.closed
  {
    if Cooperative(sock.writeSteps) {
      CooperativePeerTakesAll(buf.data[..buf.len], sock.writeSteps);
    }
    res := WriteAll(sock, buf.data[..buf.len]);
    PrefixOfSlice(old(sock.sent), old(buf.Pending()), Transmit(old(buf.Pending()), old(sock.writeSteps)).sent);
    if res == Ok {
      assert buf.data[..buf.len][..buf.len] == buf.data[..buf.len];
      buf.len := 0;
    }
  }

  /** Part of a byte string, after a common start, is a prefix of the whole. */
  lemma PrefixOfSlice(a: seq<Byte>, b: seq<Byte>, k: nat)
    requires k <= |b|
    ensures a + b[..k] <= a + b
  {
    assert (a + b)[..|a| + k] == a + b[..k];
  }

  /** `add_to_buffer`: queue `bytes`, flushing first if they do not fit in
      the space left. */
  method AddToBuffer(sock: Socket, buf: Buffer, bytes: seq<Byte>) returns (res: PfResult)
    requires buf.Valid() && buf.readPos == 0 && !sock.closed
    requires 0 < |bytes| <= buf.cap
    modifies sock, buf, buf.data
    ensures buf.Valid() && buf.readPos == 0
    ensures old(buf.cap - buf.len) >= |bytes| ==>
              && res == Ok && buf.Pending() == old(buf.Pending()) + bytes
              && sock.writeSteps == old(sock.writeSteps) && sock.sent == old(sock.sent)
    ensures old(buf.cap - buf.len) < |bytes| ==>
              var t := Transmit(old(buf.Pending()), old(sock.writeSteps));
              && res == t.res && sock.writeSteps == t.script
              && sock.sent == old(sock.sent) + old(buf.Pending())[..t.sent]
              && (res == Ok ==> buf.Pending() == bytes)
              && (res != Ok ==> buf.Pending() == old(buf.Pending()))
    ensures res == Ok ==> sock.sent + buf.Pending() == old(sock.sent + buf.Pending()) + bytes
    ensures res != Ok ==> sock.sent <= old(sock.sent + buf.Pending())
    ensures Cooperative(old(sock.writeSteps)) ==> res == Ok && Cooperative(sock.writeSteps)
    ensures forall i :: buf.len <= i < buf.data.Length ==> buf.data[i] == old(buf.data[i])
    ensures sock.inbound == old(sock.inbound) && sock.readSteps == old(sock.readSteps)
    ensures sock.readAt == old(sock.readAt)
    ensures !sock.closed
  {
    if buf.cap - buf.len < |bytes| {
      res := DoFlush(sock, buf);
      if res != Ok {
        return;
      }
    }
    ghost var before := buf.Pending();
    buf.Append(bytes);
    assert sock.sent + buf.Pending() == (sock.sent + before) + bytes;
    res := Ok;
  }

  /** The scan of `line_advance`: from offset `from` of the unread bytes,
      where no terminator precedes, to the first terminator or the end. */
  method FindNewline(buf: Buffer, from: nat) returns (k: nat)
    requires buf.Valid() && from <= FirstNewline(buf.Unread())
    ensures k == FirstNewline(buf.Unread())
  {
    ghost var u := buf.Unread();
    var i := buf.readPos + from;
    while i < buf.len && buf.data[i] != Newline
      invariant buf.readPos + from <= i <= buf.len
      invariant forall j :: 0 <= j < i - buf.readPos ==> u[j] != Newline
    {
      assert u[i - buf.readPos] == buf.data[i];
      i := i + 1;
    }
    k := i - buf.readPos;
    FirstNewlineAt(u, k);
  }

  /** The tail of the loop in `line_advance`: move the unread bytes to the
      front, then read(2) into all the free space after them. */
  method Refill(sock: Socket, buf: Buffer) returns (status: int, ghost got: seq<Byte>)
    requires buf.Valid() && !sock.closed
    modifies sock, buf, buf.data
    ensures buf.Valid() && buf.readPos == 0
    ensures var o := ReadCall(old(sock.inbound), old(sock.readSteps), buf.cap - |old(buf.Unread())|);
            && status == o.status && got == o.got
            && sock.inbound == o.inbound && sock.readSteps == o.steps
    ensures buf.Unread() == old(buf.Unread()) + got
    ensures status <= 0 ==> buf.Unread() == old(buf.Unread())
    ensures !sock.closed && sock.writeSteps == old(sock.writeSteps) && sock.sent == old(sock.sent)
    ensures ReadsWhile(old(sock.readAt), old(sock.inbound), sock.readAt, sock.inbound, |sock.sent|)
  {
    ghost var u := buf.Unread();
    buf.Compact();
    assert buf.Unread() == u;
    got := ReadCall(sock.inbound, sock.readSteps, buf.cap - buf.len).got;
    status := sock.Read(buf.data, buf.len, buf.cap - buf.len);
    assert ReadsWhile(old(sock.readAt), old(sock.inbound), sock.readAt, sock.inbound, |sock.sent|);
    if status > 0 {
      buf.len := buf.len + status;
      assert buf.Unread() == u + got;
    } else {
      assert buf.Unread() == u + got;
    }
  }

  /** The end of `line_advance` when a terminator is found at `i`: the line
      runs from the read position to `i`, and reading resumes after it. */
  method TakeLine(buf: Buffer, i: nat) returns (lineStart: nat)
    requires buf.Valid() && buf.readPos <= i < buf.len
    modifies buf
    ensures buf.Valid() && lineStart == old(buf.readPos) && buf.readPos == i + 1 && buf.len == old(buf.len)
    ensures buf.Unread() == old(buf.Unread())[i + 1 - lineStart..]
    ensures buf.data[lineStart..i] == old(buf.Unread())[..i - lineStart]
  {
    ghost var u := buf.Unread();
    lineStart := buf.readPos;
    buf.readPos := i + 1;
    assert u == buf.data[lineStart..buf.len];
    assert u[i + 1 - lineStart..] == buf.data[i + 1..buf.len] == buf.Unread();
    forall k | 0 <= k < i - lineStart
      ensures u[..i - lineStart][k] == buf.data[lineStart..i][k]
    {
      assert u[k] == buf.data[lineStart + k];
    }
    assert u[..i - lineStart] == buf.data[lineStart..i];
  }

  /** The read in one pass of the loop in `line_advance`, once the unread
      bytes are known to hold no terminator and to be few enough to wait for
      one: either the search stops with the read's failure, or it goes on
      over more bytes. */
  method ReadPass(sock: Socket, buf: Buffer) returns (status: int)
    requires buf.Valid() && !sock.closed
    requires FirstNewline(buf.Unread()) == |buf.Unread()| <= MinBufferSize
    modifies sock, buf, buf.data
    ensures buf.Valid() && !sock.closed && sock.writeSteps == old(sock.writeSteps) && sock.sent == old(sock.sent)
    ensures ReadsWhile(old(sock.readAt), old(sock.inbound), sock.readAt, sock.inbound, |sock.sent|)
    ensures status <= 0 ==>
              old(Advance(buf.Unread(), buf.cap, sock.inbound, sock.readSteps))
              == Framed(if status == -1 then SysRead else SysReadReturnedZero, [],
                        buf.Unread(), sock.inbound, sock.readSteps)
    ensures status > 0 ==>
              && Advance(buf.Unread(), buf.cap, sock.inbound, sock.readSteps)
                 == old(Advance(buf.Unread(), buf.cap, sock.inbound, sock.readSteps))
              && old(|buf.Unread()|) < |buf.Unread()| && old(|buf.Unread()|) <= FirstNewline(buf.Unread())
              && buf.readPos == 0
  {
    ghost var held, inbound, steps := buf.Unread(), sock.inbound, sock.readSteps;
    ghost var got;
    status, got := Refill(sock, buf);
    if status <= 0 {
      AdvanceReadFails(held, buf.cap, inbound, steps);
    } else {
      AdvanceReadStep(held, buf.cap, inbound, steps);
      FirstNewlineExtends(held, got);
    }
  }

  /** One pass of the loop in `line_advance`, resuming the search at
      `searched`. Either it decides the result (`done`) or it has read more
      bytes, after which the search goes on from `next`. */
  method AdvancePass(sock: Socket, buf: Buffer, searched: nat)
    returns (done: bool, res: PfResult, lineStart: nat, next: nat, ghost line: seq<Byte>)
    requires buf.Valid() && !sock.closed && searched <= FirstNewline(buf.Unread())
    modifies sock, buf, buf.data
    ensures buf.Valid() && !sock.closed && sock.writeSteps == old(sock.writeSteps) && sock.sent == old(sock.sent)
    ensures ReadsWhile(old(sock.readAt), old(sock.inbound), sock.readAt, sock.inbound, |sock.sent|)
    ensures done ==>
              && old(Advance(buf.Unread(), buf.cap, sock.inbound, sock.readSteps))
                 == Framed(res, line, buf.Unread(), sock.inbound, sock.readSteps)
              && (res == Ok ==> && lineStart == old(buf.readPos)
                                && lineStart + |line| + 1 == buf.readPos
                                && buf.data[lineStart..buf.readPos - 1] == line
                                && buf.data[buf.readPos - 1] == Newline)
    ensures !done ==>
              && Advance(buf.Unread(), buf.cap, sock.inbound, sock.readSteps)
                 == old(Advance(buf.Unread(), buf.cap, sock.inbound, sock.readSteps))
              && old(|buf.Unread()|) < |buf.Unread()| && next <= FirstNewline(buf.Unread())
              && buf.readPos == 0
  {
    ghost var held := buf.Unread();
    var k := FindNewline(buf, searched);
    if buf.readPos + k < buf.len {
      AdvanceFound(held, buf.cap, sock.inbound, sock.readSteps);
      lineStart := TakeLine(buf, buf.readPos + k);
      return true, Ok, lineStart, 0, held[..k];
    }
    next := buf.len - buf.readPos;
    if next > MinBufferSize {
      AdvanceTooLong(held, buf.cap, sock.inbound, sock.readSteps);
      return true, ProtocolError, 0, next, [];
    }
    var status := ReadPass(sock, buf);
    if status <= 0 {
      res := if status == -1 then SysRead else SysReadReturnedZero;
      return true, res, 0, next, [];
    }
    done, res, lineStart, line := false, Ok, 0, [];
  }

  /** `line_advance`: return the next line held in `buf`, reading from the
      socket as needed; the bytes read are taken from the front of what the
      peer has sent. On success the line is `data[lineStart..readPos - 1]`,
      its terminator is at `readPos - 1`, and it starts either where the
      unread bytes started or, after compaction, at the front. */
  method LineAdvance(sock: Socket, buf: Buffer) returns (res: PfResult, lineStart: nat, ghost line: seq<Byte>)
    requires buf.Valid() && !sock.closed
    modifies sock, buf, buf.data
    ensures buf.Valid() && !sock.closed && sock.writeSteps == old(sock.writeSteps) && sock.sent == old(sock.sent)
    ensures ReadsWhile(old(sock.readAt), old(sock.inbound), sock.readAt, sock.inbound, |sock.sent|)
    ensures Advance(old(buf.Unread()), buf.cap, old(sock.inbound), old(sock.readSteps))
            == Framed(res, line, buf.Unread(), sock.inbound, sock.readSteps)
    ensures res == Ok ==> && lineStart + |line| + 1 == buf.readPos
                          && buf.data[lineStart..buf.readPos - 1] == line
                          && buf.data[buf.readPos - 1] == Newline
                          && (lineStart == 0 || lineStart == old(buf.readPos))
  {
    ghost var f0 := Advance(buf.Unread(), buf.cap, sock.inbound, sock.readSteps);
    ghost var rp0 := buf.readPos;
    var searched: nat := 0;
    while true
      invariant buf.Valid() && !sock.closed && sock.writeSteps == old(sock.writeSteps) && sock.sent == old(sock.sent)
      invariant ReadsWhile(old(sock.readAt), old(sock.inbound), sock.readAt, sock.inbound, |sock.sent|)
      invariant Advance(buf.Unread(), buf.cap, sock.inbound, sock.readSteps) == f0
      invariant searched <= FirstNewline(buf.Unread())
      invariant buf.readPos == 0 || buf.readPos == rp0
      decreases buf.cap - |buf.Unread()|
    {
      var done;
      ghost var r1, i1 := sock.readAt, sock.inbound;
      done, res, lineStart, searched, line := AdvancePass(sock, buf, searched);
      ReadsWhileChain(old(sock.readAt), old(sock.inbound), r1, i1, sock.readAt, sock.inbound, |sock.sent|);
      if done {
        return;
      }
    }
  }

  /** `get_single_line`: read one reply line into the scratch array of the
      minimum size; a byte received after it is `ReadTooMuch`. On success the
      line starts at the front of the array and exactly the line and its
      terminator have been read. */
  method GetSingleLine(sock: Socket, storage: array<Byte>) returns (res: PfResult, line: seq<Byte>)
    requires MinBufferSize <= storage.Length && !sock.closed
    modifies sock, storage
    ensures SingleLine(old(sock.inbound), old(sock.readSteps)) == Replied(res, line, sock.inbound, sock.readSteps)
    ensures res == Ok ==> && storage[..|line|] == line && storage[|line|] == Newline
                          && old(sock.inbound) == line + [Newline] + sock.inbound
    ensures !sock.closed && sock.writeSteps == old(sock.writeSteps) && sock.sent == old(sock.sent)
    ensures ReadsWhile(old(sock.readAt), old(sock.inbound), sock.readAt, sock.inbound, |sock.sent|)
  {
    var buf := new Buffer(storage, MinBufferSize);
    assert buf.Unread() == [];
    var lineStart;
    ghost var framed;
    res, lineStart, framed := LineAdvance(sock, buf);
    if res != Ok {
      return res, [];
    }
    line := storage[lineStart..buf.readPos - 1];
    if buf.readPos < buf.len {
      return ReadTooMuch, line;
    }
    SingleLineExact(old(sock.inbound), old(sock.readSteps));
  }
}
