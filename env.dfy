/**
 * The peer behind a connected socket, as the library sees it through
 * write(2), read(2) and close(2). The bytes the peer sends form one stream;
 * how each call behaves (short writes and reads, errors, shutdown, one byte
 * at a time) is taken from a list of steps fixed in advance, so every
 * behaviour a real peer can show is one choice of stream and steps.
 */
module Env {
  import opened Types

  /** What the peer does with the next write(2): fail (-1), or take at most
      `limit` bytes of the request (with `limit == 0` the call returns 0). */
  datatype WriteStep = WriteError | Accept(limit: nat)

  /** How the next read(2) behaves: it fails (-1), or it returns at most
      `limit` of the bytes the peer has sent and the library has not yet
      read. With nothing left to read (or `limit == 0`) the call returns 0,
      as after an orderly shutdown. */
  datatype ReadStep = ReadError | Deliver(limit: nat)

  function Min(a: nat, b: nat): nat {
    if a <= b then a else b
  }

  datatype WriteOutcome = WriteOutcome(status: int, script: seq<WriteStep>)

  /** write(2) of `count` bytes: the status it returns and the script left.
      A peer with no more steps takes everything. */
  function WriteCall(script: seq<WriteStep>, count: nat): (o: WriteOutcome)
    ensures -1 <= o.status <= count
  {
    if script == [] then WriteOutcome(count, [])
    else match script[0]
      case WriteError => WriteOutcome(-1, script[1..])
      case Accept(k) => WriteOutcome(Min(k, count), script[1..])
  }

  datatype ReadOutcome = ReadOutcome(status: int, got: seq<Byte>, inbound: seq<Byte>, steps: seq<ReadStep>)

  /** read(2) of at most `count` bytes, when the peer has sent `inbound` so
      far: the status, the bytes stored, what is left to read, and the steps
      left. Reads take the stream in order and never invent a byte; a peer
      with no more steps delivers as much as is asked. */
  function ReadCall(inbound: seq<Byte>, steps: seq<ReadStep>, count: nat): (o: ReadOutcome)
    ensures -1 <= o.status <= count
    ensures o.status >= 0 ==> |o.got| == o.status
    ensures o.status == -1 ==> o.got == []
    ensures inbound == o.got + o.inbound
  {
    if steps != [] && steps[0].ReadError? then ReadOutcome(-1, [], inbound, steps[1..])
    else
      var limit := if steps == [] then count else Min(steps[0].limit, count);
      var k := Min(limit, |inbound|);
      assert inbound == inbound[..k] + inbound[k..];
      ReadOutcome(k, inbound[..k], inbound[k..], if steps == [] then [] else steps[1..])
  }

  /** A peer whose reads never fail and always return something while
      bytes are left to read. */
  predicate Reliable(steps: seq<ReadStep>) {
    forall i :: 0 <= i < |steps| ==> steps[i].Deliver? && steps[i].limit > 0
  }

  /** Against such a peer a read of a non-empty request returns data when
      any is left, and the peer stays reliable. */
  lemma ReliableReadProgresses(inbound: seq<Byte>, steps: seq<ReadStep>, count: nat)
    requires Reliable(steps) && count > 0 && inbound != []
    ensures ReadCall(inbound, steps, count).status > 0
    ensures Reliable(ReadCall(inbound, steps, count).steps)
  {
    if steps != [] {
      assert steps[0].Deliver? && steps[0].limit > 0;
    }
  }

  /** The marks of `count` bytes read while `written` bytes had been written. */
  ghost function Marks(written: nat, count: nat): (m: seq<nat>)
    ensures |m| == count
  {
    seq(count, _ => written)
  }

  /** Between two states of a socket, the reads took the bytes `inbound0`
      had and `inbound` no longer has, and `readAt` gained one mark for each,
      all saying that `written` bytes had been written. */
  ghost predicate ReadsWhile(readAt0: seq<nat>, inbound0: seq<Byte>, readAt: seq<nat>, inbound: seq<Byte>, written: nat)
  {
    |inbound| <= |inbound0| && readAt == readAt0 + Marks(written, |inbound0| - |inbound|)
  }

  /** Reads on either side of a point where nothing was written. */
  lemma ReadsWhileChain(r0: seq<nat>, i0: seq<Byte>, r1: seq<nat>, i1: seq<Byte>, r2: seq<nat>, i2: seq<Byte>, written: nat)
    requires ReadsWhile(r0, i0, r1, i1, written) && ReadsWhile(r1, i1, r2, i2, written)
    ensures ReadsWhile(r0, i0, r2, i2, written)
  {
    assert Marks(written, |i0| - |i1|) + Marks(written, |i1| - |i2|) == Marks(written, |i0| - |i2|);
  }

  /** The socket a descriptor designates, with the peer behind it. */
  class Socket {
    /** How the peer will treat the coming writes. */
    var writeSteps: seq<WriteStep>
    /** The bytes the peer has sent that the library has not yet read. */
    var inbound: seq<Byte>
    /** How the peer will treat the coming reads. */
    var readSteps: seq<ReadStep>
    /** Whether close(2) has released the descriptor. */
    var closed: bool
    /** Every byte written so far, in order. */
    ghost var sent: seq<Byte>
    /** One mark for every byte read so far, in order: how many bytes had
        been written when read(2) returned it. */
    ghost var readAt: seq<nat>

    constructor (writeFate: seq<WriteStep>, stream: seq<Byte>, readFate: seq<ReadStep>)
      ensures writeSteps == writeFate && inbound == stream && readSteps == readFate
      ensures !closed && sent == [] && readAt == []
    {
      writeSteps, inbound, readSteps := writeFate, stream, readFate;
      closed := false;
      sent := [];
      readAt := [];
    }

    /** write(2) of `bytes` on the open descriptor. */
    method Write(bytes: seq<Byte>) returns (status: int)
      requires !closed
      modifies this
      ensures WriteCall(old(writeSteps), |bytes|) == WriteOutcome(status, writeSteps)
      ensures sent == old(sent) + bytes[..if status > 0 then status else 0]
      ensures inbound == old(inbound) && readSteps == old(readSteps) && closed == old(closed)
      ensures readAt == old(readAt)
    {
      var o := WriteCall(writeSteps, |bytes|);
      status := o.status;
      writeSteps := o.script;
      if status > 0 {
        sent := sent + bytes[..status];
      }
    }

    /** read(2) of at most `count` bytes into `dst[off..off + count]`. */
    method Read(dst: array<Byte>, off: nat, count: nat) returns (status: int)
      requires !closed && off + count <= dst.Length
      modifies this, dst
      ensures var o := ReadCall(old(inbound), old(readSteps), count);
              && status == o.status && inbound == o.inbound && readSteps == o.steps
              && (forall i :: 0 <= i < dst.Length ==>
                    dst[i] == if off <= i < off + |o.got| then o.got[i - off] else old(dst[i]))
      ensures ReadsWhile(old(readAt), old(inbound), readAt, inbound, |sent|)
      ensures writeSteps == old(writeSteps) && closed == old(closed) && sent == old(sent)
    {
      var o := ReadCall(inbound, readSteps, count);
      var j := 0;
      while j < |o.got|
        modifies dst
        invariant 0 <= j <= |o.got|
        invariant forall i :: 0 <= i < dst.Length ==>
                    dst[i] == if off <= i < off + j then o.got[i - off] else old(dst[i])
      {
        dst[off + j] := o.got[j];
        j := j + 1;
      }
      status := o.status;
      inbound, readSteps := o.inbound, o.steps;
      readAt := readAt + Marks(|sent|, |o.got|);
    }

    /** close(2): releases the descriptor; it must not have been released before. */
    method Close()
      requires !closed
      modifies this
      ensures closed
      ensures writeSteps == old(writeSteps) && inbound == old(inbound) && readSteps == old(readSteps)
      ensures sent == old(sent) && readAt == old(readAt)
    {
      closed := true;
    }
  }
}
