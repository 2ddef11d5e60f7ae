/** The byte pipe as the kernel runs it: copies into and out of a circular buffer (kernel/fs/ramdisk.c). */
module Fifos {
  import opened Prelude
  import opened FifoSpec

  const FIFO_MAX_SIZE: nat := 65536

  /** What an attempt to read or write under the lock comes to; a blocked one is tried again later. */
  datatype Outcome = Blocked | Failed | Done(count: nat)

  class Fifo {
    const buffer: array<nat>
    var readPos: nat
    var writePos: nat
    var dataLen: nat
    var closed: bool
    ghost var accepted: seq<nat>
    ghost var delivered: seq<nat>

    ghost function State(): Pipe
      reads this, buffer
    {
      Pipe(buffer[..], readPos, writePos, dataLen)
    }

    ghost predicate Valid()
      reads this, buffer
    {
      Faithful(History(State(), accepted, delivered))
    }

    /** fifo_create */
    constructor ()
      ensures Valid() && fresh(buffer) && buffer.Length == FIFO_MAX_SIZE && !closed
      ensures accepted == [] && delivered == []
    {
      buffer := new nat[FIFO_MAX_SIZE](_ => 0);
      readPos, writePos, dataLen, closed := 0, 0, 0, false;
      accepted, delivered := [], [];
    }

    /** memcpy(buffer + at, data, |data|) */
    method CopyIn(at: nat, data: seq<nat>)
      requires at + |data| <= buffer.Length
      modifies buffer
      ensures buffer[..] == Overlay(old(buffer[..]), at, data)
    {
      ghost var was := buffer[..];
      var i := 0;
      while i < |data|
        invariant 0 <= i <= |data|
        invariant forall k :: 0 <= k < i ==> buffer[at + k] == data[k]
        invariant forall k :: 0 <= k < buffer.Length && !(at <= k < at + i) ==> buffer[k] == was[k]
      {
        buffer[at + i] := data[i];
        i := i + 1;
      }
      assert forall k :: at <= k < at + |data| ==> buffer[k] == data[k - at];
    }

    /** The test fifo_write begins with, before it takes the lock. */
    method MayWrite() returns (may: bool)
      ensures may == !closed
    {
      return !closed;
    }

    /**
     * One attempt of fifo_write with the lock held. Only an attempt after a wait looks at `closed` again:
     * a pipe closed between the test before the lock and the first attempt still takes the bytes.
     */
    method TryWrite(data: seq<nat>, waited: bool) returns (r: Outcome)
      requires Valid()
      modifies this, buffer
      ensures Valid() && closed == old(closed) && delivered == old(delivered)
      ensures r == if waited && closed then Failed else if old(dataLen) == buffer.Length then Blocked
                   else Done(Min(|data|, buffer.Length - old(dataLen)))
      ensures if r.Done? then old(State()).writePos < buffer.Length && State() == Write(old(State()), data).0
                              && accepted == old(accepted) + data[..r.count]
              else State() == old(State()) && accepted == old(accepted)
    {
      if waited && closed {
        return Failed;
      }
      if dataLen == buffer.Length {
        return Blocked;
      }
      WriteAppends(State(), data);
      var n := Put(data);
      accepted := accepted + data[..n];
      return Done(n);
    }

    /** The copies of fifo_write: one, or two around the end of the buffer. */
    method Put(data: seq<nat>) returns (toWrite: nat)
      requires writePos < buffer.Length && dataLen <= buffer.Length
      modifies this`writePos, this`dataLen, buffer
      ensures (State(), toWrite) == Write(old(State()), data)
    {
      hide Overlay;
      toWrite := |data|;
      if toWrite > buffer.Length - dataLen {
        toWrite := buffer.Length - dataLen;
      }
      var firstPart := buffer.Length - writePos;
      if firstPart >= toWrite {
        CopyIn(writePos, data[..toWrite]);
        writePos := (writePos + toWrite) % buffer.Length;
      } else {
        CopyIn(writePos, data[..firstPart]);
        CopyIn(0, data[firstPart..toWrite]);
        writePos := toWrite - firstPart;
      }
      dataLen := dataLen + toWrite;
    }

    /** One attempt of fifo_read with the lock held: at the end of a closed pipe it reads nothing. */
    method TryRead(count: nat) returns (r: Outcome, out: seq<nat>)
      requires Valid()
      modifies this
      ensures Valid() && closed == old(closed) && accepted == old(accepted)
      ensures r == if old(dataLen) > 0 then Done(Min(count, old(dataLen))) else if closed then Done(0) else Blocked
      ensures |out| == (if r.Done? then r.count else 0) && delivered == old(delivered) + out
      ensures old(dataLen) > 0 ==> old(readPos < buffer.Length && dataLen <= buffer.Length)
                                   && (State(), out) == Read(old(State()), count)
      ensures old(dataLen) == 0 ==> State() == old(State())
    {
      if dataLen == 0 {
        return if closed then Done(0) else Blocked, [];
      }
      ReadTakes(State(), count);
      out := Take(count);
      delivered := delivered + out;
      r := Done(|out|);
    }

    method Take(count: nat) returns (out: seq<nat>)
      requires readPos < buffer.Length && dataLen <= buffer.Length
      modifies this`readPos, this`dataLen
      ensures (State(), out) == Read(old(State()), count)
    {
      var toRead := if count < dataLen then count else dataLen;
      var firstPart := buffer.Length - readPos;
      if firstPart >= toRead {
        out := buffer[readPos..readPos + toRead];
        readPos := (readPos + toRead) % buffer.Length;
      } else {
        out := buffer[readPos..] + buffer[..toRead - firstPart];
        readPos := toRead - firstPart;
      }
      dataLen := dataLen - toRead;
    }

    /** fifo_delete marks the pipe closed. */
    method Close()
      requires Valid()
      modifies this`closed
      ensures Valid() && closed
    {
      closed := true;
    }
  }
}
