/** The byte pipe of kernel/fs/ramdisk.c as values: a circular buffer with split copies. */
module FifoSpec {
  import opened Prelude

  datatype Pipe = Pipe(buf: seq<nat>, readPos: nat, writePos: nat, len: nat)

  /** A position within twice the size, brought back into the buffer. */
  function Around(x: nat, size: nat): nat {
    if x < size then x else if x < 2 * size then x - size else 0
  }

  lemma AroundIsMod(x: nat, size: nat)
    requires x < 2 * size
    ensures x % size == Around(x, size)
  {
    if x < size {
      assert x % size == x;
    } else {
      assert x == size + (x - size);
      assert x % size == x - size;
    }
  }

  /** The `len` bytes from `start` on, around the end. */
  function Ring(buf: seq<nat>, start: nat, len: nat): (r: seq<nat>)
    requires start < |buf| && len <= |buf|
    ensures |r| == len
  {
    seq(len, i requires 0 <= i < len => buf[Around(start + i, |buf|)])
  }

  ghost predicate Valid(p: Pipe) {
    && 0 < |p.buf| && p.readPos < |p.buf| && p.len <= |p.buf|
    && p.writePos == (p.readPos + p.len) % |p.buf|
  }

  /** The bytes in the pipe, oldest first. */
  function Contents(p: Pipe): seq<nat>
    requires p.readPos < |p.buf| && p.len <= |p.buf|
  {
    Ring(p.buf, p.readPos, p.len)
  }

  /** memcpy into the buffer. */
  function Overlay(buf: seq<nat>, at: nat, data: seq<nat>): (r: seq<nat>)
    requires at + |data| <= |buf|
    ensures |r| == |buf|
  {
    buf[..at] + data + buf[at + |data|..]
  }

  // ----- fifo_write and fifo_read once they have the lock and need not wait -----

  function Write(p: Pipe, data: seq<nat>): (Pipe, nat)
    requires p.writePos < |p.buf| && p.len <= |p.buf|
  {
    var size := |p.buf|;
    var n := Min(|data|, size - p.len);
    var first := size - p.writePos;
    if first >= n then
      (p.(buf := Overlay(p.buf, p.writePos, data[..n]), writePos := (p.writePos + n) % size, len := p.len + n), n)
    else
      (p.(buf := Overlay(Overlay(p.buf, p.writePos, data[..first]), 0, data[first..n]),
          writePos := n - first, len := p.len + n), n)
  }

  function Read(p: Pipe, count: nat): (Pipe, seq<nat>)
    requires p.readPos < |p.buf| && p.len <= |p.buf|
  {
    var size := |p.buf|;
    var n := Min(count, p.len);
    var first := size - p.readPos;
    if first >= n then
      (p.(readPos := (p.readPos + n) % size, len := p.len - n), p.buf[p.readPos..p.readPos + n])
    else
      (p.(readPos := n - first, len := p.len - n), p.buf[p.readPos..] + p.buf[..n - first])
  }

  lemma WritePosition(p: Pipe)
    requires Valid(p)
    ensures p.writePos == Around(p.readPos + p.len, |p.buf|) && p.writePos < |p.buf|
  {
    AroundIsMod(p.readPos + p.len, |p.buf|);
  }

  /** Where each byte of the buffer comes from after a write. */
  lemma WriteBytes(p: Pipe, data: seq<nat>, i: nat)
    requires p.writePos < |p.buf| && p.len <= |p.buf| && i < |p.buf|
    ensures var (p', n) := Write(p, data);
            var d := if p.writePos <= i then i - p.writePos else i + |p.buf| - p.writePos;
            p'.buf[i] == if d < n then data[d] else p.buf[i]
  {
  }

  lemma WritePositions(p: Pipe, data: seq<nat>)
    requires Valid(p)
    ensures p.writePos < |p.buf| && Valid(Write(p, data).0)
  {
    WritePosition(p);
    var n := Min(|data|, |p.buf| - p.len);
    AroundIsMod(p.writePos + n, |p.buf|);
    AroundIsMod(p.readPos + p.len + n, |p.buf|);
  }

  /** A write appends exactly the bytes it reports, as many as there is room for. */
  lemma WriteAppends(p: Pipe, data: seq<nat>)
    requires Valid(p)
    ensures p.writePos < |p.buf|
    ensures var (p', n) := Write(p, data);
            && Valid(p') && n == Min(|data|, |p.buf| - p.len) && Contents(p') == Contents(p) + data[..n]
            && |p'.buf| == |p.buf|
  {
    WritePosition(p);
    WritePositions(p, data);
    var (p', n) := Write(p, data);
    forall i | 0 <= i < p.len + n ensures Contents(p')[i] == (Contents(p) + data[..n])[i] {
      WriteBytes(p, data, Around(p.readPos + i, |p.buf|));
    }
  }

  lemma ReadPositions(p: Pipe, count: nat)
    requires Valid(p)
    ensures Valid(Read(p, count).0) && Read(p, count).0.readPos == Around(p.readPos + Min(count, p.len), |p.buf|)
  {
    var n := Min(count, p.len);
    AroundIsMod(p.readPos + n, |p.buf|);
    AroundIsMod(p.readPos + p.len, |p.buf|);
    AroundIsMod(Around(p.readPos + n, |p.buf|) + (p.len - n), |p.buf|);
  }

  lemma RingSplit(buf: seq<nat>, start: nat, n: nat, len: nat)
    requires start < |buf| && n <= len <= |buf|
    ensures Ring(buf, start, len) == Ring(buf, start, n) + Ring(buf, Around(start + n, |buf|), len - n)
  {
    var r := Ring(buf, Around(start + n, |buf|), len - n);
    forall i | n <= i < len ensures Ring(buf, start, len)[i] == r[i - n] {
      assert Around(Around(start + n, |buf|) + (i - n), |buf|) == Around(start + i, |buf|);
    }
  }

  lemma RingPlain(buf: seq<nat>, start: nat, n: nat)
    requires start < |buf| && start + n <= |buf|
    ensures Ring(buf, start, n) == buf[start..start + n]
  {
    forall i | 0 <= i < n ensures Ring(buf, start, n)[i] == buf[start..start + n][i] {
      assert Around(start + i, |buf|) == start + i;
    }
  }

  lemma RingAround(buf: seq<nat>, start: nat, n: nat)
    requires start < |buf| && n <= |buf| < start + n
    ensures Ring(buf, start, n) == buf[start..] + buf[..start + n - |buf|]
  {
    RingSplit(buf, start, |buf| - start, n);
    RingPlain(buf, start, |buf| - start);
    RingPlain(buf, 0, start + n - |buf|);
  }

  /** Both forms of the copy read the ring. */
  lemma ReadsRing(p: Pipe, count: nat)
    requires Valid(p)
    ensures Read(p, count).1 == Ring(p.buf, p.readPos, Min(count, p.len))
  {
    var n := Min(count, p.len);
    if p.readPos + n <= |p.buf| {
      RingPlain(p.buf, p.readPos, n);
    } else {
      RingAround(p.buf, p.readPos, n);
    }
  }

  /** A read takes exactly the oldest bytes, as many as asked for and there. */
  lemma ReadTakes(p: Pipe, count: nat)
    requires Valid(p)
    ensures var (p', out) := Read(p, count);
            Valid(p') && |out| == Min(count, p.len) && Contents(p) == out + Contents(p') && p'.buf == p.buf
  {
    ReadPositions(p, count);
    ReadsRing(p, count);
    hide Ring;
    RingSplit(p.buf, p.readPos, Min(count, p.len), p.len);
  }

  // ----- Runs -----

  datatype Op = WriteOp(data: seq<nat>) | ReadOp(count: nat)

  /** The pipe, all bytes accepted and all bytes delivered. */
  datatype History = History(p: Pipe, accepted: seq<nat>, delivered: seq<nat>)

  ghost function Step(h: History, op: Op): History
    requires Valid(h.p)
  {
    WritePosition(h.p);
    match op
    case WriteOp(data) =>
      var (p, n) := Write(h.p, data);
      History(p, h.accepted + data[..n], h.delivered)
    case ReadOp(count) =>
      var (p, out) := Read(h.p, count);
      History(p, h.accepted, h.delivered + out)
  }

  ghost predicate Faithful(h: History) {
    Valid(h.p) && h.accepted == h.delivered + Contents(h.p)
  }

  lemma StepFaithful(h: History, op: Op)
    requires Faithful(h)
    ensures Faithful(Step(h, op)) && |Step(h, op).p.buf| == |h.p.buf|
  {
    match op
    case WriteOp(data) => WriteAppends(h.p, data);
    case ReadOp(count) => ReadTakes(h.p, count);
  }

  ghost function Run(h: History, ops: seq<Op>): History
    requires Faithful(h)
    decreases |ops|
  {
    if ops == [] then h else
      StepFaithful(h, ops[0]);
      Run(Step(h, ops[0]), ops[1..])
  }

  /**
   * Over every sequence of reads and writes the bytes delivered are a prefix of the bytes accepted, the
   * rest is in the pipe, and the write position is where reading would end.
   */
  lemma {:induction false} DeliveredIsPrefix(h: History, ops: seq<Op>)
    requires Faithful(h)
    ensures var t := Run(h, ops);
            && Faithful(t) && t.delivered <= t.accepted && t.p.len == |t.accepted| - |t.delivered|
            && t.p.len <= |t.p.buf| == |h.p.buf| && t.p.writePos == (t.p.readPos + t.p.len) % |t.p.buf|
    decreases |ops|
  {
    if ops != [] {
      StepFaithful(h, ops[0]);
      DeliveredIsPrefix(Step(h, ops[0]), ops[1..]);
    }
  }
}
