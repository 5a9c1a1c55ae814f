/**
 * How callers use the ring buffer: the receive callback and the drain loop
 * of main.cpp, and runs of the class's operations that fix what the FIFO
 * promises (scenarios over freshly constructed buffers).
 */
module Clients {
  import opened RingBuffers

  /**
   * serialCb's overflow policy: the received byte is written, and when the
   * write is rejected the whole buffer is reset.  The reset clears the flag
   * that the rejected write has just set.
   */
  method SerialCb(rb: RingBuffer, tc: byte)
    requires rb.Valid()
    modifies rb, rb.data
    ensures rb.Valid()
    ensures old(rb.CanWrite(1)) ==> rb.Contents == old(rb.Contents) + [tc]
    ensures old(rb.CanWrite(1)) ==> rb.bufferFullError == old(rb.bufferFullError)
    ensures !old(rb.CanWrite(1)) ==> rb.Contents == [] && !rb.bufferFullError
  {
    var one := new byte[1];
    one[0] := tc;
    var ok := rb.Write(one, 1);
    if !ok {
      rb.Reset();
    }
  }

  /**
   * The drain loop: while one byte can be read, read it and hand it on.
   * The read after a successful canRead(1) always delivers its byte, so the
   * branch for a failed read is unreachable.
   */
  method DrainLoop(rb: RingBuffer) returns (consumed: seq<byte>)
    requires rb.Valid()
    modifies rb
    ensures rb.Valid()
    ensures consumed == old(rb.Contents) && rb.Contents == []
    ensures rb.writepos == old(rb.writepos) && rb.bufferFullError == old(rb.bufferFullError)
  {
    consumed := [];
    while rb.CanRead(1)
      invariant rb.Valid()
      invariant old(rb.Contents) == consumed + rb.Contents
      invariant rb.writepos == old(rb.writepos) && rb.bufferFullError == old(rb.bufferFullError)
      decreases |rb.Contents|
    {
      ghost var before := rb.Contents;
      var tc := new byte[1];
      var n := rb.TryRead(tc, 1);
      if n != 0 {
        assert consumed + [tc[0]] + rb.Contents == consumed + before by {
          assert tc[..1] == before[..1] && rb.Contents == before[1..];
          assert before == [tc[0]] + rb.Contents;
        }
        consumed := consumed + [tc[0]];
      } else {
        assert false;
      }
    }
  }

  /** All bursts, concatenated in arrival order. */
  function Flatten(bursts: seq<seq<byte>>): seq<byte>
  {
    if bursts == [] then [] else Flatten(bursts[..|bursts| - 1]) + bursts[|bursts| - 1]
  }

  /**
   * Bytes arriving through the receive callback, with the drain loop run
   * after each burst, reach the consumer complete and in order as long as
   * no burst fills the usable capacity.
   */
  method DeliveredInOrder(capacity: nat, bursts: seq<seq<byte>>) returns (delivered: seq<byte>)
    requires capacity >= 1
    requires forall k :: 0 <= k < |bursts| ==> |bursts[k]| < capacity
    ensures delivered == Flatten(bursts)
  {
    var rb := new RingBuffer(capacity);
    delivered := [];
    var k := 0;
    while k < |bursts|
      invariant k <= |bursts|
      invariant fresh(rb) && fresh(rb.data)
      invariant rb.Valid() && rb.size == capacity
      invariant rb.Contents == []
      invariant delivered == Flatten(bursts[..k])
    {
      var burst := bursts[k];
      var j := 0;
      while j < |burst|
        invariant j <= |burst|
        invariant rb.Valid() && rb.size == capacity
        invariant rb.Contents == burst[..j]
      {
        SerialCb(rb, burst[j]);
        assert burst[..j + 1] == burst[..j] + [burst[j]];
        j := j + 1;
      }
      var drained := DrainLoop(rb);
      assert bursts[..k + 1][..k] == bursts[..k];
      assert burst[..j] == burst;
      delivered := delivered + drained;
      k := k + 1;
    }
    assert bursts[..k] == bursts;
  }

  /** An operation a caller performs on the buffer. */
  datatype Op = Put(payload: seq<byte>) | Take(count: nat)

  /** The bytes an operation hands to the buffer. */
  function Written(op: Op): seq<byte>
  {
    if op.Put? then op.payload else []
  }

  /** The payloads of all writes, concatenated in call order. */
  function Payloads(ops: seq<Op>): seq<byte>
  {
    if ops == [] then [] else Payloads(ops[..|ops| - 1]) + Written(ops[|ops| - 1])
  }

  /** The number of bytes a read of up to count bytes takes from a queue of n. */
  function Taken(count: nat, n: nat): (t: nat)
    ensures t <= count && t <= n
    ensures t == count || t == n
  {
    if count <= n then count else n
  }

  /**
   * Capacity discipline: starting from n queued bytes on a buffer of the
   * given size, every write in ops finds room for its whole payload, with
   * one slot kept free, and every read takes what it can.
   */
  ghost predicate Fits(n: nat, size: nat, ops: seq<Op>)
    decreases |ops|
  {
    if ops == [] then true
    else match ops[0] {
      case Put(p) => n + |p| + 1 <= size && Fits(n + |p|, size, ops[1..])
      case Take(c) => Fits(n - Taken(c, n), size, ops[1..])
    }
  }

  /**
   * One operation: a write of the payload or a read of up to count bytes.
   * A write is rejected exactly when canWrite fails, and then it only sets
   * the flag; a read takes min(count, queued) bytes and is never rejected.
   * Unless the write is rejected, the bytes read followed by what stays
   * queued are the old queue followed by the bytes written.
   */
  method Perform(rb: RingBuffer, op: Op) returns (out: seq<byte>, ok: bool)
    requires rb.Valid()
    modifies rb, rb.data
    ensures rb.Valid()
    ensures ok ==> out + rb.Contents == old(rb.Contents) + Written(op)
    ensures op.Put? ==> ok == old(rb.CanWrite(|op.payload|)) && out == []
    ensures op.Take? ==> ok && |out| == Taken(op.count, |old(rb.Contents)|)
    ensures !ok ==> rb.Contents == old(rb.Contents)
    ensures rb.bufferFullError == (old(rb.bufferFullError) || !ok)
  {
    match op {
      case Put(p) =>
        var a := new byte[|p|](i requires 0 <= i < |p| => p[i]);
        assert a[..] == p;
        ok := rb.Write(a, |p|);
        out := [];
      case Take(n) =>
        var buf := new byte[n];
        var got := rb.TryRead(buf, n);
        out := buf[..got];
        ok := true;
        assert old(rb.Contents) == old(rb.Contents)[..got] + old(rb.Contents)[got..];
    }
  }

  /**
   * One operation of a run, seen through the queue: operation k turns queue
   * q into q' while handing out out.  An accepted operation moves the
   * capacity discipline on to the rest of the run; a rejected write shows
   * the run breaks it.
   */
  lemma FitsStep(size: nat, ops: seq<Op>, k: nat, ok: bool, q: seq<byte>, out: seq<byte>, q': seq<byte>)
    requires k < |ops|
    requires ops[k].Put? ==> out == [] && (ok <==> |q| + |ops[k].payload| + 1 <= size)
    requires ops[k].Take? ==> ok && |out| == Taken(ops[k].count, |q|)
    requires ok ==> out + q' == q + Written(ops[k])
    ensures ok ==> (Fits(|q|, size, ops[k..]) <==> Fits(|q'|, size, ops[k + 1..]))
    ensures !ok ==> !Fits(|q|, size, ops[k..])
  {
    FitsAt(|q|, size, ops, k);
    if ok {
      assert |out| + |q'| == |q| + |Written(ops[k])| by {
        assert |out + q'| == |q + Written(ops[k])|;
      }
      if ops[k].Put? {
        assert |q'| == |q| + |ops[k].payload|;
      } else {
        assert |q'| == |q| - Taken(ops[k].count, |q|);
      }
    }
  }

  /** The discipline for the run from position k on, unfolded once. */
  lemma FitsAt(n: nat, size: nat, ops: seq<Op>, k: nat)
    requires k < |ops|
    ensures ops[k].Put? ==>
      (Fits(n, size, ops[k..]) <==>
        n + |ops[k].payload| + 1 <= size && Fits(n + |ops[k].payload|, size, ops[k + 1..]))
    ensures ops[k].Take? ==>
      (Fits(n, size, ops[k..]) <==> Fits(n - Taken(ops[k].count, n), size, ops[k + 1..]))
  {
    assert ops[k..][0] == ops[k];
    assert ops[k..][1..] == ops[k + 1..];
  }

  /**
   * One accepted operation of a run keeps "delivered, then queued, is the
   * old queue, then the payloads so far".
   */
  lemma DeliveredStep(q0: seq<byte>, delivered: seq<byte>, q: seq<byte>, out: seq<byte>, q': seq<byte>,
                      written: seq<byte>, payloads: seq<byte>)
    requires delivered + q == q0 + payloads
    requires out + q' == q + written
    ensures (delivered + out) + q' == q0 + (payloads + written)
  {
    calc {
      (delivered + out) + q';
      delivered + (out + q');
      delivered + (q + written);
      (delivered + q) + written;
      (q0 + payloads) + written;
    }
  }

  lemma PayloadsOfPrefix(ops: seq<Op>, k: nat)
    requires k < |ops|
    ensures Payloads(ops[..k + 1]) == Payloads(ops[..k]) + Written(ops[k])
  {
    assert ops[..k + 1][..k] == ops[..k];
  }

  /**
   * A run of writes and reads on one buffer.  No write is rejected exactly
   * when the run keeps to the capacity discipline (Fits), and the flag ends
   * up set exactly when it was set before or a write was rejected.  Unless a
   * write was rejected, the bytes read followed by the bytes still queued
   * are the old queue followed by every payload written.
   */
  method Run(rb: RingBuffer, ops: seq<Op>) returns (delivered: seq<byte>, rejected: nat)
    requires rb.Valid()
    modifies rb, rb.data
    ensures rb.Valid()
    ensures rejected <= |ops|
    ensures rejected == 0 <==> Fits(|old(rb.Contents)|, rb.size, ops)
    ensures rb.bufferFullError == (old(rb.bufferFullError) || rejected > 0)
    ensures rejected == 0 ==> delivered + rb.Contents == old(rb.Contents) + Payloads(ops)
  {
    delivered := [];
    rejected := 0;
    var k := 0;
    while k < |ops|
      invariant k <= |ops| && rejected <= k
      invariant rb.Valid()
      invariant rb.bufferFullError == (old(rb.bufferFullError) || rejected > 0)
      invariant rejected == 0 ==>
        (Fits(|old(rb.Contents)|, rb.size, ops) <==> Fits(|rb.Contents|, rb.size, ops[k..]))
      invariant rejected > 0 ==> !Fits(|old(rb.Contents)|, rb.size, ops)
      invariant rejected == 0 ==> delivered + rb.Contents == old(rb.Contents) + Payloads(ops[..k])
    {
      PayloadsOfPrefix(ops, k);
      ghost var q := rb.Contents;
      var out, ok := Perform(rb, ops[k]);
      FitsStep(rb.size, ops, k, ok, q, out, rb.Contents);
      if ok && rejected == 0 {
        DeliveredStep(old(rb.Contents), delivered, q, out, rb.Contents, Written(ops[k]), Payloads(ops[..k]));
      }
      delivered := delivered + out;
      if !ok {
        rejected := rejected + 1;
      }
      k := k + 1;
    }
    assert ops[..k] == ops;
  }

  /**
   * Any run of writes and reads on a fresh buffer, followed by draining
   * what is left.  A run that keeps to the capacity discipline has no
   * rejected write, and without a rejected write the bytes read,
   * concatenated in call order, are exactly the bytes written, with no loss
   * and no duplication.
   */
  method RoundTrip(capacity: nat, ops: seq<Op>) returns (delivered: seq<byte>, rejected: nat)
    requires capacity >= 1
    ensures rejected <= |ops|
    ensures rejected == 0 <==> Fits(0, capacity, ops)
    ensures rejected == 0 ==> delivered == Payloads(ops)
  {
    var rb := new RingBuffer(capacity);
    delivered, rejected := Run(rb, ops);
    var rest := DrainLoop(rb);
    delivered := delivered + rest;
  }

  /**
   * The first half of the capacity-4 scenario: A, B and C fit in the 3
   * usable slots, D is rejected and sets the flag.
   */
  method FillCapacity4() returns (rb: RingBuffer, okA: bool, okB: bool, okC: bool, okD: bool)
    ensures fresh(rb) && fresh(rb.data) && rb.Valid() && rb.size == 4
    ensures okA && okB && okC && !okD
    ensures rb.Contents == [0x41, 0x42, 0x43] && rb.bufferFullError
  {
    rb := new RingBuffer(4);
    var one := new byte[1];
    one[0] := 0x41;
    okA := rb.Write(one, 1);
    assert rb.Contents == [0x41];
    one[0] := 0x42;
    okB := rb.Write(one, 1);
    assert rb.Contents == [0x41, 0x42];
    one[0] := 0x43;
    okC := rb.Write(one, 1);
    assert rb.Contents == [0x41, 0x42, 0x43];
    one[0] := 0x44;
    okD := rb.Write(one, 1);
  }

  /**
   * A capacity-4 buffer holds 3 bytes: writing A, B and C succeeds, writing
   * D is rejected and sets the flag, reading 3 yields A, B, C in order and
   * empties the buffer but leaves the flag set; clearing it (twice) leaves it clear, and D then fits.
   */
  method Capacity4Scenario() returns (okA: bool, okB: bool, okC: bool, okD: bool,
                                      fullAfterD: bool, countAfterD: nat,
                                      got: nat, out: seq<byte>, countAfterRead: nat,
                                      fullAfterRead: bool, fullAfterClear: bool, okDAgain: bool)
    ensures okA && okB && okC
    ensures !okD && fullAfterD && countAfterD == 3
    ensures got == 3 && out == [0x41, 0x42, 0x43] && countAfterRead == 0
    ensures fullAfterRead
    ensures !fullAfterClear && okDAgain
  {
    var rb;
    rb, okA, okB, okC, okD := FillCapacity4();
    fullAfterD := rb.GetFullError();
    countAfterD := rb.OccupiedCount();
    var buf := new byte[3];
    got := rb.TryRead(buf, 3);
    assert buf[..] == buf[..got];
    out := buf[..];
    countAfterRead := rb.OccupiedCount();
    fullAfterRead := rb.GetFullError();
    rb.ClearFullError();
    rb.ClearFullError();
    fullAfterClear := rb.GetFullError();
    var one := new byte[1];
    one[0] := 0x44;
    okDAgain := rb.Write(one, 1);
  }

  /**
   * Once the write cursor has wrapped behind the read cursor the count
   * query overstates the queue: capacity 4, three bytes written and read,
   * then two more written, leaves 2 bytes queued, yet the query reports 65534.
   */
  method WrappedCountScenario() returns (reported: nat, queued: nat)
    ensures reported == 65534 && queued == 2
  {
    var rb := new RingBuffer(4);
    var three := new byte[3];
    var ok := rb.Write(three, 3);
    var got := rb.TryRead(three, 3);
    ok := rb.Write(three, 2);
    reported := rb.GetRxCountInBuffer();
    queued := rb.OccupiedCount();
  }
}
