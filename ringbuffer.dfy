/**
 * A fixed-capacity circular byte queue, as declared in ringbuffer.h and
 * implemented in ringbuffer.cpp.
 *
 * One slot of the storage array is always kept free, so equal cursors mean
 * "empty" and at most size - 1 bytes can be queued.  The overflow flag is
 * sticky: a rejected write sets it and only clearFullError or reset clear it.
 */
module RingBuffers {

  type byte = bv8

  /** Capacity used by the default constructor. */
  const DefaultSize: nat := 256

  /** The count query returns a uint16_t. */
  const CountModulus: nat := 0x1_0000

  /** Width of size_t on the 32-bit target, where the cursor subtraction wraps. */
  const SizeTModulus: nat := 0x1_0000_0000

  /**
   * The slot reached from cursor p after k steps, each step being the
   * source's "advance, and go back to 0 once past maxindex".
   */
  function Slot(size: nat, p: nat, k: nat): (s: nat)
    requires p < size && k < size
    ensures s < size
  {
    if p + k < size then p + k else p + k - size
  }

  /** Bytes queued between read cursor r and write cursor w. */
  function Occupied(size: nat, r: nat, w: nat): (k: nat)
    requires r < size && w < size
    ensures k < size
  {
    if r <= w then w - r else size - r + w
  }

  /** Advancing a cursor by k slots is addition modulo the capacity. */
  lemma SlotIsModulo(size: nat, p: nat, k: nat)
    requires p < size && k < size
    ensures Slot(size, p, k) == (p + k) % size
  {
    if p + k < size {
      ModuloUnique(p + k, size, 0, p + k);
    } else {
      ModuloUnique(p + k, size, 1, p + k - size);
    }
  }

  /** The occupied count is (w - r) modulo the capacity, in both cursor orders. */
  lemma OccupiedIsModulo(size: nat, r: nat, w: nat)
    requires r < size && w < size
    ensures Occupied(size, r, w) == (w - r) % size
  {
    if r <= w {
      ModuloUnique(w - r, size, 0, w - r);
    } else {
      ModuloUnique(w - r, size, -1, size - r + w);
    }
  }

  /** The Euclidean remainder is the remainder of any quotient/remainder split. */
  lemma ModuloUnique(x: int, m: nat, q: int, s: int)
    requires m > 0 && x == q * m + s && 0 <= s < m
    ensures x % m == s
  {
    var q' := x / m;
    if q' < q {
      MultipleAtLeast(q - q', m);
    } else if q < q' {
      MultipleAtLeast(q' - q, m);
    }
  }

  lemma {:induction false} MultipleAtLeast(d: int, m: nat)
    requires d >= 1
    ensures d * m >= m
  {
    if d > 1 {
      MultipleAtLeast(d - 1, m);
      assert d * m == (d - 1) * m + m;
    }
  }

  /**
   * The queue q is stored in store from slot r on, wrapping at the end of
   * the store.
   */
  ghost predicate Mirrors(q: seq<byte>, store: seq<byte>, r: nat)
  {
    && r < |store|
    && |q| < |store|
    && forall i :: 0 <= i < |q| ==> q[i] == store[Slot(|store|, r, i)]
  }

  /** Taking the oldest byte off the queue moves its start one slot on. */
  lemma MirrorsPop(q: seq<byte>, store: seq<byte>, r: nat)
    requires Mirrors(q, store, r) && |q| >= 1
    ensures q[0] == store[r]
    ensures Mirrors(q[1..], store, Slot(|store|, r, 1))
  {
    var n := |store|;
    forall i | 0 <= i < |q| - 1
      ensures q[1..][i] == store[Slot(n, Slot(n, r, 1), i)]
    {
      assert Slot(n, Slot(n, r, 1), i) == Slot(n, r, i + 1);
    }
  }

  /**
   * Storing x in the slot just past the queue, while a free slot remains,
   * appends x and leaves the queued bytes intact.
   */
  lemma MirrorsPush(q: seq<byte>, store: seq<byte>, r: nat, x: byte)
    requires Mirrors(q, store, r) && |q| + 1 < |store|
    ensures Mirrors(q + [x], store[Slot(|store|, r, |q|) := x], r)
  {
    var n := |store|;
    var w := Slot(n, r, |q|);
    var q', store' := q + [x], store[w := x];
    forall i | 0 <= i < |q'|
      ensures q'[i] == store'[Slot(n, r, i)]
    {
      if i < |q| {
        assert Slot(n, r, i) != w;
      }
    }
  }

  /**
   * The storage state of a buffer: both cursors inside the store, the queue
   * as long as the distance from read cursor to write cursor, and its bytes
   * stored from the read cursor on.
   */
  ghost predicate Queued(q: seq<byte>, store: seq<byte>, r: nat, w: nat)
  {
    && r < |store|
    && w < |store|
    && |q| == Occupied(|store|, r, w)
    && Mirrors(q, store, r)
  }

  /**
   * One step of tryRead's loop: with the cursors apart, the byte under the
   * read cursor is the oldest one, and moving the cursor on pops it.
   */
  lemma ReadStep(q: seq<byte>, store: seq<byte>, r: nat, w: nat)
    requires Queued(q, store, r, w) && r != w
    ensures |q| >= 1 && q[0] == store[r]
    ensures Queued(q[1..], store, Slot(|store|, r, 1), w)
  {
    MirrorsPop(q, store, r);
  }

  /**
   * One step of writeUnchecked's loop: while a free slot remains, storing x
   * under the write cursor and moving the cursor on appends x.
   */
  lemma WriteStep(q: seq<byte>, store: seq<byte>, r: nat, w: nat, x: byte)
    requires Queued(q, store, r, w) && |q| + 1 < |store|
    ensures Queued(q + [x], store[w := x], r, Slot(|store|, w, 1))
  {
    MirrorsPush(q, store, r, x);
  }

  /**
   * A read cursor that sits a bytes closer to a fixed write cursor than r0
   * did is r0 moved a slots on.
   */
  lemma CursorFromCount(size: nat, r0: nat, r: nat, w: nat, a: nat)
    requires r0 < size && r < size && w < size && a <= Occupied(size, r0, w)
    requires Occupied(size, r, w) == Occupied(size, r0, w) - a
    ensures r == Slot(size, r0, a)
  {
  }

  /**
   * A write cursor that sits a bytes further from a fixed read cursor than
   * w0 did is w0 moved a slots on.
   */
  lemma WriteCursorFromCount(size: nat, r: nat, w0: nat, w: nat, a: nat)
    requires r < size && w0 < size && w < size && a < size
    requires Occupied(size, r, w) == Occupied(size, r, w0) + a
    ensures w == Slot(size, w0, a)
  {
  }

  class RingBuffer {
    const maxindex: nat
    const data: array<byte>
    const size: nat
    var readpos: nat
    var writepos: nat
    var bufferFullError: bool

    /** The queued bytes, oldest first. */
    ghost var Contents: seq<byte>

    ghost predicate Valid()
      reads this, data
    {
      && size == data.Length
      && 1 <= size
      && maxindex == size - 1
      && Queued(Contents, data[..], readpos, writepos)
    }

    /** RingBuffer(size_t buflen): fresh storage, both cursors at 0, flag clear. */
    constructor (buflen: nat)
      requires buflen >= 1
      ensures Valid() && fresh(data)
      ensures size == buflen && maxindex == size - 1
      ensures readpos == 0 && writepos == 0 && !bufferFullError
      ensures Contents == []
    {
      data := new byte[buflen];
      size := buflen;
      readpos := 0;
      writepos := 0;
      maxindex := buflen - 1;
      bufferFullError := false;
      Contents := [];
    }

    /** RingBuffer(): the same with a capacity of 256 bytes. */
    constructor Default()
      ensures Valid() && fresh(data)
      ensures size == DefaultSize && maxindex == size - 1
      ensures readpos == 0 && writepos == 0 && !bufferFullError
      ensures Contents == []
    {
      data := new byte[DefaultSize];
      size := DefaultSize;
      readpos := 0;
      writepos := 0;
      maxindex := DefaultSize - 1;
      bufferFullError := false;
      Contents := [];
    }

    /**
     * The corrected count query: the number of queued bytes, computed
     * modulo the capacity so that it holds whichever cursor is ahead.
     */
    function OccupiedCount(): (count: nat)
      reads this, data
      requires Valid()
      ensures count == |Contents|
      ensures count <= size - 1
      ensures count == (writepos - readpos) % size
    {
      OccupiedIsModulo(size, readpos, writepos);
      Occupied(size, readpos, writepos)
    }

    /**
     * GetRxCountInBuffer as written: size_t subtraction of the cursors,
     * truncated to uint16_t.  It is the queued count only while the write
     * cursor has not wrapped behind the read cursor; otherwise it is too large.
     */
    function GetRxCountInBuffer(): (count: nat)
      reads this, data
      requires Valid()
      ensures count < CountModulus
      ensures count == (writepos - readpos) % CountModulus
      ensures readpos <= writepos && size <= CountModulus ==> count == |Contents|
      ensures writepos < readpos && size < CountModulus ==> count > |Contents|
    {
      ((writepos - readpos) % SizeTModulus) % CountModulus
    }

    /** canRead: at least length bytes are queued. */
    function CanRead(length: nat): (b: bool)
      reads this, data
      requires Valid()
      ensures b <==> length <= Occupied(size, readpos, writepos)
      ensures b <==> length <= |Contents|
    {
      if readpos <= writepos then
        readpos + length <= writepos
      else
        readpos + length <= size + writepos
    }

    /** canWrite: length more bytes fit while one slot stays free. */
    function CanWrite(length: nat): (b: bool)
      reads this, data
      requires Valid()
      ensures b <==> Occupied(size, readpos, writepos) + length < size
      ensures b <==> |Contents| + length <= size - 1
    {
      if writepos < readpos then
        writepos + length < readpos
      else
        writepos + length < size + readpos
    }

    /**
     * tryRead: copies min(length, queued) of the oldest bytes into buf,
     * advancing the read cursor past them; a short read (also of 0 bytes)
     * is normal.
     */
    method TryRead(buf: array<byte>, length: nat) returns (read: nat)
      requires Valid()
      requires buf != data && length <= buf.Length
      modifies this`readpos, this`Contents, buf
      ensures Valid()
      ensures read <= length
      ensures read == if length <= |old(Contents)| then length else |old(Contents)|
      ensures buf[..read] == old(Contents)[..read]
      ensures buf[read..] == old(buf[read..])
      ensures Contents == old(Contents)[read..]
      ensures readpos == Slot(size, old(readpos), read)
      ensures writepos == old(writepos) && bufferFullError == old(bufferFullError)
      ensures unchanged(data)
    {
      read := 0;
      while readpos != writepos && read < length
        invariant Valid()
        invariant read <= length && read <= |old(Contents)|
        invariant Contents == old(Contents)[read..]
        invariant forall k :: 0 <= k < read ==> buf[k] == old(Contents)[k]
        invariant forall k :: read <= k < buf.Length ==> buf[k] == old(buf[k])
        decreases length - read
      {
        ReadStep(Contents, data[..], readpos, writepos);
        ghost var next := Slot(size, readpos, 1);
        buf[read] := data[readpos];
        readpos := readpos + 1;
        readpos := if readpos > maxindex then 0 else readpos;
        assert readpos == next;
        read := read + 1;
        Contents := Contents[1..];
      }
      CursorFromCount(size, old(readpos), readpos, writepos, read);
      assert buf[..read] == old(Contents)[..read];
      assert buf[read..] == old(buf[read..]);
    }

    /**
     * write: all or nothing.  Without room it sets the sticky flag and
     * changes nothing else; with room it appends every byte in order.
     */
    method Write(datain: array<byte>, length: nat) returns (ok: bool)
      requires Valid()
      requires datain != data && length <= datain.Length
      modifies this`writepos, this`Contents, this`bufferFullError, data
      ensures Valid()
      ensures ok == old(CanWrite(length))
      ensures ok ==> Contents == old(Contents) + datain[..length]
      ensures ok ==> writepos == Slot(size, old(writepos), length)
      ensures ok ==> bufferFullError == old(bufferFullError)
      ensures ok && length > 0 ==> writepos != readpos
      ensures !ok ==> bufferFullError && Contents == old(Contents)
      ensures !ok ==> writepos == old(writepos) && unchanged(data)
      ensures readpos == old(readpos) && unchanged(datain)
    {
      if !CanWrite(length) {
        bufferFullError := true;
        return false;
      }
      WriteUnchecked(datain, length);
      return true;
    }

    /**
     * writeUnchecked: appends every byte without a capacity check; the
     * caller must already know that the bytes fit.
     */
    method WriteUnchecked(datain: array<byte>, length: nat)
      requires Valid()
      requires datain != data && length <= datain.Length
      requires CanWrite(length)
      modifies this`writepos, this`Contents, data
      ensures Valid()
      ensures Contents == old(Contents) + datain[..length]
      ensures writepos == Slot(size, old(writepos), length)
      ensures readpos == old(readpos) && bufferFullError == old(bufferFullError)
      ensures unchanged(datain)
    {
      var remaining := length;
      var j := 0;
      while remaining > 0
        invariant Valid()
        invariant j + remaining == length
        invariant |Contents| + remaining < size
        invariant Contents == old(Contents) + datain[..j]
        invariant readpos == old(readpos)
      {
        remaining := remaining - 1;
        WriteStep(Contents, data[..], readpos, writepos, datain[j]);
        ghost var next := Slot(size, writepos, 1);
        data[writepos] := datain[j];
        writepos := writepos + 1;
        writepos := if writepos > maxindex then 0 else writepos;
        assert writepos == next;
        Contents := Contents + [datain[j]];
        j := j + 1;
      }
      WriteCursorFromCount(size, readpos, old(writepos), writepos, length);
    }

    /** getFullError: the sticky overflow flag. */
    function GetFullError(): (full: bool)
      reads this
      ensures full == bufferFullError
    {
      bufferFullError
    }

    /** clearFullError: clears the flag and nothing else. */
    method ClearFullError()
      requires Valid()
      modifies this`bufferFullError
      ensures Valid() && !bufferFullError
      ensures readpos == old(readpos) && writepos == old(writepos)
      ensures Contents == old(Contents)
    {
      bufferFullError := false;
    }

    /** reset: discards every queued byte and clears the flag. */
    method Reset()
      requires Valid()
      modifies this`readpos, this`writepos, this`bufferFullError, this`Contents
      ensures Valid()
      ensures readpos == 0 && writepos == 0 && !bufferFullError
      ensures Contents == []
      ensures !CanRead(1) && CanWrite(size - 1)
      ensures unchanged(data)
    {
      readpos := 0;
      writepos := 0;
      bufferFullError := false;
      Contents := [];
    }
  }
}
