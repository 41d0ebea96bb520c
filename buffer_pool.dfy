/**
 * `BufferPool`: a fixed table of slots that keeps socket buffers of one size
 * for reuse. Taking a buffer empties the lowest occupied slot; releasing one
 * fills the lowest empty slot, or drops the buffer when the table is full.
 */
module Pool {
  import opened Common
  import Numeric

  const POOL_SIZE: nat := 1000
  /** The size of a pooled buffer: an Ethernet MTU less some headers. */
  const BUFFER_LENGTH: nat := 1450

  type Slots = seq<array?<byte>>

  /** The lowest occupied slot, or -1 when every slot is empty. */
  function FirstOccupied(s: Slots): (i: int)
    ensures -1 <= i < |s|
    ensures i >= 0 ==> s[i] != null
    ensures forall j :: 0 <= j < |s| && (i < 0 || j < i) ==> s[j] == null
  {
    if |s| == 0 then -1
    else if s[0] != null then 0
    else
      var k := FirstOccupied(s[1..]);
      if k < 0 then -1 else k + 1
  }

  /** The lowest empty slot, or -1 when every slot is occupied. */
  function FirstEmpty(s: Slots): (i: int)
    ensures -1 <= i < |s|
    ensures i >= 0 ==> s[i] == null
    ensures forall j :: 0 <= j < |s| && (i < 0 || j < i) ==> s[j] != null
  {
    if |s| == 0 then -1
    else if s[0] == null then 0
    else
      var k := FirstEmpty(s[1..]);
      if k < 0 then -1 else k + 1
  }

  /** The slots after taking a buffer: the lowest occupied one emptied. */
  function Taken(s: Slots): Slots {
    var i := FirstOccupied(s);
    if i < 0 then s else s[i := null]
  }

  /** The slots after releasing a pool-sized `b`: it fills the lowest empty slot, if any. */
  function Released(s: Slots, b: array<byte>): Slots {
    var i := FirstEmpty(s);
    if i < 0 then s else s[i := b]
  }

  /** How many slots hold a buffer. */
  function Occupied(s: Slots): (n: nat)
    ensures n <= |s|
  {
    if |s| == 0 then 0 else (if s[0] != null then 1 else 0) + Occupied(s[1..])
  }

  /** Setting one slot changes the count by what that slot held before and after. */
  lemma {:induction false} OccupiedUpdate(s: Slots, i: nat, b: array?<byte>)
    requires i < |s|
    ensures Occupied(s[i := b]) + (if s[i] != null then 1 else 0) == Occupied(s) + (if b != null then 1 else 0)
    decreases |s|
  {
    if i > 0 {
      OccupiedUpdate(s[1..], i - 1, b);
      assert s[i := b][1..] == s[1..][i - 1 := b];
    } else {
      assert s[i := b][1..] == s[1..];
    }
  }

  /**
   * Taking a buffer and releasing it straight back keeps the number of pooled
   * buffers when the pool had one to give; from an empty pool the fresh
   * buffer is kept, in the lowest slot.
   */
  lemma TakeThenRelease(s: Slots, b: array<byte>)
    requires |s| > 0
    requires FirstOccupied(s) >= 0 ==> b == s[FirstOccupied(s)]
    ensures FirstOccupied(s) >= 0 ==> Occupied(Released(Taken(s), b)) == Occupied(s)
    ensures FirstOccupied(s) < 0 ==> Occupied(Released(Taken(s), b)) == 1 && Released(Taken(s), b)[0] == b
  {
    var i := FirstOccupied(s);
    if i >= 0 {
      OccupiedUpdate(s, i, null);
      var t := s[i := null];
      var k := FirstEmpty(t);
      assert k >= 0 && k <= i;
      OccupiedUpdate(t, k, b);
    } else {
      AllEmpty(s);
      assert FirstEmpty(s) == 0;
      OccupiedUpdate(s, 0, b);
    }
  }

  /** A table with no occupied slot counts none. */
  lemma {:induction false} AllEmpty(s: Slots)
    requires forall j :: 0 <= j < |s| ==> s[j] == null
    ensures Occupied(s) == 0
    decreases |s|
  {
    if |s| > 0 {
      AllEmpty(s[1..]);
    }
  }

  /** The pool: `SPool`, its slots holding buffers of `BUFFER_LENGTH` bytes or null. */
  class BufferPool {
    const slots: array<array?<byte>>

    ghost predicate Valid()
      reads this, slots
    {
      slots.Length == POOL_SIZE
      && forall i :: 0 <= i < slots.Length && slots[i] != null ==> slots[i].Length == BUFFER_LENGTH
    }

    constructor ()
      ensures Valid() && forall i :: 0 <= i < slots.Length ==> slots[i] == null
    {
      slots := new array?<byte>[POOL_SIZE](_ => null);
    }

    /** `Flush`: every slot emptied; the buffers in them are dropped. */
    method Flush()
      requires Valid()
      modifies slots
      ensures Valid() && forall i :: 0 <= i < slots.Length ==> slots[i] == null
    {
      for i := 0 to slots.Length
        invariant Valid() && forall j :: 0 <= j < i ==> slots[j] == null
      {
        slots[i] := null;
      }
    }

    /**
     * `GetBuffer`: the buffer of the lowest occupied slot, which is emptied; a
     * new zeroed buffer when the pool is empty, which is then left as it is.
     */
    method GetBuffer() returns (b: array<byte>)
      requires Valid()
      modifies slots
      ensures Valid() && b.Length == BUFFER_LENGTH
      ensures slots[..] == Taken(old(slots[..]))
      ensures FirstOccupied(old(slots[..])) >= 0 ==> b == old(slots[FirstOccupied(slots[..])])
      ensures FirstOccupied(old(slots[..])) < 0 ==> fresh(b) && forall k :: 0 <= k < b.Length ==> b[k] == 0
    {
      ghost var s := slots[..];
      for i := 0 to slots.Length
        invariant slots[..] == s
        invariant forall j :: 0 <= j < i ==> s[j] == null
      {
        var tmp := slots[i];
        slots[i] := null;
        if tmp != null {
          assert FirstOccupied(s) == i;
          return tmp;
        }
      }
      b := new byte[BUFFER_LENGTH](_ => 0);
    }

    /**
     * `ReleaseBufferToPool(ref buffer)`: a pool-sized buffer goes into the lowest
     * empty slot and any other is not kept; the caller's reference is null
     * afterwards in every case.
     */
    method ReleaseBufferToPool(buffer: array?<byte>) returns (after: array?<byte>)
      requires Valid()
      modifies slots
      ensures Valid() && after == null
      ensures buffer != null && buffer.Length == BUFFER_LENGTH ==> slots[..] == Released(old(slots[..]), buffer)
      ensures buffer == null || buffer.Length != BUFFER_LENGTH ==> slots[..] == old(slots[..])
    {
      if buffer == null {
        return null;
      }
      if buffer.Length == BUFFER_LENGTH {
        ghost var s := slots[..];
        for i := 0 to slots.Length
          invariant slots[..] == s
          invariant forall j :: 0 <= j < i ==> s[j] != null
        {
          if slots[i] == null {
            slots[i] := buffer;
            assert FirstEmpty(s) == i;
            break;
          }
        }
      }
      after := null;
    }

    /**
     * `ResizeAndFlushLeft(ref buffer, toFitAtLeastBytes, copyFromIndex, copyBytes)`:
     * a new zeroed buffer, twice as long or long enough for `toFitAtLeastBytes`
     * (the doubling is 32-bit: when it overflows, `toFitAtLeastBytes` is taken),
     * beginning with the `copyBytes` bytes from `copyFromIndex` of the old one; a
     * pool-sized old buffer is released to the pool.
     */
    method ResizeAndFlushLeft(buffer: array<byte>, toFitAtLeastBytes: int, copyFromIndex: int, copyBytes: int)
      returns (newBuffer: array<byte>)
      requires Valid()
      requires toFitAtLeastBytes <= Numeric.INT32_MAX
      requires toFitAtLeastBytes > buffer.Length && copyFromIndex >= 0 && copyBytes >= 0
      requires copyFromIndex + copyBytes <= buffer.Length
      modifies slots
      ensures Valid() && fresh(newBuffer)
      ensures newBuffer.Length ==
        if 2 * buffer.Length <= Numeric.INT32_MAX && 2 * buffer.Length >= toFitAtLeastBytes then 2 * buffer.Length
        else toFitAtLeastBytes
      ensures newBuffer[..copyBytes] == buffer[copyFromIndex..copyFromIndex + copyBytes]
      ensures forall k :: copyBytes <= k < newBuffer.Length ==> newBuffer[k] == 0
      ensures buffer.Length == BUFFER_LENGTH ==> slots[..] == Released(old(slots[..]), buffer)
      ensures buffer.Length != BUFFER_LENGTH ==> slots[..] == old(slots[..])
    {
      var newLength := buffer.Length * 2;
      if newLength > Numeric.INT32_MAX {
        newLength := newLength - 0x1_0000_0000;
      }
      if newLength < toFitAtLeastBytes {
        newLength := toFitAtLeastBytes;
      }
      newBuffer := new byte[newLength](_ => 0);
      if copyBytes > 0 {
        forall k | 0 <= k < copyBytes {
          newBuffer[k] := buffer[copyFromIndex + k];
        }
      }
      if buffer.Length == BUFFER_LENGTH {
        assert slots[..] == old(slots[..]);
        var _ := ReleaseBufferToPool(buffer);
      }
    }
  }
}
