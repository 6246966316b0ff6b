/**
  `RingBufferSized<T, Size>`: a fixed-capacity circular FIFO over an array of
  `Size` slots with an input cursor `mIn` (touched only by the producer) and an
  output cursor `mOut` (touched only by the consumer). One slot always stays
  empty, so the number of stored elements is a function of the two cursors
  alone and at most `Size - 1`.
 */
module RingBuffers {

  /**
    Physical index of the slot `k` places after `start`, wrapping at most once
    past the end of the storage.
   */
  function Slot(start: int, k: int, size: int): (i: int)
    requires 0 <= start < size && 0 <= k <= size
    ensures 0 <= i < size
  {
    if start + k < size then start + k else start + k - size
  }

  /** The wrap-around arithmetic above is addition modulo the storage size. */
  lemma SlotIsModular(start: int, k: int, size: int)
    requires 0 <= start < size && 0 <= k <= size
    ensures Slot(start, k, size) == (start + k) % size
  {
    if start + k >= size {
      assert start + k == 1 * size + (start + k - size);
    }
  }

  /** Distinct offsets within one lap are distinct slots. */
  lemma SlotInjective(start: int, j: int, k: int, size: int)
    requires 0 <= start < size && 0 <= j < size && 0 <= k < size
    ensures Slot(start, j, size) == Slot(start, k, size) <==> j == k
  {
  }

  /**
    The number of stored elements, derived from the cursors alone: how far the
    input cursor is ahead of the output cursor around the ring.
   */
  function CursorCount(mIn: int, mOut: int, size: int): (count: int)
    requires 0 <= mIn < size && 0 <= mOut < size
    ensures 0 <= count < size
    ensures Slot(mOut, count, size) == mIn
  {
    var result := mIn - mOut;
    if result < 0 then result + size else result
  }

  /** The count is the unique distance that leads from `mOut` to `mIn`. */
  lemma CursorCountUnique(mIn: int, mOut: int, size: int, d: int)
    requires 0 <= mIn < size && 0 <= mOut < size && 0 <= d < size
    requires Slot(mOut, d, size) == mIn
    ensures d == CursorCount(mIn, mOut, size)
  {
    SlotInjective(mOut, d, CursorCount(mIn, mOut, size), size);
  }

  /**
    Where a two-segment copy of `len1 + len2` elements lands: the first segment
    fills the storage from `start` towards its end, the second continues from
    slot 0. Offset `j` after `start` is written exactly when `j < len1 + len2`,
    and then by the element `j` of the source.
   */
  lemma TwoSegments(start: int, len1: int, len2: int, size: int, j: int)
    requires 0 <= start < size && 0 <= len1 && 0 <= len2 && len1 + len2 < size
    requires start + len1 <= size && (len2 > 0 ==> start + len1 == size)
    requires 0 <= j < size
    ensures var i := Slot(start, j, size);
      && (start <= i < start + len1 <==> j < len1)
      && (start <= i < start + len1 ==> i - start == j)
      && (!(start <= i < start + len1) && i < len2 <==> len1 <= j < len1 + len2)
      && (!(start <= i < start + len1) && i < len2 ==> len1 + i == j)
  {
  }

  /** Advancing the input cursor by `n` slots grows the count by `n`, as long as it stays below the size. */
  lemma CursorAdvance(mOut: int, count: int, n: int, size: int)
    requires 0 <= mOut < size && 0 <= count && 0 <= n && count + n < size
    ensures Slot(Slot(mOut, count, size), n, size) == Slot(mOut, count + n, size)
    ensures CursorCount(Slot(mOut, count + n, size), mOut, size) == count + n
  {
    CursorCountUnique(Slot(mOut, count + n, size), mOut, size, count + n);
  }

  /**
    The slot `k` places after the output cursor, seen from the input cursor
    `count` places further on: old elements lie a lap minus `count` ahead of it,
    new ones `k - count` ahead.
   */
  lemma ReadFromWrite(mOut: int, count: int, k: int, size: int)
    requires 0 <= mOut < size && 0 <= count < size && 0 <= k < size
    ensures k < count ==> Slot(mOut, k, size) == Slot(Slot(mOut, count, size), size - count + k, size)
    ensures count <= k ==> Slot(mOut, k, size) == Slot(Slot(mOut, count, size), k - count, size)
  {
  }

  class RingBufferSized<T(0)> {
    const Size: int
    const mBuffer: array<T>
    var mIn: int
    var mOut: int
    /** The stored elements, oldest first. */
    ghost var Contents: seq<T>

    ghost predicate Valid()
      reads this, mBuffer
    {
      && 1 <= Size && mBuffer.Length == Size
      && 0 <= mIn < Size && 0 <= mOut < Size
      && |Contents| == CursorCount(mIn, mOut, Size)
      && forall k :: 0 <= k < |Contents| ==> Contents[k] == mBuffer[Slot(mOut, k, Size)]
    }

    constructor(size: int)
      requires 1 <= size
      ensures Valid() && fresh(mBuffer)
      ensures Size == size && mIn == 0 && mOut == 0 && Contents == []
    {
      Size := size;
      mBuffer := new T[size];
      mIn, mOut := 0, 0;
      Contents := [];
    }

    /** Empties the buffer by catching the output cursor up with the input cursor. */
    method Clear()
      requires Valid()
      modifies this`mOut, this`Contents
      ensures Valid() && Contents == [] && mOut == mIn
    {
      mOut := mIn;
      Contents := [];
    }

    function GetCount(): (count: int)
      reads this, mBuffer
      requires Valid()
      ensures count == |Contents|
      ensures 0 <= count <= Size - 1
    {
      CursorCount(mIn, mOut, Size)
    }

    function GetSpace(): (space: int)
      reads this, mBuffer
      requires Valid()
      ensures space + |Contents| == Size - 1
      ensures 0 <= space <= Size - 1
    {
      (Size - 1) - GetCount()
    }

    /** Appends `val` unless the buffer is full. */
    method Push(val: T) returns (pushed: bool)
      requires Valid()
      modifies this`mIn, this`Contents, mBuffer
      ensures Valid()
      ensures pushed == (|old(Contents)| < Size - 1)
      ensures Contents == if pushed then old(Contents) + [val] else old(Contents)
      ensures !pushed ==> mIn == old(mIn) && mBuffer[..] == old(mBuffer[..])
    {
      if GetSpace() != 0 {
        mBuffer[mIn] := val;
        mIn := mIn + 1;
        if mIn >= Size {
          mIn := mIn - Size;
        }
        Contents := Contents + [val];
        return true;
      }
      return false;
    }

    /** `memcpy(mBuffer + to, src + from, len * sizeof(T))`, element by element. */
    method CopyIn(src: seq<T>, from: int, to: int, len: int)
      requires mBuffer.Length == Size
      requires 0 <= from && from + len <= |src| && 0 <= to && 0 <= len && to + len <= Size
      modifies mBuffer
      ensures forall i :: 0 <= i < Size ==>
        mBuffer[i] == if to <= i < to + len then src[from + i - to] else old(mBuffer[i])
    {
      var i := 0;
      while i < len
        invariant 0 <= i <= len
        invariant forall j :: 0 <= j < Size ==>
          mBuffer[j] == if to <= j < to + i then src[from + j - to] else old(mBuffer[j])
      {
        mBuffer[to + i] := src[from + i];
        i := i + 1;
      }
    }

    /**
      Copies the first `n` elements of `val` to the `n` slots from the input
      cursor on, in at most two segments (up to the end of the storage, then
      from its start), and advances the input cursor past them.
     */
    method CopyAndAdvance(val: seq<T>, n: int)
      requires mBuffer.Length == Size && 0 <= mIn < Size
      requires 0 < n < Size && n <= |val|
      modifies this`mIn, mBuffer
      ensures mIn == Slot(old(mIn), n, Size)
      ensures forall j :: 0 <= j < Size ==>
        mBuffer[Slot(old(mIn), j, Size)] == if j < n then val[j] else old(mBuffer[Slot(mIn, j, Size)])
    {
      ghost var start, b0 := mIn, mBuffer[..];
      var nToPushRemain := n;
      var lenToCopy1 := Size - mIn;
      if lenToCopy1 > nToPushRemain {
        lenToCopy1 := nToPushRemain;
      }
      CopyIn(val, 0, mIn, lenToCopy1);
      mIn := mIn + lenToCopy1;
      if mIn >= Size {
        mIn := mIn - Size;
      }
      nToPushRemain := nToPushRemain - lenToCopy1;
      ghost var len2 := 0;
      if nToPushRemain != 0 {
        CopyIn(val, lenToCopy1, 0, nToPushRemain);
        len2 := nToPushRemain;
        mIn := if mIn + nToPushRemain >= Size then mIn + nToPushRemain - Size else mIn + nToPushRemain;
      }
      forall j | 0 <= j < Size
        ensures mBuffer[Slot(start, j, Size)] == if j < n then val[j] else b0[Slot(start, j, Size)]
      {
        TwoSegments(start, lenToCopy1, len2, Size, j);
      }
    }

    /**
      Appends as many of the first `nToPushIn` elements of `val` as there is
      space for and returns how many it appended.
     */
    method PushBulk(val: seq<T>, nToPushIn: int) returns (nPushed: int)
      requires Valid()
      requires 0 <= nToPushIn && (nToPushIn <= |val| || Size - 1 - |Contents| <= |val|)
      modifies this`mIn, this`Contents, mBuffer
      ensures Valid()
      ensures nPushed == if nToPushIn > Size - 1 - |old(Contents)| then Size - 1 - |old(Contents)| else nToPushIn
      ensures Contents == old(Contents) + val[..nPushed]
    {
      var nToPushRemain := nToPushIn;
      var space := GetSpace();
      if nToPushRemain > space {
        nToPushRemain := space; // limit to the available space
      } else {
        space := nToPushIn; // the number that will be pushed
      }
      ghost var before, count := Contents, |Contents|;
      if nToPushRemain != 0 {
        CopyAndAdvance(val, nToPushRemain);
      }
      ghost var after := before + val[..space];
      CursorAdvance(mOut, count, space, Size);
      Contents := after;
      forall k | 0 <= k < |after|
        ensures after[k] == mBuffer[Slot(mOut, k, Size)]
      {
        ReadFromWrite(mOut, count, k, Size);
        if k < count {
          assert after[k] == before[k];
        } else {
          assert after[k] == val[k - count];
        }
      }
      nPushed := space;
    }

    /** Copies out the oldest element if there is one; `prior` is what the caller's variable held. */
    method Get(prior: T) returns (got: bool, val: T)
      requires Valid()
      ensures got == (Contents != [])
      ensures val == if got then Contents[0] else prior
    {
      if GetCount() != 0 {
        return true, mBuffer[mOut];
      }
      return false, prior;
    }

    /** The slot at the output cursor: the oldest element when the buffer is not empty. */
    method Peek() returns (val: T)
      requires Valid()
      ensures Contents != [] ==> val == Contents[0]
    {
      val := mBuffer[mOut];
    }

    /**
      Removes and returns the oldest element without checking that there is
      one. On an empty buffer it returns the stale slot at the output cursor and
      moves that cursor past the input cursor, after which the buffer reads as
      full of the stale slots.
     */
    method GetNextUnchecked() returns (val: T)
      requires Valid()
      modifies this`mOut, this`Contents
      ensures Valid()
      ensures old(Contents) != [] ==> val == old(Contents)[0] && Contents == old(Contents)[1..]
      ensures old(Contents) == [] ==> val == old(mBuffer[mOut]) && |Contents| == Size - 1
    {
      val := mBuffer[mOut];
      mOut := mOut + 1;
      if mOut >= Size {
        mOut := mOut - Size;
      }
      if Contents != [] {
        Contents := Contents[1..];
      } else {
        CursorCountUnique(mIn, mOut, Size, Size - 1);
        ghost var out, slots, size := mOut, mBuffer[..], Size;
        Contents := seq(size - 1, k requires 0 <= k < size - 1 => slots[Slot(out, k, size)]);
      }
    }

    /** Removes and returns the oldest element if there is one; `prior` is what the caller's variable held. */
    method GetNext(prior: T) returns (got: bool, val: T)
      requires Valid()
      modifies this`mOut, this`Contents
      ensures Valid()
      ensures got == (old(Contents) != [])
      ensures got ==> val == old(Contents)[0] && Contents == old(Contents)[1..]
      ensures !got ==> val == prior && Contents == old(Contents) && mOut == old(mOut)
    {
      if GetCount() != 0 {
        val := mBuffer[mOut];
        mOut := mOut + 1;
        if mOut >= Size {
          mOut := mOut - Size;
        }
        Contents := Contents[1..];
        return true, val;
      }
      return false, prior;
    }

    /** Drops the oldest element if there is one. */
    method NextOut() returns (skipped: bool)
      requires Valid()
      modifies this`mOut, this`Contents
      ensures Valid()
      ensures skipped == (old(Contents) != [])
      ensures Contents == if skipped then old(Contents)[1..] else old(Contents)
      ensures !skipped ==> mOut == old(mOut)
    {
      if GetCount() != 0 {
        mOut := mOut + 1;
        if mOut >= Size {
          mOut := mOut - Size;
        }
        Contents := Contents[1..];
        return true;
      }
      return false;
    }
  }

  /**
    A buffer of four slots holds three elements: pushing a, b, c succeeds and a
    fourth push fails; after one pop and one more push the elements come out
    in order across the wrap of the storage.
   */
  method WraparoundScenario(a: int, b: int, c: int, d: int) returns (full: bool, out: seq<int>)
    ensures !full && out == [a, b, c, d]
  {
    var rb := new RingBufferSized<int>(4);
    var ok := rb.Push(a);
    ok := rb.Push(b);
    ok := rb.Push(c);
    full := rb.Push(d);
    var x1 := rb.GetNextUnchecked();
    ok := rb.Push(d);
    var x2 := rb.GetNextUnchecked();
    var x3 := rb.GetNextUnchecked();
    var x4 := rb.GetNextUnchecked();
    out := [x1, x2, x3, x4];
  }
}
