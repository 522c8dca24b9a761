/** The fixed-size circular queue between one sub-HAL writer thread and the poll() reader
    (SensorEventQueue.h and SensorEventQueue.cpp). */
module EventQueue {
  import opened Common

  /** The state of the queue as a value: `start` is the first readable slot, `size` the number of
      readable slots, and the capacity is the length of `data`. */
  datatype Ring<T> = Ring(start: nat, size: nat, data: seq<T>) {

    predicate Valid() {
      start < |data| && size <= |data|
    }

    function Capacity(): nat {
      |data|
    }

    predicate Full() {
      size == |data|
    }

    /** The array index of the k-th record, counted from the first readable one. */
    function Slot(k: nat): (s: nat)
      requires Valid()
      ensures s < |data|
    {
      (start + k) % |data|
    }

    /** The abstract value of the queue: its readable records, oldest first. */
    function Readable(): (r: seq<T>)
      requires Valid()
      ensures |r| == size
    {
      seq(size, k requires 0 <= k < size => data[Slot(k)])
    }

    /** Where the next reserved region begins. */
    function FirstWritable(): nat
      requires Valid()
    {
      Slot(size)
    }

    /** The length getWritableRegion() reports: clipped at the end of the array first, then at the
        start of the readable region. */
    function WritableLength(requested: int): int
      requires Valid()
    {
      if Full() || requested <= 0 then 0
      else
        var first := FirstWritable();
        var last := first + requested - 1;
        var inArray := if last > |data| - 1 then |data| - 1 else last;
        var inGap := if first < start && inArray >= start then start - 1 else inArray;
        inGap - first + 1
    }

    function MarkAsWritten(count: nat): Ring<T> {
      this.(size := size + count)
    }

    function Dequeue(): Ring<T>
      requires Valid()
    {
      if size == 0 then this else this.(start := (start + 1) % |data|, size := size - 1)
    }

    function Write(slot: nat, value: T): Ring<T>
      requires slot < |data|
    {
      this.(data := data[slot := value])
    }

    /** The `length` slots from `first` on are free, and they are the ones that follow the readable
        region: what a writer may rely on between reserving and publishing. */
    ghost predicate Reserved(first: nat, length: nat)
      requires Valid()
    {
      && first == FirstWritable()
      && first + length <= |data|
      && size + length <= |data|
    }
  }

  lemma SlotValue<T>(r: Ring<T>, k: nat)
    requires r.Valid() && k <= |r.data|
    ensures r.Slot(k) == if r.start + k < |r.data| then r.start + k else r.start + k - |r.data|
  {
    WrapOnce(r.start + k, |r.data|);
  }

  /** The region getWritableRegion() returns: never longer than asked or than the free space, at
      least one record when there is space and something was asked, and as long as a contiguous
      region can be (it stops at the request, at the end of the array, or when all space is used). */
  lemma WritableRegion<T>(r: Ring<T>, requested: int)
    requires r.Valid()
    ensures var n := r.WritableLength(requested);
            && 0 <= n
            && (n > 0 <==> !r.Full() && requested > 0)
            && (n > 0 ==>
                  && n <= requested
                  && r.Reserved(r.FirstWritable(), n)
                  && (n == requested || r.FirstWritable() + n == |r.data| || r.size + n == |r.data|))
  {
    SlotValue(r, r.size);
  }

  /** No slot of a reserved region is readable. */
  lemma ReservedIsNotReadable<T>(r: Ring<T>, first: nat, length: nat, k: nat)
    requires r.Valid() && r.Reserved(first, length) && k < r.size
    ensures !(first <= r.Slot(k) < first + length)
  {
    SlotValue(r, r.size);
    SlotValue(r, k);
  }

  /** The writer's stores outside the lock do not disturb the reader. */
  lemma WriteKeepsReadable<T>(r: Ring<T>, first: nat, length: nat, j: nat, value: T)
    requires r.Valid() && r.Reserved(first, length) && j < length
    ensures var w := r.Write(first + j, value);
            w.Valid() && w.Readable() == r.Readable() && w.Reserved(first, length)
  {
    var w := r.Write(first + j, value);
    forall k | 0 <= k < r.size
      ensures w.Readable()[k] == r.Readable()[k]
    {
      ReservedIsNotReadable(r, first, length, k);
    }
  }

  /** Dequeuing removes the oldest record, and a region reserved before it is still reserved and
      still begins right behind the readable records. */
  lemma DequeueIsTail<T>(r: Ring<T>)
    requires r.Valid() && r.size > 0
    ensures var d := r.Dequeue();
            && d.Valid()
            && r.Readable() == [r.data[r.start]] + d.Readable()
            && d.FirstWritable() == r.FirstWritable()
            && forall first: nat, length: nat :: r.Reserved(first, length) ==> d.Reserved(first, length)
  {
    var d := r.Dequeue();
    SlotValue(r, 1);
    SlotValue(r, r.size);
    SlotValue(d, d.size);
    SlotValue(r, 0);
    forall k | 0 <= k < d.size
      ensures d.Readable()[k] == r.Readable()[k + 1]
    {
      SlotValue(d, k);
      SlotValue(r, k + 1);
    }
  }

  /** Publishing appends exactly the records that were stored in the reserved region. */
  lemma PublishAppends<T>(r: Ring<T>, first: nat, count: nat)
    requires r.Valid() && r.Reserved(first, count)
    ensures var p := r.MarkAsWritten(count);
            p.Valid() && p.Readable() == r.Readable() + r.data[first..first + count]
  {
    var p := r.MarkAsWritten(count);
    forall k | 0 <= k < p.size
      ensures p.Readable()[k] == (r.Readable() + r.data[first..first + count])[k]
    {
      SlotValue(r, r.size);
      SlotValue(r, k);
      if k >= r.size {
        assert r.Slot(k) == first + (k - r.size);
      }
    }
  }

  /** The queue object itself. */
  class SensorEventQueue<T(0)> {
    const mCapacity: int
    var mStart: nat
    var mSize: nat
    const mData: array<T>

    ghost predicate Valid()
      reads this, mData
    {
      mCapacity == mData.Length && View().Valid()
    }

    ghost function View(): Ring<T>
      reads this, mData
    {
      Ring(mStart, mSize, mData[..])
    }

    constructor (capacity: int)
      requires capacity > 0
      ensures Valid() && fresh(mData)
      ensures View().Readable() == [] && View().Capacity() == capacity
    {
      mCapacity := capacity;
      mStart := 0;
      mSize := 0;
      mData := new T[capacity];
    }

    /** `region` is the index `*out` points at; None stands for NULL. */
    method GetWritableRegion(requestedLength: int) returns (length: int, region: Option<nat>)
      requires Valid()
      ensures length == View().WritableLength(requestedLength)
      ensures region == if length == 0 then None else Some(View().FirstWritable())
      ensures 0 <= length <= mCapacity
      ensures length > 0 <==> mSize < mCapacity && requestedLength > 0
      ensures length > 0 ==> length <= requestedLength && View().Reserved(region.value, length)
    {
      WritableRegion(View(), requestedLength);
      if mSize == mCapacity || requestedLength <= 0 {
        return 0, None;
      }
      var firstWritable := (mStart + mSize) % mCapacity;
      var lastWritable := firstWritable + requestedLength - 1;
      if lastWritable > mCapacity - 1 {
        lastWritable := mCapacity - 1;
      }
      if firstWritable < mStart && lastWritable >= mStart {
        lastWritable := mStart - 1;
      }
      return lastWritable - firstWritable + 1, Some(firstWritable);
    }

    /** The caller has stored `count` records in the region reserved last. */
    method MarkAsWritten(count: nat)
      requires Valid()
      requires View().Reserved(View().FirstWritable(), count)
      modifies this`mSize
      ensures Valid() && View() == old(View()).MarkAsWritten(count)
      ensures View().Readable() == old(View().Readable())
                                   + old(mData[View().FirstWritable()..View().FirstWritable() + count])
    {
      PublishAppends(View(), View().FirstWritable(), count);
      mSize := mSize + count;
    }

    method GetSize() returns (size: int)
      requires Valid()
      ensures size == |View().Readable()|
    {
      return mSize;
    }

    method Peek() returns (event: Option<T>)
      requires Valid()
      ensures event == if View().Readable() == [] then None else Some(View().Readable()[0])
    {
      if mSize == 0 {
        return None;
      }
      SlotValue(View(), 0);
      return Some(mData[mStart]);
    }

    /** `broadcast` tells whether the space-available condition was signalled. */
    method Dequeue() returns (broadcast: bool)
      requires Valid()
      modifies this`mStart, this`mSize
      ensures Valid() && View() == old(View()).Dequeue()
      ensures broadcast <==> old(View()).Full()
      ensures var before := old(View().Readable());
              View().Readable() == if before == [] then [] else before[1..]
    {
      if mSize == 0 {
        return false;
      }
      DequeueIsTail(View());
      broadcast := mSize == mCapacity;
      mSize := mSize - 1;
      mStart := (mStart + 1) % mCapacity;
    }
  }
}
