// The bounded ring buffer behind a node's pending packets.
module PacketQueue {

  class Queue<T(0)> {
    const capacity: nat
    const overwrite: bool
    const records: array<T>
    var inIdx: nat
    var outIdx: nat
    var count: nat

    ghost predicate Valid()
      reads this, records
    {
      && 0 < capacity == records.Length && inIdx < capacity && outIdx < capacity && count <= capacity
      && inIdx == Slot(count)
    }

    // Where the record stands that has `i` older ones before it.
    function Slot(i: nat): nat
      reads this
    {
      if outIdx + i < capacity then outIdx + i else outIdx + i - capacity
    }

    // The records, oldest first.
    ghost function Contents(): (s: seq<T>)
      requires Valid()
      reads this, records
      ensures |s| == count
    {
      seq(count, i requires 0 <= i < count && Valid() reads this, records => records[Slot(i)])
    }

    constructor (capacity: nat, overwrite: bool)
      requires capacity > 0
      ensures Valid() && fresh(records) && Contents() == []
      ensures this.capacity == capacity && this.overwrite == overwrite
    {
      this.capacity := capacity;
      this.overwrite := overwrite;
      records := new T[capacity];
      inIdx, outIdx, count := 0, 0, 0;
    }

    function Increment(idx: nat): nat {
      if idx + 1 < capacity then idx + 1 else 0
    }

    predicate IsEmpty()
      reads this
    {
      count == 0
    }

    predicate IsFull()
      reads this
    {
      count == capacity
    }

    // A full queue refuses the record, or gives up its oldest one for it.
    method Push(record: T) returns (ok: bool)
      requires Valid()
      modifies this, records
      ensures Valid()
      ensures ok == (overwrite || old(count) < capacity)
      ensures Contents() == if old(count) < capacity then old(Contents()) + [record]
                            else if overwrite then old(Contents())[1..] + [record]
                            else old(Contents())
    {
      if !overwrite && IsFull() {
        return false;
      }
      records[inIdx] := record;
      inIdx := Increment(inIdx);
      if !IsFull() {
        count := count + 1;
      } else if overwrite {
        outIdx := Increment(outIdx);
      }
      ok := true;
    }

    method Pop() returns (ok: bool, record: T)
      requires Valid()
      modifies this
      ensures Valid()
      ensures ok == (old(count) > 0)
      ensures ok ==> record == old(Contents())[0] && Contents() == old(Contents())[1..]
      ensures !ok ==> Contents() == old(Contents())
    {
      if IsEmpty() {
        record := *;
        return false, record;
      }
      record := records[outIdx];
      outIdx := Increment(outIdx);
      count := count - 1;
      ok := true;
    }

    method Peek() returns (ok: bool, record: T)
      requires Valid()
      ensures ok == (count > 0)
      ensures ok ==> record == Contents()[0]
    {
      if IsEmpty() {
        record := *;
        return false, record;
      }
      record := records[outIdx];
      ok := true;
    }
  }
}
