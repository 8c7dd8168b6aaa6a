/** Growable arrays (lib/vector.c). */
module Vectors {
  import opened Common

  function NextCapacity(capacity: nat): nat {
    if capacity > 0 then capacity * 2 else 8
  }

  class Vector<T(0)> {
    var data: array<T>
    var count: nat
    var capacity: nat
    var dtor: bool
    /** The entries the destructor was called for. */
    ghost var destroyed: seq<T>

    /** An empty vector keeps at most one slot. */
    ghost predicate Valid()
      reads this
    {
      count <= capacity == data.Length && (count == 0 ==> capacity <= 1)
    }

    ghost function Contents(): (r: seq<T>)
      requires Valid()
      reads this, data
      ensures |r| == count
    {
      data[..count]
    }

    constructor ()
      ensures Valid() && fresh(data) && Contents() == [] && capacity == 0 && !dtor && destroyed == []
    {
      data := new T[0];
      count, capacity, dtor, destroyed := 0, 0, false, [];
    }

    /** Moves the slots to an array of another size. */
    method Realloc(newCapacity: nat)
      requires count <= capacity == data.Length && count <= newCapacity
      modifies `data, `capacity
      ensures fresh(data) && capacity == data.Length == newCapacity && data[..count] == old(data[..count])
    {
      var newData := new T[newCapacity];
      var kept := Min(capacity, newCapacity);
      var i := 0;
      while i != kept
        invariant i <= kept && forall k :: 0 <= k < i ==> newData[k] == data[k]
        decreases kept - i
        modifies newData
      {
        newData[i] := data[i];
        i := i + 1;
      }
      data, capacity := newData, newCapacity;
    }

    method More()
      requires Valid()
      modifies `data, `capacity
      ensures fresh(data) && count < capacity == data.Length && data[..count] == old(data[..count])
      ensures capacity == if old(capacity) == 0 then 8 else old(capacity) * 2
    {
      Realloc(NextCapacity(capacity));
    }

    /** Gives slots back until less than half of them plus one are unused. */
    method Less()
      requires count <= capacity == data.Length
      modifies `data, `capacity
      ensures Valid() && (data == old(data) || fresh(data)) && Contents() == old(data[..count])
      ensures capacity <= 2 * count + 1 && (capacity == old(capacity) || count < capacity)
    {
      var newCapacity := capacity;
      while count < newCapacity / 2
        invariant count <= newCapacity && (newCapacity == capacity || count < newCapacity)
      {
        newCapacity := newCapacity / 2;
      }
      if newCapacity == capacity {
        return;
      }
      Realloc(newCapacity);
    }

    method Push(entry: T)
      requires Valid()
      modifies `data, `count, `capacity, data
      ensures Valid() && (data == old(data) || fresh(data)) && Contents() == old(Contents()) + [entry]
    {
      if count == capacity {
        More();
      }
      data[count] := entry;
      count := count + 1;
    }

    method Insert(index: nat, entry: T)
      requires Valid() && index <= count
      modifies `data, `count, `capacity, data
      ensures Valid() && (data == old(data) || fresh(data))
      ensures Contents() == old(Contents()[..index]) + [entry] + old(Contents()[index..])
    {
      if index == count {
        Push(entry);
        return;
      }
      if count == capacity {
        More();
      }
      ghost var was := data[..count];
      MoveUp(index);
      data[index] := entry;
      count := count + 1;
      Inserted(was, data[..count], index, entry);
    }

    /** Moves the entries from `index` on up by one slot. */
    method MoveUp(index: nat)
      requires index < count < data.Length
      modifies data
      ensures forall k {:trigger data[k]} :: 0 <= k < index ==> data[k] == old(data[k])
      ensures forall k {:trigger data[k]} :: index < k <= count ==> data[k] == old(data[..])[k - 1]
    {
      ghost var was := data[..];
      var i := count;
      while i != index
        invariant index <= i <= count
        invariant forall k {:trigger data[k]} :: 0 <= k <= i ==> data[k] == was[k]
        invariant forall k {:trigger data[k]} :: i < k <= count ==> data[k] == was[k - 1]
        decreases i - index
        modifies data
      {
        data[i] := data[i - 1];
        i := i - 1;
      }
    }

    /** Moves the entries from `end` on down to `index`. */
    method MoveDown(index: nat, end: nat)
      requires index <= end <= count <= data.Length
      modifies data
      ensures forall k {:trigger data[k]} :: 0 <= k < index ==> data[k] == old(data[k])
      ensures forall k {:trigger data[k]} :: index <= k < index + (count - end) ==>
                data[k] == old(data[..])[k + (end - index)]
    {
      ghost var was := data[..];
      var remaining := count - end;
      var i := 0;
      while i != remaining
        invariant i <= remaining
        invariant forall k {:trigger data[k]} :: 0 <= k < index ==> data[k] == was[k]
        invariant forall k {:trigger data[k]} :: index <= k < index + i ==> data[k] == was[k + (end - index)]
        invariant forall k {:trigger data[k]} :: end + i <= k < count ==> data[k] == was[k]
        decreases remaining - i
        modifies data
      {
        data[index + i] := data[end + i];
        i := i + 1;
      }
    }

    /** Appends entries whose values the caller still has to write. */
    method AppendUninitialized(n: nat) returns (end: nat)
      requires Valid()
      modifies `data, `count, `capacity
      ensures Valid() && (data == old(data) || fresh(data))
      ensures end == old(count) && count == end + n && Contents()[..end] == old(Contents())
    {
      if count + n > capacity {
        var least := count + n;
        Realloc(if NextCapacity(capacity) < least then least else NextCapacity(capacity));
      }
      end := count;
      count := count + n;
      assert data[..count][..end] == data[..end];
    }

    method Pop()
      requires Valid()
      modifies `data, `count, `capacity, `destroyed
      ensures Valid() && (data == old(data) || fresh(data)) && capacity <= 2 * count + 1
      ensures old(count) == 0 ==> Contents() == [] && destroyed == old(destroyed)
      ensures old(count) > 0 ==>
                && Contents() == old(Contents()[..count - 1])
                && destroyed == old(destroyed) + if dtor then [old(Contents()[count - 1])] else []
    {
      if count == 0 {
        return;
      }
      ghost var was := data[..count];
      if dtor {
        destroyed := destroyed + [data[count - 1]];
      }
      count := count - 1;
      assert data[..count] == was[..count];
      Less();
    }

    method Remove(index: nat, n: nat)
      requires Valid() && index + n <= count
      modifies `data, `count, `capacity, `destroyed, data
      ensures Valid() && (data == old(data) || fresh(data)) && capacity <= 2 * count + 1
      ensures Contents() == old(Contents()[..index]) + old(Contents()[index + n..])
      ensures destroyed == old(destroyed) + if dtor then old(Contents()[index..index + n]) else []
    {
      ghost var was := data[..count];
      var end := index + n;
      if dtor {
        destroyed := destroyed + data[index..end];
      }
      MoveDown(index, end);
      count := count - n;
      Removed(was, data[..count], index, end);
      Less();
    }

    method Replace(index: nat, entry: T)
      requires Valid() && index < count
      modifies `destroyed, data
      ensures Valid() && Contents() == old(Contents())[index := entry]
      ensures destroyed == old(destroyed) + if dtor then [old(Contents()[index])] else []
    {
      if dtor {
        destroyed := destroyed + [data[index]];
      }
      data[index] := entry;
    }

    method Clear()
      requires Valid()
      modifies `data, `count, `capacity, `destroyed
      ensures Valid() && fresh(data) && Contents() == [] && capacity == 0
      ensures destroyed == old(destroyed) + if dtor then old(Contents()) else []
    {
      if dtor {
        destroyed := destroyed + data[..count];
      }
      data := new T[0];
      count, capacity := 0, 0;
    }
  }

  lemma Inserted<T>(was: seq<T>, now: seq<T>, index: nat, entry: T)
    requires index <= |was| && |now| == |was| + 1 && now[index] == entry
    requires forall k {:trigger now[k]} :: 0 <= k < index ==> now[k] == was[k]
    requires forall k {:trigger now[k]} :: index < k < |now| ==> now[k] == was[k - 1]
    ensures now == was[..index] + [entry] + was[index..]
  {
  }

  lemma Removed<T>(was: seq<T>, now: seq<T>, index: nat, end: nat)
    requires index <= end <= |was| && |now| == |was| - (end - index)
    requires forall k {:trigger now[k]} :: 0 <= k < index ==> now[k] == was[k]
    requires forall k {:trigger now[k]} :: index <= k < |now| ==> now[k] == was[k + (end - index)]
    ensures now == was[..index] + was[end..]
  {
  }
}
