/** A map over two parallel vectors with ascending keys (lib/map.c). */
module SortedMap {
  import opened Common
  import opened Vectors

  type Compare<!K> = (K, K) -> int

  /** A comparator orders its keys totally; keys that compare equal need not be the same. */
  ghost predicate TotalOrder<K(!new)>(cmp: Compare<K>) {
    && (forall a, b {:trigger cmp(a, b)} :: (cmp(a, b) < 0 <==> cmp(b, a) > 0) && (cmp(a, b) == 0 <==> cmp(b, a) == 0))
    && (forall a, b, c {:trigger cmp(a, b), cmp(b, c)} :: cmp(a, b) <= 0 && cmp(b, c) <= 0 ==> cmp(a, c) <= 0)
    && (forall a, b, c {:trigger cmp(a, b), cmp(b, c)} :: cmp(a, b) < 0 && cmp(b, c) <= 0 ==> cmp(a, c) < 0)
    && (forall a, b, c {:trigger cmp(a, b), cmp(b, c)} :: cmp(a, b) <= 0 && cmp(b, c) < 0 ==> cmp(a, c) < 0)
  }

  ghost predicate Ascending<K>(cmp: Compare<K>, keys: seq<K>) {
    forall i, j :: 0 <= i < j < |keys| ==> cmp(keys[i], keys[j]) < 0
  }

  /** The value stored for a key: the finite map that the two lists stand for. */
  function Lookup<K, V>(cmp: Compare<K>, keys: seq<K>, values: seq<V>, key: K): Option<V>
    requires |keys| == |values|
  {
    if keys == [] then None
    else if cmp(key, keys[0]) == 0 then Some(values[0])
    else Lookup(cmp, keys[1..], values[1..], key)
  }

  lemma Flip<K(!new)>(cmp: Compare<K>, a: K, b: K)
    requires TotalOrder(cmp)
    ensures (cmp(a, b) < 0 <==> cmp(b, a) > 0) && (cmp(a, b) == 0 <==> cmp(b, a) == 0)
            && (cmp(a, b) > 0 <==> cmp(b, a) < 0)
  {
    assert cmp(b, a) < 0 <==> cmp(a, b) > 0;
  }

  lemma Chain<K(!new)>(cmp: Compare<K>, a: K, b: K, c: K)
    requires TotalOrder(cmp) && cmp(a, b) <= 0 && cmp(b, c) <= 0
    ensures cmp(a, c) <= 0 && (cmp(a, b) < 0 || cmp(b, c) < 0 ==> cmp(a, c) < 0)
  {
  }

  /** A key that is not above entry `i` is below all later ones. */
  lemma {:induction false} BelowRest<K(!new)>(cmp: Compare<K>, keys: seq<K>, key: K, i: nat)
    requires TotalOrder(cmp) && Ascending(cmp, keys) && i < |keys| && cmp(key, keys[i]) <= 0
    ensures forall j :: i < j < |keys| ==> cmp(key, keys[j]) < 0
  {
    hide TotalOrder;
    forall j | i < j < |keys| ensures cmp(key, keys[j]) < 0 {
      Chain(cmp, key, keys[i], keys[j]);
    }
  }

  /** A key that is not below entry `i` is above all earlier ones. */
  lemma {:induction false} AboveFront<K(!new)>(cmp: Compare<K>, keys: seq<K>, key: K, i: nat)
    requires TotalOrder(cmp) && Ascending(cmp, keys) && i < |keys| && cmp(key, keys[i]) >= 0
    ensures forall j :: 0 <= j < i ==> cmp(key, keys[j]) > 0
  {
    hide TotalOrder;
    forall j | 0 <= j < i ensures cmp(key, keys[j]) > 0 {
      Flip(cmp, key, keys[i]);
      Chain(cmp, keys[j], keys[i], key);
      Flip(cmp, key, keys[j]);
    }
  }

  /** Keys that compare equal are equal to the same entries. */
  lemma {:induction false} SameEntry<K(!new)>(cmp: Compare<K>, key: K, other: K, entry: K)
    requires TotalOrder(cmp) && cmp(key, entry) == 0
    ensures cmp(other, key) == 0 <==> cmp(other, entry) == 0
  {
    hide TotalOrder;
    Flip(cmp, key, entry);
    Flip(cmp, other, key);
    Flip(cmp, other, entry);
    if cmp(other, key) == 0 {
      Chain(cmp, other, key, entry);
      Chain(cmp, entry, key, other);
    } else if cmp(other, entry) == 0 {
      Chain(cmp, other, entry, key);
      Chain(cmp, key, entry, other);
    }
  }

  lemma {:induction false} LookupAt<K(!new), V>(cmp: Compare<K>, keys: seq<K>, values: seq<V>, key: K, i: nat)
    requires |keys| == |values| && TotalOrder(cmp) && Ascending(cmp, keys) && i < |keys| && cmp(key, keys[i]) == 0
    ensures Lookup(cmp, keys, values, key) == Some(values[i])
  {
    hide TotalOrder;
    if i > 0 {
      AboveFront(cmp, keys, key, i);
      LookupAt(cmp, keys[1..], values[1..], key, i - 1);
    }
  }

  lemma {:induction false} LookupNowhere<K, V>(cmp: Compare<K>, keys: seq<K>, values: seq<V>, key: K)
    requires |keys| == |values| && forall i :: 0 <= i < |keys| ==> cmp(key, keys[i]) != 0
    ensures Lookup(cmp, keys, values, key) == None
  {
    if keys != [] {
      LookupNowhere(cmp, keys[1..], values[1..], key);
    }
  }

  /** Where a key is, if it is anywhere. */
  lemma {:induction false} LookupIs<K(!new), V>(cmp: Compare<K>, keys: seq<K>, values: seq<V>, key: K) returns (i: nat)
    requires |keys| == |values| && TotalOrder(cmp) && Ascending(cmp, keys)
    ensures i <= |keys|
    ensures i < |keys| ==> cmp(key, keys[i]) == 0 && Lookup(cmp, keys, values, key) == Some(values[i])
    ensures i == |keys| ==> Lookup(cmp, keys, values, key) == None
    ensures i == |keys| ==> forall k :: 0 <= k < |keys| ==> cmp(key, keys[k]) != 0
  {
    hide TotalOrder, Lookup;
    i := 0;
    while i < |keys| && cmp(key, keys[i]) != 0
      invariant i <= |keys| && forall k :: 0 <= k < i ==> cmp(key, keys[k]) != 0
    {
      i := i + 1;
    }
    if i < |keys| {
      LookupAt(cmp, keys, values, key, i);
    } else {
      LookupNowhere(cmp, keys, values, key);
    }
  }

  function Spliced<T>(s: seq<T>, i: nat, x: T): seq<T>
    requires i <= |s|
  {
    s[..i] + [x] + s[i..]
  }

  function Without<T>(s: seq<T>, i: nat): seq<T>
    requires i < |s|
  {
    s[..i] + s[i + 1..]
  }

  /** `index` is where the key belongs. */
  ghost predicate Fits<K>(cmp: Compare<K>, keys: seq<K>, key: K, index: nat) {
    && index <= |keys|
    && (forall i :: 0 <= i < index ==> cmp(key, keys[i]) > 0)
    && (forall i :: index <= i < |keys| ==> cmp(key, keys[i]) < 0)
  }

  lemma {:induction false} SpliceKeepsOrder<K(!new)>(cmp: Compare<K>, keys: seq<K>, key: K, index: nat)
    requires TotalOrder(cmp) && Ascending(cmp, keys) && Fits(cmp, keys, key, index)
    ensures Ascending(cmp, Spliced(keys, index, key))
  {
    hide TotalOrder;
    var now := Spliced(keys, index, key);
    forall i, j | 0 <= i < j < |now| ensures cmp(now[i], now[j]) < 0 {
      if i == index {
        assert cmp(key, keys[j - 1]) < 0;
      } else if j == index {
        Flip(cmp, key, keys[i]);
      }
    }
  }

  /** Inserting a new key changes the map at that key only. */
  lemma {:induction false} SpliceUpdates<K(!new), V>(cmp: Compare<K>, keys: seq<K>, values: seq<V>, key: K, value: V,
                                           index: nat, other: K)
    requires TotalOrder(cmp) && Ascending(cmp, keys) && |keys| == |values| && Fits(cmp, keys, key, index)
    ensures Lookup(cmp, Spliced(keys, index, key), Spliced(values, index, value), other)
         == if cmp(other, key) == 0 then Some(value) else Lookup(cmp, keys, values, other)
  {
    hide TotalOrder, Lookup;
    SpliceKeepsOrder(cmp, keys, key, index);
    var ks, vs := Spliced(keys, index, key), Spliced(values, index, value);
    if cmp(other, key) == 0 {
      LookupAt(cmp, ks, vs, other, index);
    } else {
      var i := LookupIs(cmp, keys, values, other);
      if i < |keys| {
        LookupAt(cmp, ks, vs, other, if i < index then i else i + 1);
      } else {
        forall k | 0 <= k < |ks| ensures cmp(other, ks[k]) != 0 {
          if k != index {
            assert ks[k] == keys[if k < index then k else k - 1];
          }
        }
        LookupNowhere(cmp, ks, vs, other);
      }
    }
  }

  /** Replacing an entry by one with an equal key changes the map at that key only. */
  lemma {:induction false} ReplaceUpdates<K(!new), V>(cmp: Compare<K>, keys: seq<K>, values: seq<V>, key: K, value: V,
                                            index: nat, other: K)
    requires TotalOrder(cmp) && Ascending(cmp, keys) && |keys| == |values| && index < |keys|
             && cmp(key, keys[index]) == 0
    ensures Ascending(cmp, keys[index := key])
    ensures Lookup(cmp, keys[index := key], values[index := value], other)
         == if cmp(other, key) == 0 then Some(value) else Lookup(cmp, keys, values, other)
  {
    hide TotalOrder, Lookup;
    var ks, vs := keys[index := key], values[index := value];
    BelowRest(cmp, keys, key, index);
    AboveFront(cmp, keys, key, index);
    forall j | 0 <= j < index ensures cmp(keys[j], key) < 0 {
      Flip(cmp, key, keys[j]);
    }
    if cmp(other, key) == 0 {
      LookupAt(cmp, ks, vs, other, index);
    } else {
      var i := LookupIs(cmp, keys, values, other);
      SameEntry(cmp, key, other, keys[index]);
      if i < |keys| {
        LookupAt(cmp, ks, vs, other, i);
      } else {
        LookupNowhere(cmp, ks, vs, other);
      }
    }
  }

  /** Removing an entry changes the map at its key only. */
  lemma {:induction false} RemoveUpdates<K(!new), V>(cmp: Compare<K>, keys: seq<K>, values: seq<V>, key: K, index: nat,
                                           other: K)
    requires TotalOrder(cmp) && Ascending(cmp, keys) && |keys| == |values| && index < |keys|
             && cmp(key, keys[index]) == 0
    ensures Ascending(cmp, Without(keys, index))
    ensures Lookup(cmp, Without(keys, index), Without(values, index), other)
         == if cmp(other, key) == 0 then None else Lookup(cmp, keys, values, other)
  {
    hide TotalOrder, Lookup;
    var ks, vs := Without(keys, index), Without(values, index);
    assert forall k :: 0 <= k < |ks| ==> ks[k] == keys[if k < index then k else k + 1];
    SameEntry(cmp, key, other, keys[index]);
    var i := LookupIs(cmp, keys, values, other);
    if i < |keys| && i != index {
      OnlyEntry(cmp, keys, other, i);
      LookupAt(cmp, ks, vs, other, if i < index then i else i - 1);
    } else {
      if i == index {
        OnlyEntry(cmp, keys, other, index);
      }
      LookupNowhere(cmp, ks, vs, other);
    }
  }

  /** A key equals at most one entry. */
  lemma {:induction false} OnlyEntry<K(!new)>(cmp: Compare<K>, keys: seq<K>, key: K, i: nat)
    requires TotalOrder(cmp) && Ascending(cmp, keys) && i < |keys| && cmp(key, keys[i]) == 0
    ensures forall j :: 0 <= j < |keys| && j != i ==> cmp(key, keys[j]) != 0
  {
    BelowRest(cmp, keys, key, i);
    AboveFront(cmp, keys, key, i);
  }

  class Map<K(0, !new), V(0)> {
    const compare: Compare<K>
    const keys: Vector<K>
    const values: Vector<V>

    /** Both vectors and their slots. */
    ghost function Repr(): set<object>
      reads keys, values
    {
      {this, keys, values, keys.data, values.data}
    }

    ghost predicate Valid()
      reads this, keys, values, keys.data, values.data
    {
      && TotalOrder(compare)
      && (keys as object) != values && (keys.data as object) != values.data
      && keys.Valid() && values.Valid() && keys.count == values.count
      && Ascending(compare, keys.Contents())
    }

    /** The finite map this object holds. */
    ghost function At(key: K): Option<V>
      requires Valid()
      reads this, keys, values, keys.data, values.data
    {
      Lookup(compare, keys.Contents(), values.Contents(), key)
    }

    constructor (compare: Compare<K>)
      requires TotalOrder(compare)
      ensures Valid() && fresh(Repr()) && forall key :: At(key) == None
    {
      this.compare := compare;
      keys := new Vector<K>();
      values := new Vector<V>();
    }

    /** Binary search for the key, or for the place where it belongs. */
    method FindIndex(key: K) returns (found: bool, index: nat)
      requires Valid()
      ensures found ==>
                index < keys.count && compare(key, keys.Contents()[index]) == 0
                && At(key) == Some(values.Contents()[index])
      ensures !found ==> Fits(compare, keys.Contents(), key, index) && At(key) == None
    {
      hide TotalOrder, Lookup;
      var a, b := 0, keys.count;
      ghost var ks := keys.Contents();
      if b == 0 {
        LookupNowhere(compare, ks, values.Contents(), key);
        return false, 0;
      }
      while a < b
        invariant a <= b <= |ks|
        invariant forall i :: 0 <= i < a ==> compare(key, ks[i]) > 0
        invariant forall i :: b <= i < |ks| ==> compare(key, ks[i]) < 0
        decreases b - a
      {
        var i := (a + b) / 2;
        var c := compare(key, keys.data[i]);
        assert keys.data[i] == ks[i];
        if c < 0 {
          BelowRest(compare, ks, key, i);
          b := i;
        } else if c > 0 {
          AboveFront(compare, ks, key, i);
          a := i + 1;
        } else {
          LookupAt(compare, ks, values.Contents(), key, i);
          return true, i;
        }
      }
      LookupNowhere(compare, ks, values.Contents(), key);
      if b == keys.count {
        return false, b;
      }
      assert keys.data[b] == ks[b];
      return compare(key, keys.data[b]) == 0, b;
    }

    method Get(key: K) returns (r: Option<V>)
      requires Valid()
      ensures r == At(key)
    {
      var found, index := FindIndex(key);
      return if found then Some(values.data[index]) else None;
    }

    method Remove(key: K) returns (found: bool)
      requires Valid()
      modifies Repr()
      ensures Valid() && fresh(Repr() - old(Repr()))
      ensures found == old(At(key)).Some?
      ensures forall other :: At(other) == if compare(other, key) == 0 then None else old(At(other))
    {
      hide TotalOrder, Lookup, Ascending;
      var index;
      found, index := FindIndex(key);
      ghost var ks, vs := keys.Contents(), values.Contents();
      if !found {
        forall other | compare(other, key) == 0 ensures At(other) == None {
          EqualKeysAgree(compare, ks, vs, key, other);
        }
        return;
      }
      keys.Remove(index, 1);
      values.Remove(index, 1);
      assert keys.Contents() == Without(ks, index) && values.Contents() == Without(vs, index);
      forall other
        ensures Valid() && At(other) == if compare(other, key) == 0 then None else Lookup(compare, ks, vs, other)
      {
        RemoveUpdates(compare, ks, vs, key, index, other);
      }
    }

    method Insert(key: K, value: V) returns (found: bool)
      requires Valid()
      modifies Repr()
      ensures Valid() && fresh(Repr() - old(Repr()))
      ensures found == old(At(key)).Some?
      ensures forall other :: At(other) == if compare(other, key) == 0 then Some(value) else old(At(other))
    {
      hide TotalOrder, Lookup, Ascending;
      var index;
      found, index := FindIndex(key);
      ghost var ks, vs := keys.Contents(), values.Contents();
      if found {
        keys.Replace(index, key);
        values.Replace(index, value);
        forall other
          ensures Valid()
                  && At(other) == if compare(other, key) == 0 then Some(value) else Lookup(compare, ks, vs, other)
        {
          ReplaceUpdates(compare, ks, vs, key, value, index, other);
        }
      } else {
        keys.Insert(index, key);
        values.Insert(index, value);
        assert keys.Contents() == Spliced(ks, index, key) && values.Contents() == Spliced(vs, index, value);
        SpliceKeepsOrder(compare, ks, key, index);
        forall other
          ensures At(other) == if compare(other, key) == 0 then Some(value) else Lookup(compare, ks, vs, other)
        {
          SpliceUpdates(compare, ks, vs, key, value, index, other);
        }
      }
    }
  }

  lemma {:induction false} EqualKeysAgree<K(!new), V>(cmp: Compare<K>, keys: seq<K>, values: seq<V>, key: K, other: K)
    requires TotalOrder(cmp) && |keys| == |values| && cmp(other, key) == 0
    ensures Lookup(cmp, keys, values, other) == Lookup(cmp, keys, values, key)
  {
    if keys != [] {
      Flip(cmp, other, key);
      if cmp(key, keys[0]) == 0 {
        SameEntry(cmp, key, other, keys[0]);
      } else if cmp(other, keys[0]) == 0 {
        SameEntry(cmp, other, key, keys[0]);
      }
      EqualKeysAgree(cmp, keys[1..], values[1..], key, other);
    }
  }

  /** The comparator of file ids and of device ids. */
  function CompareIds(a: nat, b: nat): int {
    if a < b then -1 else if a > b then 1 else 0
  }

  lemma IdsAreOrdered()
    ensures TotalOrder(CompareIds)
    ensures forall a: nat, b: nat :: CompareIds(a, b) == 0 <==> a == b
    ensures forall a: nat, b: nat :: CompareIds(a, b) < 0 <==> a < b
  {
  }
}
