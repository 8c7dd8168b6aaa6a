/** Enumeration of a thin volume's mapping, kept in an on-disk B-tree (libfies-dmthin/main.c, dmthin.c). */
module ThinPool {
  import opened Common
  import opened Protocol
  import opened Files

  // ----- nodes and trees

  /** A decoded node block: its two flag bits, its keys and its values. */
  datatype Node = Node(internal: bool, leaf: bool, keys: seq<nat>, values: seq<nat>)

  /** The tree the node blocks form; a leaf holds values, an inner node holds children. */
  datatype Tree =
    | Leaf(block: nat, keys: seq<nat>, values: seq<nat>)
    | Inner(block: nat, keys: seq<nat>, children: seq<Tree>)

  type Blocks = nat -> Option<Node>

  ghost predicate Ascending(keys: seq<nat>) {
    forall i, j :: 0 <= i < j < |keys| ==> keys[i] < keys[j]
  }

  /** Every node block that can be read holds its node of the tree. */
  ghost predicate Stored(get: Blocks, t: Tree) {
    match t
    case Leaf(block, keys, values) =>
      |keys| == |values| && (get(block).Some? ==> get(block).value == Node(false, true, keys, values))
    case Inner(block, keys, children) =>
      && |keys| == |children|
      && (get(block).Some? ==>
            var node := get(block).value;
            && node.internal && !node.leaf && node.keys == keys && |node.values| == |keys|
            && forall i :: 0 <= i < |children| ==> node.values[i] == children[i].block)
      && forall i :: 0 <= i < |children| ==> Stored(get, children[i])
  }

  ghost predicate Readable(get: Blocks, t: Tree) {
    get(t.block).Some? && (t.Inner? ==> forall i :: 0 <= i < |t.children| ==> Readable(get, t.children[i]))
  }

  /** The bound of the keys of child `i`: the next key, or the bound of the whole tree. */
  function Upper(t: Tree, i: nat, hi: nat): nat {
    if i + 1 < |t.keys| then t.keys[i + 1] else hi
  }

  /** Keys ascend, and child `i` holds keys from `keys[i]` up to the next key (or `hi`). */
  ghost predicate Ordered(t: Tree, lo: nat, hi: nat) {
    && Ascending(t.keys)
    && (forall i :: 0 <= i < |t.keys| ==> lo <= t.keys[i] < hi)
    && (t.Inner? ==> |t.children| == |t.keys| && forall i :: 0 <= i < |t.children| ==>
          Ordered(t.children[i], t.keys[i], Upper(t, i, hi)))
    && (t.Leaf? ==> |t.values| == |t.keys|)
  }

  // ----- what a tree maps

  /** The key/value pairs of a leaf from position `i` on. */
  function LeafPairs(keys: seq<nat>, values: seq<nat>): (r: seq<(nat, nat)>)
    requires |keys| == |values|
    ensures |r| == |keys|
  {
    seq(|keys|, i requires 0 <= i < |keys| => (keys[i], values[i]))
  }

  function Pairs(t: Tree): seq<(nat, nat)>
    decreases t
  {
    match t
    case Leaf(_, keys, values) => if |keys| == |values| then LeafPairs(keys, values) else []
    case Inner(_, _, children) => AllPairs(children)
  }

  function AllPairs(ts: seq<Tree>): seq<(nat, nat)>
    decreases ts
  {
    if ts == [] then [] else Pairs(ts[0]) + AllPairs(ts[1..])
  }

  /** The pairs whose key is at least `begin`. */
  function From(pairs: seq<(nat, nat)>, begin: nat): seq<(nat, nat)> {
    if pairs == [] then []
    else if pairs[0].0 >= begin then [pairs[0]] + From(pairs[1..], begin)
    else From(pairs[1..], begin)
  }

  // ----- search in one node

  /** The position of `key`, or else of the next higher (`hi`) or next lower key. */
  method NodeSearch(keys: seq<nat>, key: nat, hi: bool) returns (r: int)
    requires Ascending(keys)
    ensures -1 <= r <= |keys|
    ensures hi ==>
              0 <= r && (forall i :: 0 <= i < r ==> keys[i] < key)
              && (forall i :: r <= i < |keys| ==> key <= keys[i])
    ensures !hi ==>
              r < |keys| && (forall i :: 0 <= i <= r ==> keys[i] <= key)
              && (forall i :: r < i < |keys| ==> key < keys[i])
  {
    var a, b := -1, |keys|;
    while b - a > 1
      invariant -1 <= a < b <= |keys|
      invariant forall i :: 0 <= i <= a ==> keys[i] < key
      invariant forall i :: b <= i < |keys| ==> key < keys[i]
      decreases b - a
    {
      var i := a + (b - a) / 2;
      var k := keys[i];
      if key < k {
        b := i;
      } else if key > k {
        a := i;
      } else {
        return i;
      }
    }
    return if hi then b else a;
  }

  // ----- what the enumeration visits

  /** The child to start with: the last one whose key is not above `begin`, else the first. */
  ghost function FirstChild(keys: seq<nat>, begin: nat): (r: nat)
    requires keys != []
    ensures r < |keys| && (r > 0 ==> keys[r] <= begin)
    ensures forall i :: r < i < |keys| ==> begin < keys[i] || !Ascending(keys)
    decreases |keys|
  {
    var n := |keys| - 1;
    if n == 0 || keys[n] <= begin then n
    else
      assert Ascending(keys) ==> Ascending(keys[..n]);
      FirstChild(keys[..n], begin)
  }

  /** The pairs a walk without a buffer limit produces; it leaves a node at the first child block at or beyond `end`. */
  ghost function Visit(t: Tree, begin: nat, end: nat): seq<(nat, nat)>
    decreases t, if t.Inner? then |t.children| + 2 else 0
  {
    match t
    case Leaf(_, keys, values) => From(Pairs(t), begin)
    case Inner(_, keys, children) =>
      if keys == [] || |keys| != |children| then []
      else VisitChildren(t, FirstChild(keys, begin), begin, end)
  }

  ghost function VisitChildren(t: Tree, i: nat, begin: nat, end: nat): seq<(nat, nat)>
    requires t.Inner? && i <= |t.children|
    decreases t, |t.children| - i + 1
  {
    if i == |t.children| || t.children[i].block >= end then []
    else Visit(t.children[i], begin, end) + VisitChildren(t, i + 1, begin, end)
  }

  // ----- run-length compression

  /** `count` consecutive blocks of the volume on consecutive blocks of the pool. */
  datatype Run = Run(key: nat, phys: nat, count: nat)

  function RunPairs(r: Run): seq<(nat, nat)> {
    seq(r.count, i requires 0 <= i < r.count => (r.key + i, r.phys + i))
  }

  function Expand(runs: seq<Run>): seq<(nat, nat)> {
    if runs == [] then []
    else Expand(runs[..|runs| - 1]) + RunPairs(runs[|runs| - 1])
  }

  /** No run is empty, and no run continues the one before it. */
  ghost predicate Maximal(runs: seq<Run>) {
    && (forall i :: 0 <= i < |runs| ==> 0 < runs[i].count)
    && (forall i, j :: 0 <= i && j == i + 1 < |runs| ==> !Continues(runs[i], runs[j].key, runs[j].phys))
  }

  predicate Continues(r: Run, key: nat, phys: nat) {
    key == r.key + r.count && phys == r.phys + r.count
  }

  /** Values carry a 24 bit time stamp below the physical block number. */
  function PhysBlock(value: nat): nat {
    value / 0x100_0000
  }

  /** The value of a leaf: physical block `block`, and a time stamp in the 24 bits below. */
  predicate Names(value: nat, block: nat) {
    block * 0x100_0000 <= value < (block + 1) * 0x100_0000
  }

  lemma TimeIsDropped(block: nat, time: nat)
    requires time < 0x100_0000
    ensures PhysBlock(block * 0x100_0000 + time) == block && Names(block * 0x100_0000 + time, block)
  {
  }

  lemma NamesOneBlock(value: nat, block: nat)
    ensures Names(value, block) <==> PhysBlock(value) == block
  {
  }

  /** The blocks are those that leaf entries name, in their order. */
  ghost predicate Enumerates(blocks: seq<(nat, nat)>, pairs: seq<(nat, nat)>) {
    && |blocks| == |pairs|
    && forall i :: 0 <= i < |pairs| ==> blocks[i].0 == pairs[i].0 && Names(pairs[i].1, blocks[i].1)
  }

  lemma PhysicalEnumerates(pairs: seq<(nat, nat)>)
    ensures Enumerates(Physical(pairs), pairs)
  {
    forall i | 0 <= i < |pairs| ensures Names(pairs[i].1, PhysBlock(pairs[i].1)) {
      NamesOneBlock(pairs[i].1, PhysBlock(pairs[i].1));
    }
  }

  lemma EnumeratedArePhysical(blocks: seq<(nat, nat)>, pairs: seq<(nat, nat)>)
    requires Enumerates(blocks, pairs)
    ensures blocks == Physical(pairs)
  {
    forall i | 0 <= i < |pairs| ensures blocks[i] == (pairs[i].0, PhysBlock(pairs[i].1)) {
      NamesOneBlock(pairs[i].1, blocks[i].1);
    }
  }

  function Physical(pairs: seq<(nat, nat)>): (r: seq<(nat, nat)>)
    ensures |r| == |pairs|
  {
    seq(|pairs|, i requires 0 <= i < |pairs| => (pairs[i].0, PhysBlock(pairs[i].1)))
  }

  /** The extent that stands for a run of blocks of `size` bytes. */
  function RunExtent(r: Run, size: nat): FileExtent {
    FileExtent(0, r.key * size, r.phys * size, r.count * size, FL_DATA + 0x100)
  }

  ghost predicate Holds(buf: seq<FileExtent>, runs: seq<Run>, size: nat) {
    |buf| == |runs| && forall i :: 0 <= i < |runs| ==> buf[i] == RunExtent(runs[i], size)
  }

  lemma MulDistributes(a: nat, b: nat, size: nat)
    ensures (a + b) * size == a * size + b * size
  {
  }

  lemma MulCancels(a: nat, b: nat, size: nat)
    requires 0 < size
    ensures a * size == b * size <==> a == b
    ensures a < b ==> a * size + size <= b * size
  {
    if a < b {
      MulStep(a, b, size);
    } else if b < a {
      MulStep(b, a, size);
    }
  }

  lemma MulStep(a: nat, b: nat, size: nat)
    requires a < b
    ensures a * size + size <= b * size
  {
    MulDistributes(a, b - a, size);
    MulDistributes(b - a - 1, 1, size);
  }

  /** Whether an extent continues another one in bytes is whether the run does in blocks. */
  lemma ContinuesInBytes(r: Run, key: nat, phys: nat, size: nat)
    requires 0 < size
    ensures var e := RunExtent(r, size);
            Continues(r, key, phys) <==> e.logical + e.length == key * size && e.physical + e.length == phys * size
  {
    MulDistributes(r.key, r.count, size);
    MulDistributes(r.phys, r.count, size);
    MulCancels(r.key + r.count, key, size);
    MulCancels(r.phys + r.count, phys, size);
  }

  /** Appends one block to the runs: the last one grows, or a new one starts. */
  function Append(runs: seq<Run>, key: nat, phys: nat): seq<Run> {
    var n := |runs| - 1;
    if runs != [] && Continues(runs[n], key, phys) then runs[n := runs[n].(count := runs[n].count + 1)]
    else runs + [Run(key, phys, 1)]
  }

  lemma {:induction false} AppendExpands(runs: seq<Run>, key: nat, phys: nat)
    requires Maximal(runs)
    ensures Maximal(Append(runs, key, phys)) && Append(runs, key, phys) != []
    ensures Expand(Append(runs, key, phys)) == Expand(runs) + [(key, phys)]
  {
    var n := |runs| - 1;
    var r := Append(runs, key, phys);
    if runs != [] && Continues(runs[n], key, phys) {
      assert r[..n] == runs[..n];
      assert RunPairs(r[n]) == RunPairs(runs[n]) + [(key, phys)];
    } else {
      assert r[..|runs|] == runs;
      assert RunPairs(Run(key, phys, 1)) == [(key, phys)];
    }
  }

  /** Stores one block in the buffer: the last extent grows, or a new one starts if there is room. */
  method StoreBlock(key: nat, phys: nat, size: nat, buf: array<FileExtent>, count: nat, index0: nat,
                    ghost runs: seq<Run>)
    returns (stored: bool, index: nat)
    requires 0 < size && index0 <= count <= buf.Length && Holds(buf[..index0], runs, size)
    modifies buf
    ensures stored ==> index0 <= index <= count && Holds(buf[..index], Append(runs, key, phys), size)
    ensures !stored ==> index == index0 == count && buf[..] == old(buf[..])
  {
    var logaddr := key * size;
    var physaddr := phys * size;
    if index0 > 0 {
      assert buf[..index0][index0 - 1] == RunExtent(runs[index0 - 1], size);
      ContinuesInBytes(runs[index0 - 1], key, phys, size);
    }
    stored, index := true, index0;
    if index0 > 0 && buf[index0 - 1].physical + buf[index0 - 1].length == physaddr
       && buf[index0 - 1].logical + buf[index0 - 1].length == logaddr {
      MulDistributes(runs[index0 - 1].count, 1, size);
      buf[index0 - 1] := buf[index0 - 1].(length := buf[index0 - 1].length + size);
    } else if index0 < count {
      buf[index0] := FileExtent(0, logaddr, physaddr, size, FL_DATA + 0x100);
      index := index0 + 1;
    } else {
      stored := false;
    }
  }

  /** One pass over a leaf: every entry from `from` on, until a new extent is needed and the buffer is full. */
  method MapLeaf(keys: seq<nat>, values: seq<nat>, from: nat, size: nat, buf: array<FileExtent>, count: nat,
                 index0: nat, ghost runs0: seq<Run>)
    returns (index: nat, ghost runs: seq<Run>, ghost n: nat)
    requires |keys| == |values| && from <= |keys| && 0 < size
    requires index0 <= count <= buf.Length && Holds(buf[..index0], runs0, size) && Maximal(runs0)
    modifies buf
    ensures index0 <= index <= count && Holds(buf[..index], runs, size) && Maximal(runs)
    ensures from <= n <= |keys|
    ensures Expand(runs) == Expand(runs0) + Physical(LeafPairs(keys, values)[from..n])
    ensures index < count ==> n == |keys|
  {
    hide Holds, Maximal, Expand, Append, LeafPairs, Physical;
    index, runs, n := index0, runs0, from;
    NoPairs(LeafPairs(keys, values), from, Expand(runs0));
    var i := from;
    while i != |keys|
      invariant from <= i <= |keys| && n == i
      invariant index0 <= index <= count && Holds(buf[..index], runs, size) && Maximal(runs)
      invariant Expand(runs) == Expand(runs0) + Physical(LeafPairs(keys, values)[from..i])
      decreases |keys| - i
    {
      // the lower 24 bits of a value are a time stamp
      var stored, index' := StoreBlock(keys[i], PhysBlock(values[i]), size, buf, count, index, runs);
      index := index';
      if !stored {
        break;
      }
      AppendExpands(runs, keys[i], PhysBlock(values[i]));
      MorePairs(keys, values, from, i, Expand(runs0));
      runs := Append(runs, keys[i], PhysBlock(values[i]));
      i, n := i + 1, n + 1;
    }
  }

  lemma NoPairs(pairs: seq<(nat, nat)>, from: nat, before: seq<(nat, nat)>)
    requires from <= |pairs|
    ensures before == before + Physical(pairs[from..from])
  {
  }

  lemma MorePairs(keys: seq<nat>, values: seq<nat>, from: nat, i: nat, before: seq<(nat, nat)>)
    requires |keys| == |values| && from <= i < |keys|
    ensures before + Physical(LeafPairs(keys, values)[from..i]) + [(keys[i], PhysBlock(values[i]))]
         == before + Physical(LeafPairs(keys, values)[from..i + 1])
  {
    var pairs := LeafPairs(keys, values);
    assert pairs[from..i + 1] == pairs[from..i] + [pairs[i]];
    assert Physical(pairs[from..i + 1]) == Physical(pairs[from..i]) + [(keys[i], PhysBlock(values[i]))];
  }

  lemma {:induction false} FromIsSuffix(pairs: seq<(nat, nat)>, from: nat, begin: nat)
    requires from <= |pairs|
    requires forall i :: 0 <= i < from ==> pairs[i].0 < begin
    requires forall i :: from <= i < |pairs| ==> begin <= pairs[i].0
    ensures From(pairs, begin) == pairs[from..]
    decreases |pairs|
  {
    if pairs != [] {
      FromIsSuffix(pairs[1..], if from == 0 then 0 else from - 1, begin);
    }
  }

  lemma {:induction false} FirstChildIs(keys: seq<nat>, begin: nat, r: int)
    requires Ascending(keys) && keys != [] && -1 <= r < |keys|
    requires forall i :: 0 <= i <= r ==> keys[i] <= begin
    requires forall i :: r < i < |keys| ==> begin < keys[i]
    ensures FirstChild(keys, begin) == if r < 0 then 0 else r
    decreases |keys|
  {
    var n := |keys| - 1;
    if n > 0 && begin < keys[n] {
      FirstChildIs(keys[..n], begin, r);
    }
  }

  const EIO: int := 5
  const ERANGE: int := 34
  const ENOENT: int := 2

  /** Accessor for the metadata of a thin pool. */
  class FiesDMThin {
    const get: Blocks
    const dataBlockSize: nat
    const dataMappingRoot: nat

    constructor (get: Blocks, dataBlockSize: nat, dataMappingRoot: nat)
      ensures this.get == get && this.dataBlockSize == dataBlockSize && this.dataMappingRoot == dataMappingRoot
    {
      this.get, this.dataBlockSize, this.dataMappingRoot := get, dataBlockSize, dataMappingRoot;
    }

    /** Maps the part of the tree at block `pos` that starts at volume block `begin`. */
    method MapAddressRange(pos: nat, begin: nat, end: nat, buf: array<FileExtent>, count: nat, index0: nat,
                           ghost t: Tree, ghost lo: nat, ghost hi: nat, ghost runs0: seq<Run>)
      returns (rc: int, index: nat, ghost runs: seq<Run>, ghost n: nat)
      requires 0 < dataBlockSize && t.block == pos && Stored(get, t) && Ordered(t, lo, hi)
      requires index0 <= count <= buf.Length && Holds(buf[..index0], runs0, dataBlockSize) && Maximal(runs0)
      modifies buf
      ensures index0 <= index <= count && Holds(buf[..index], runs, dataBlockSize) && Maximal(runs)
      ensures rc == 0 || (rc < 0 && !Readable(get, t))
      ensures n <= |Visit(t, begin, end)|
      ensures rc == 0 ==> Expand(runs) == Expand(runs0) + Physical(Visit(t, begin, end)[..n])
      ensures rc == 0 && index < count ==> n == |Visit(t, begin, end)|
      decreases t, 1
    {
      hide Holds, Maximal, Expand, Physical, From, Stored, Ordered, Readable;
      rc, index, runs, n := 0, index0, runs0, 0;
      ghost var visit := Visit(t, begin, end);
      NoPairs(visit, 0, Expand(runs0));
      NodeOf(get, t, lo, hi);
      var read := get(pos);
      if read.None? {
        return -EIO, index0, runs0, 0;
      }
      var node := read.value;
      if !node.internal && !node.leaf {
        assert false;
      }
      var lfrom := NodeSearch(node.keys, begin, node.leaf);
      var from: nat := if lfrom < 0 then 0 else lfrom;
      if node.leaf {
        LeafVisit(t, begin, end, from);
      } else if node.keys != [] {
        FirstChildIs(node.keys, begin, lfrom);
      }
      if from == |node.keys| {
        return; // higher than the last mapped block
      }
      if node.internal {
        rc, index, runs, n := MapChildren(node.values, from, begin, end, buf, count, index0, t, lo, hi, runs0);
      } else {
        index, runs, n := MapLeaf(node.keys, node.values, from, dataBlockSize, buf, count, index0, runs0);
        n := n - from;
        assert LeafPairs(node.keys, node.values)[from..from + n] == visit[..n];
      }
    }

    /** Visits the children from `from0` on; the bound `end` is compared with their block numbers. */
    method MapChildren(values: seq<nat>, from0: nat, begin: nat, end: nat, buf: array<FileExtent>, count: nat,
                       index0: nat, ghost t: Tree, ghost lo: nat, ghost hi: nat, ghost runs0: seq<Run>)
      returns (rc: int, index: nat, ghost runs: seq<Run>, ghost n: nat)
      requires 0 < dataBlockSize && t.Inner? && Stored(get, t) && Ordered(t, lo, hi)
      requires |values| == |t.children| && forall i :: 0 <= i < |values| ==> values[i] == t.children[i].block
      requires from0 < |values|
      requires index0 <= count <= buf.Length && Holds(buf[..index0], runs0, dataBlockSize) && Maximal(runs0)
      modifies buf
      ensures index0 <= index <= count && Holds(buf[..index], runs, dataBlockSize) && Maximal(runs)
      ensures rc == 0 || (rc < 0 && !Readable(get, t))
      ensures n <= |VisitChildren(t, from0, begin, end)|
      ensures rc == 0 ==> Expand(runs) == Expand(runs0) + Physical(VisitChildren(t, from0, begin, end)[..n])
      ensures rc == 0 && index < count ==> n == |VisitChildren(t, from0, begin, end)|
      decreases t, 0
    {
      hide Holds, Maximal, Expand, Physical, Stored, Ordered, Readable, Visit;
      rc, index, runs, n := 0, index0, runs0, 0;
      ghost var visit := VisitChildren(t, from0, begin, end);
      NoPairs(visit, 0, Expand(runs0));
      assert visit == visit[..0] + visit;
      var from := from0;
      while index != count && from != |values|
        invariant from0 <= from <= |values| && rc == 0
        invariant index0 <= index <= count && Holds(buf[..index], runs, dataBlockSize) && Maximal(runs)
        invariant n <= |visit|
        invariant index < count ==> visit == visit[..n] + VisitChildren(t, from, begin, end)
        invariant Expand(runs) == Expand(runs0) + Physical(visit[..n])
        decreases |values| - from
      {
        var next := values[from];
        if next >= end {
          break;
        }
        ghost var m;
        ChildOf(get, t, lo, hi, from);
        ghost var child := Visit(t.children[from], begin, end);
        rc, index, runs, m := MapAddressRange(next, begin, end, buf, count, index, t.children[from],
                                              t.keys[from], Upper(t, from, hi), runs);
        if rc < 0 {
          n := 0;
          return;
        }
        JoinVisits(Expand(runs0), visit, n, child, VisitChildren(t, from + 1, begin, end), m);
        n := n + m;
        from := from + 1;
      }
    }

    /** Looks up one key; a key that is not mapped is an error. */
    method Search(root: nat, key: nat, ghost t: Tree, ghost lo: nat, ghost hi: nat) returns (rc: int, value: nat)
      requires t.block == root && Stored(get, t) && Ordered(t, lo, hi)
      ensures rc == 0 || rc < 0
      ensures rc == 0 ==> (key, value) in Pairs(t)
      ensures rc < 0 ==> !Readable(get, t) || forall v: nat :: (key, v) !in Pairs(t)
    {
      hide Stored, Ordered, Readable, Pairs;
      value := 0;
      var block := root;
      ghost var cur, l, h := t, lo, hi;
      while true
        invariant cur.block == block && Stored(get, cur) && Ordered(cur, l, h)
        invariant Readable(get, t) ==> Readable(get, cur)
        invariant forall v: nat :: (key, v) in Pairs(t) <==> (key, v) in Pairs(cur)
        decreases cur
      {
        NodeOf(get, cur, l, h);
        var read := get(block);
        if read.None? {
          return -EIO, 0;
        }
        var node := read.value;
        var index := NodeSearch(node.keys, key, false);
        if index < 0 || index == |node.keys| {
          NotMapped(cur, l, h, key);
          return -ERANGE, 0;
        }
        if !node.internal {
          LeafLookup(cur, key, index);
          if node.keys[index] != key {
            return -ENOENT, 0;
          }
          return 0, node.values[index];
        }
        block := node.values[index];
        ChildOf(get, cur, l, h, index);
        InOneChild(cur, l, h, key, index);
        cur, l, h := cur.children[index], cur.keys[index], Upper(cur, index, h);
      }
    }

    /**
     * Maps a volume from a byte position on. The ghost trees are the root tree, which maps
     * volumes to the roots of their trees, and the tree of the volume.
     */
    method MapExtents(device: nat, logicalStart: nat, length: nat, buf: array<FileExtent>, count: nat, ghost root: Tree,
                      ghost volumes: map<nat, Tree>)
      returns (rc: int, ghost runs: seq<Run>, ghost n: nat)
      requires 0 < dataBlockSize && logicalStart < U64 && length < U64 && count <= buf.Length
      requires root.block == dataMappingRoot && Stored(get, root) && Ordered(root, 0, U64)
      requires forall p :: p in Pairs(root) ==>
                 p.0 in volumes && volumes[p.0].block == p.1 && Stored(get, volumes[p.0])
                   && Ordered(volumes[p.0], 0, U64)
      modifies buf
      ensures rc < 0 ==> !Readable(get, root) || device !in volumes || !Readable(get, volumes[device])
                         || (forall v: nat :: (device, v) !in Pairs(root))
      ensures rc >= 0 ==> device in volumes && (device, volumes[device].block) in Pairs(root)
      ensures rc >= 0 ==>
                var visit := Visit(volumes[device], logicalStart / dataBlockSize,
                                   EndBlock(logicalStart, length, dataBlockSize));
                rc <= count && n <= |visit|
      ensures rc >= 0 ==>
                var visit := Visit(volumes[device], logicalStart / dataBlockSize,
                                   EndBlock(logicalStart, length, dataBlockSize));
                && Maximal(runs) && |runs| == rc
                && Enumerates(Expand(runs), visit[..n])
                && (rc < count ==> n == |visit|)
                && buf[..rc] == Cut(Extents(runs, dataBlockSize), logicalStart)
    {
      hide Holds, Maximal, Expand, Stored, Ordered, Readable, Physical, Enumerates, Pairs, Cut, Extents,
           VisitChildren, RunExtent;
      var at;
      rc, at := Search(dataMappingRoot, device, root, 0, U64);
      runs, n := [], 0;
      if rc < 0 {
        return;
      }
      var begin := logicalStart / dataBlockSize;
      var blocklen := length / dataBlockSize;
      var end := (begin + blocklen) % U64;
      if end < begin {
        end := U64 - 1;
      }
      var index;
      NoRuns(dataBlockSize);
      rc, index, runs, n := MapAddressRange(at, begin, end, buf, count, 0, volumes[device], 0, U64, []);
      if rc < 0 {
        return;
      }
      RunsStartAt(volumes[device], begin, end, runs, n);
      HoldsLength(buf[..index], runs, dataBlockSize);
      CutFirst(buf, index, logicalStart, dataBlockSize, runs);
      PhysicalEnumerates(Visit(volumes[device], begin, end)[..n]);
      rc := index;
    }
  }

  lemma NoRuns(size: nat)
    ensures Holds([], [], size) && Maximal([]) && Expand([]) == []
  {
  }

  lemma HoldsLength(buf: seq<FileExtent>, runs: seq<Run>, size: nat)
    requires Holds(buf, runs, size)
    ensures |buf| == |runs|
  {
  }

  /** Cuts the first extent to the actual address. */
  method CutFirst(buf: array<FileExtent>, index: nat, logicalStart: nat, size: nat, ghost runs: seq<Run>)
    requires 0 < size && index <= buf.Length && Holds(buf[..index], runs, size)
    requires runs != [] ==> runs[0].key >= logicalStart / size && runs[0].count > 0
    modifies buf
    ensures buf[..index] == Cut(Extents(runs, size), logicalStart)
  {
    assert index > 0 ==> buf[..index][0] == RunExtent(runs[0], size);
    if index > 0 && buf[0].logical < logicalStart {
      CutIsShort(runs[0], size, logicalStart);
      var shift := logicalStart - buf[0].logical;
      buf[0] := buf[0].(logical := buf[0].logical + shift, physical := buf[0].physical + shift);
      if buf[0].length <= shift {
        assert false; // never possible
      } else {
        buf[0] := buf[0].(length := buf[0].length - shift);
      }
    }
    assert forall i :: 1 <= i < index ==> buf[i] == old(buf[..index])[i];
  }

  lemma CutIsShort(r: Run, size: nat, start: nat)
    requires 0 < size && 0 < r.count && start / size <= r.key
    ensures start - r.key * size < size <= r.count * size
  {
    MulStep(0, r.count, size);
    if r.key > start / size {
      MulStep(start / size, r.key, size);
    }
    assert start == start / size * size + start % size;
  }

  /** Every block a walk produces is at or behind its start. */
  lemma {:induction false} VisitStartsAt(t: Tree, begin: nat, end: nat, p: (nat, nat))
    requires p in Visit(t, begin, end)
    ensures p.0 >= begin && p in Pairs(t)
    decreases t, if t.Inner? then |t.children| + 2 else 0
  {
    if t.Leaf? {
      InFrom(Pairs(t), begin, p);
    } else {
      VisitChildrenStartAt(t, FirstChild(t.keys, begin), begin, end, p);
    }
  }

  lemma {:induction false} VisitChildrenStartAt(t: Tree, i: nat, begin: nat, end: nat, p: (nat, nat))
    requires t.Inner? && i <= |t.children| && p in VisitChildren(t, i, begin, end)
    ensures p.0 >= begin && p in Pairs(t)
    decreases t, |t.children| - i + 1
  {
    if p in Visit(t.children[i], begin, end) {
      VisitStartsAt(t.children[i], begin, end, p);
      InAllPairs(t.children, p);
    } else {
      VisitChildrenStartAt(t, i + 1, begin, end, p);
    }
  }

  lemma {:induction false} InFrom(pairs: seq<(nat, nat)>, begin: nat, p: (nat, nat))
    ensures p in From(pairs, begin) <==> p in pairs && begin <= p.0
  {
    if pairs != [] {
      InFrom(pairs[1..], begin, p);
    }
  }

  /** Every block of every run is in the expansion. */
  lemma {:induction false} RunInExpansion(runs: seq<Run>, i: nat, j: nat)
    requires i < |runs| && j < runs[i].count
    ensures (runs[i].key + j, runs[i].phys + j) in Expand(runs)
  {
    var n := |runs| - 1;
    if i == n {
      assert RunPairs(runs[n])[j] in Expand(runs);
    } else {
      RunInExpansion(runs[..n], i, j);
    }
  }

  lemma {:induction false} RunsStartAt(t: Tree, begin: nat, end: nat, runs: seq<Run>, n: nat)
    requires Maximal(runs) && n <= |Visit(t, begin, end)| && Expand(runs) == Physical(Visit(t, begin, end)[..n])
    ensures runs != [] ==> runs[0].key >= begin && runs[0].count > 0
  {
    if runs != [] {
      RunInExpansion(runs, 0, 0);
      var visit := Visit(t, begin, end);
      var k :| 0 <= k < n && Physical(visit[..n])[k] == (runs[0].key, runs[0].phys);
      assert visit[..n][k] == visit[k];
      VisitStartsAt(t, begin, end, visit[k]);
    }
  }

  /** The volume block an enumeration is told to stop at. */
  function EndBlock(logicalStart: nat, length: nat, size: nat): nat
    requires 0 < size
  {
    var begin := logicalStart / size;
    var end := (begin + length / size) % U64;
    if end < begin then U64 - 1 else end
  }

  /** The walk ends `length` bytes behind the start in whole blocks, or at the last 64 bit number. */
  lemma EndOfRange(begin: nat, offset: nat, blocks: nat, rest: nat, size: nat)
    requires offset < size && rest < size && begin < U64 && blocks < U64
    ensures EndBlock(begin * size + offset, blocks * size + rest, size)
            == if begin + blocks < U64 then begin + blocks else U64 - 1
  {
    BlockOf(begin, offset, size);
    BlockOf(blocks, rest, size);
  }

  lemma BlockOf(block: nat, offset: nat, size: nat)
    requires offset < size
    ensures (block * size + offset) / size == block
  {
    var x := block * size + offset;
    MulCancels(x / size, block, size);
    MulCancels(block, x / size, size);
    assert x == x / size * size + x % size;
  }

  function Extents(runs: seq<Run>, size: nat): (r: seq<FileExtent>)
    ensures |r| == |runs|
  {
    seq(|runs|, i requires 0 <= i < |runs| => RunExtent(runs[i], size))
  }

  /** The extents with everything in front of byte `start` cut off the first one. */
  function Cut(es: seq<FileExtent>, start: nat): (r: seq<FileExtent>)
    ensures |r| == |es|
  {
    if es != [] && es[0].logical < start < es[0].logical + es[0].length then
      var shift := start - es[0].logical;
      es[0 := es[0].(logical := start, physical := es[0].physical + shift, length := es[0].length - shift)]
    else es
  }

  /** A key in front of all keys of a node is not mapped below it. */
  lemma {:induction false} NotMapped(t: Tree, lo: nat, hi: nat, key: nat)
    requires Ordered(t, lo, hi) && forall i :: 0 <= i < |t.keys| ==> key < t.keys[i]
    ensures forall v: nat :: (key, v) !in Pairs(t)
  {
    forall v: nat ensures (key, v) !in Pairs(t) {
      if t.Inner? && (key, v) in Pairs(t) {
        InAllPairs(t.children, (key, v));
        var i :| 0 <= i < |t.children| && (key, v) in Pairs(t.children[i]);
        KeysInBounds(t.children[i], t.keys[i], Upper(t, i, hi), (key, v));
      }
    }
  }

  lemma {:induction false} LeafLookup(t: Tree, key: nat, index: nat)
    requires t.Leaf? && |t.keys| == |t.values| && index < |t.keys|
    requires forall i :: 0 <= i <= index ==> t.keys[i] <= key
    requires forall i :: index < i < |t.keys| ==> key < t.keys[i]
    requires Ascending(t.keys)
    ensures t.keys[index] == key ==> (key, t.values[index]) in Pairs(t)
    ensures t.keys[index] != key ==> forall v: nat :: (key, v) !in Pairs(t)
  {
    assert Pairs(t)[index] == (t.keys[index], t.values[index]);
  }

  /** Only the child found by the search can hold the key. */
  lemma {:induction false} InOneChild(t: Tree, lo: nat, hi: nat, key: nat, index: nat)
    requires t.Inner? && Ordered(t, lo, hi) && index < |t.keys|
    requires forall i :: 0 <= i <= index ==> t.keys[i] <= key
    requires forall i :: index < i < |t.keys| ==> key < t.keys[i]
    ensures forall v: nat :: (key, v) in Pairs(t) <==> (key, v) in Pairs(t.children[index])
  {
    forall v: nat ensures (key, v) in Pairs(t) <==> (key, v) in Pairs(t.children[index]) {
      InThatChild(t, lo, hi, (key, v), index);
    }
  }

  lemma {:induction false} InThatChild(t: Tree, lo: nat, hi: nat, p: (nat, nat), index: nat)
    requires t.Inner? && Ordered(t, lo, hi) && index < |t.keys|
    requires t.keys[index] <= p.0 && (index + 1 < |t.keys| ==> p.0 < t.keys[index + 1])
    ensures p in Pairs(t) <==> p in Pairs(t.children[index])
  {
    ChildrenOrdered(t, lo, hi);
    hide Ordered, Pairs, AllPairs, Upper;
    InAllPairs(t.children, p);
    if i :| 0 <= i < |t.children| && p in Pairs(t.children[i]) {
      UpperIsNext(t, i, index, hi);
      UpperIsNext(t, index, i, hi);
      KeysInBounds(t.children[i], t.keys[i], Upper(t, i, hi), p);
    }
  }

  lemma {:induction false} ChildrenOrdered(t: Tree, lo: nat, hi: nat)
    requires t.Inner? && Ordered(t, lo, hi)
    ensures |t.keys| == |t.children| && Ascending(t.keys) && Pairs(t) == AllPairs(t.children)
    ensures forall i :: 0 <= i < |t.children| ==> Ordered(t.children[i], t.keys[i], Upper(t, i, hi))
  {
  }

  lemma UpperIsNext(t: Tree, i: nat, j: nat, hi: nat)
    requires Ascending(t.keys) && i < |t.keys| && j < |t.keys|
    ensures i < j ==> Upper(t, i, hi) <= t.keys[j]
    ensures i + 1 < |t.keys| ==> Upper(t, i, hi) == t.keys[i + 1]
  {
  }

  lemma {:induction false} NodeOf(get: Blocks, t: Tree, lo: nat, hi: nat)
    requires Stored(get, t) && Ordered(t, lo, hi)
    ensures Ascending(t.keys)
    ensures get(t.block).None? ==> !Readable(get, t)
    ensures get(t.block).Some? ==>
              var node := get(t.block).value;
              && node.leaf == t.Leaf? && node.internal == t.Inner? && node.keys == t.keys && |node.values| == |t.keys|
              && (t.Leaf? ==> node.values == t.values)
              && (t.Inner? ==> |t.children| == |t.keys| && forall i :: 0 <= i < |t.keys| ==>
                    node.values[i] == t.children[i].block)
  {
  }

  lemma {:induction false} ChildOf(get: Blocks, t: Tree, lo: nat, hi: nat, i: nat)
    requires t.Inner? && Stored(get, t) && Ordered(t, lo, hi) && i < |t.children|
    ensures |t.keys| == |t.children| && Stored(get, t.children[i]) && Ordered(t.children[i], t.keys[i], Upper(t, i, hi))
    ensures Readable(get, t) ==> Readable(get, t.children[i])
  {
  }

  lemma {:induction false} LeafVisit(t: Tree, begin: nat, end: nat, from: nat)
    requires t.Leaf? && |t.keys| == |t.values| && from <= |t.keys|
    requires forall i :: 0 <= i < from ==> t.keys[i] < begin
    requires forall i :: from <= i < |t.keys| ==> begin <= t.keys[i]
    ensures Visit(t, begin, end) == LeafPairs(t.keys, t.values)[from..]
  {
    FromIsSuffix(LeafPairs(t.keys, t.values), from, begin);
  }

  /** Accounts for the `m` pairs of one child that were stored. */
  lemma JoinVisits(before: seq<(nat, nat)>, visit: seq<(nat, nat)>, n: nat, child: seq<(nat, nat)>,
                   rest: seq<(nat, nat)>, m: nat)
    requires n <= |visit| && m <= |child| && visit == visit[..n] + (child + rest)
    ensures n + m <= |visit|
    ensures before + Physical(visit[..n]) + Physical(child[..m]) == before + Physical(visit[..n + m])
    ensures m == |child| ==> visit == visit[..n + m] + rest
  {
    assert visit[..n + m] == visit[..n] + child[..m];
    assert Physical(visit[..n + m]) == Physical(visit[..n]) + Physical(child[..m]);
  }

  lemma {:induction false} InAllPairs(ts: seq<Tree>, p: (nat, nat))
    ensures p in AllPairs(ts) <==> exists i :: 0 <= i < |ts| && p in Pairs(ts[i])
  {
    if ts != [] {
      InAllPairs(ts[1..], p);
      assert forall i :: 1 <= i < |ts| ==> ts[i] == ts[1..][i - 1];
    }
  }

  /** All keys of a tree are inside its bounds. */
  lemma {:induction false} KeysInBounds(t: Tree, lo: nat, hi: nat, p: (nat, nat))
    requires Ordered(t, lo, hi) && p in Pairs(t)
    ensures lo <= p.0 < hi
    decreases t
  {
    if t.Inner? {
      InAllPairs(t.children, p);
      var i :| 0 <= i < |t.children| && p in Pairs(t.children[i]);
      KeysInBounds(t.children[i], t.keys[i], Upper(t, i, hi), p);
    }
  }
}
