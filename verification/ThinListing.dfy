/** What the enumeration of a thin volume finds, misses and means. */
module ThinListing {
  import opened Common
  import opened Protocol
  import opened Files
  import opened Replay
  import opened ThinPool

  // ----- what the enumeration misses

  lemma {:induction false} FromConcat(a: seq<(nat, nat)>, b: seq<(nat, nat)>, begin: nat)
    ensures From(a + b, begin) == From(a, begin) + From(b, begin)
  {
    if a == [] {
      assert a + b == b;
    } else {
      assert (a + b)[1..] == a[1..] + b;
      FromConcat(a[1..], b, begin);
    }
  }

  lemma {:induction false} AllPairsConcat(a: seq<Tree>, b: seq<Tree>)
    ensures AllPairs(a + b) == AllPairs(a) + AllPairs(b)
  {
    if a == [] {
      assert a + b == b;
    } else {
      assert (a + b)[1..] == a[1..] + b;
      AllPairsConcat(a[1..], b);
    }
  }

  /** The keys in front of child `f` are smaller than its key. */
  lemma {:induction false} EarlierChildrenAreSmaller(t: Tree, lo: nat, hi: nat, f: nat, begin: nat)
    requires t.Inner? && Ordered(t, lo, hi) && f < |t.keys| && (f > 0 ==> t.keys[f] <= begin)
    ensures From(AllPairs(t.children[..f]), begin) == []
  {
    ChildrenOrdered(t, lo, hi);
    hide Ordered, Pairs, AllPairs, Upper, From;
    var front := AllPairs(t.children[..f]);
    forall k | 0 <= k < |front| ensures front[k].0 < begin {
      var p := front[k];
      InAllPairs(t.children[..f], p);
      var i :| 0 <= i < f && p in Pairs(t.children[..f][i]);
      UpperIsNext(t, i, f, hi);
      KeysInBounds(t.children[i], t.keys[i], Upper(t, i, hi), p);
    }
    FromIsSuffix(front, |front|, begin);
  }

  /**
   * No child is skipped that still has something to map: the guard of the early exit holds for
   * every child from the first one on, as long as it or a later one holds a key from `begin` on.
   */
  ghost predicate NothingSkipped(t: Tree, begin: nat, end: nat)
    decreases t, if t.Inner? then |t.children| + 2 else 0
  {
    t.Inner? && t.keys != [] && |t.keys| == |t.children| ==>
        NothingSkippedFrom(t, FirstChild(t.keys, begin), begin, end)
  }

  ghost predicate NothingSkippedFrom(t: Tree, i: nat, begin: nat, end: nat)
    requires t.Inner? && i <= |t.children|
    decreases t, |t.children| - i + 1
  {
    i == |t.children| || From(AllPairs(t.children[i..]), begin) == [] ||
    (t.children[i].block < end && NothingSkipped(t.children[i], begin, end) && NothingSkippedFrom(t, i + 1, begin, end))
  }

  /** The walk finds all mapped blocks from `begin` on if and only if nothing is skipped. */
  lemma {:induction false} VisitIsCompleteIff(t: Tree, lo: nat, hi: nat, begin: nat, end: nat)
    requires Ordered(t, lo, hi)
    ensures |Visit(t, begin, end)| <= |From(Pairs(t), begin)|
    ensures Visit(t, begin, end) == From(Pairs(t), begin) <==> NothingSkipped(t, begin, end)
    ensures |Visit(t, begin, end)| == |From(Pairs(t), begin)| ==> NothingSkipped(t, begin, end)
    decreases t, 1
  {
    if t.Inner? && t.keys != [] {
      ChildrenOrdered(t, lo, hi);
      hide Ordered, AllPairs, From, VisitChildren, NothingSkippedFrom, FirstChild;
      var f := FirstChild(t.keys, begin);
      assert t.children == t.children[..f] + t.children[f..];
      AllPairsConcat(t.children[..f], t.children[f..]);
      FromConcat(AllPairs(t.children[..f]), AllPairs(t.children[f..]), begin);
      EarlierChildrenAreSmaller(t, lo, hi, f, begin);
      VisitChildrenIsCompleteIff(t, lo, hi, f, begin, end);
    }
  }

  lemma {:induction false} VisitChildrenIsCompleteIff(t: Tree, lo: nat, hi: nat, i: nat, begin: nat, end: nat)
    requires t.Inner? && Ordered(t, lo, hi) && i <= |t.children|
    ensures |VisitChildren(t, i, begin, end)| <= |From(AllPairs(t.children[i..]), begin)|
    ensures VisitChildren(t, i, begin, end) == From(AllPairs(t.children[i..]), begin) <==>
              NothingSkippedFrom(t, i, begin, end)
    ensures |VisitChildren(t, i, begin, end)| == |From(AllPairs(t.children[i..]), begin)| ==>
              NothingSkippedFrom(t, i, begin, end)
    decreases t, 0, |t.children| - i
  {
    if i < |t.children| {
      var child := t.children[i];
      assert t.children[i..][0] == child && t.children[i..][1..] == t.children[i + 1..];
      FromConcat(Pairs(child), AllPairs(t.children[i + 1..]), begin);
      VisitIsCompleteIff(child, t.keys[i], Upper(t, i, hi), begin, end);
      VisitChildrenIsCompleteIff(t, lo, hi, i + 1, begin, end);
    }
  }

  /** All child blocks are in front of block `end`. */
  ghost predicate BlocksBelow(t: Tree, end: nat) {
    t.Inner? ==> forall i :: 0 <= i < |t.children| ==> t.children[i].block < end && BlocksBelow(t.children[i], end)
  }

  lemma {:induction false} BelowIsNotSkipped(t: Tree, begin: nat, end: nat)
    requires BlocksBelow(t, end)
    ensures NothingSkipped(t, begin, end)
    decreases t, 1
  {
    if t.Inner? && t.keys != [] && |t.keys| == |t.children| {
      ChildrenAreNotSkipped(t, FirstChild(t.keys, begin), begin, end);
    }
  }

  lemma {:induction false} ChildrenAreNotSkipped(t: Tree, i: nat, begin: nat, end: nat)
    requires t.Inner? && i <= |t.children| && BlocksBelow(t, end)
    ensures NothingSkippedFrom(t, i, begin, end)
    decreases t, 0, |t.children| - i
  {
    if i < |t.children| {
      BelowIsNotSkipped(t.children[i], begin, end);
      ChildrenAreNotSkipped(t, i + 1, begin, end);
    }
  }

  lemma {:induction false} BlocksBelowMore(t: Tree, low: nat, high: nat)
    requires BlocksBelow(t, low) && low <= high
    ensures BlocksBelow(t, high)
    decreases t
  {
    if t.Inner? {
      forall i | 0 <= i < |t.children| ensures BlocksBelow(t.children[i], high) {
        BlocksBelowMore(t.children[i], low, high);
      }
    }
  }

  /** The only caller maps to the end: then metadata blocks below this bound are all visited. */
  lemma {:induction false} VisitToTheEndIsComplete(t: Tree, lo: nat, hi: nat, start: nat, size: nat)
    requires 0 < size && Ordered(t, lo, hi) && BlocksBelow(t, (U64 - 1) / size)
    ensures Visit(t, start / size, EndBlock(start, U64 - 1, size)) == From(Pairs(t), start / size)
  {
    hide EndBlock, Visit, Pairs, From, Ordered, BlocksBelow, NothingSkipped;
    var end := EndBlock(start, U64 - 1, size);
    EndIsFarAway(start, size);
    BlocksBelowMore(t, (U64 - 1) / size, end);
    BelowIsNotSkipped(t, start / size, end);
    VisitIsCompleteIff(t, lo, hi, start / size, end);
  }

  lemma EndIsFarAway(start: nat, size: nat)
    requires 0 < size
    ensures (U64 - 1) / size <= EndBlock(start, U64 - 1, size)
  {
    var begin, blocks := start / size, (U64 - 1) / size;
    assert blocks * size <= U64 - 1 && blocks * size == blocks + blocks * (size - 1);
  }

  /** A mapped block is missed when its node lies at or beyond the bound, which counts volume blocks. */
  lemma BlockBeyondTheEndIsMissed()
    ensures var t := Inner(1, [0], [Leaf(100, [0], [0x100_0000])]);
            && Ordered(t, 0, U64)
            && EndBlock(0, 5120, 512) == 10
            && Visit(t, 0, EndBlock(0, 5120, 512)) == []
            && From(Pairs(t), 0) == [(0, 0x100_0000)]
  {
    var leaf := Leaf(100, [0], [0x100_0000]);
    var t := Inner(1, [0], [leaf]);
    assert Pairs(leaf) == [(0, 0x100_0000)];
    assert AllPairs([leaf]) == Pairs(leaf) + AllPairs([leaf][1..]);
  }

  // ----- mapped blocks in order

  ghost predicate PairsAscend(pairs: seq<(nat, nat)>) {
    forall i, j :: 0 <= i < j < |pairs| ==> pairs[i].0 < pairs[j].0
  }

  lemma {:induction false} TreePairsAscend(t: Tree, lo: nat, hi: nat)
    requires Ordered(t, lo, hi)
    ensures PairsAscend(Pairs(t))
    decreases t, 1
  {
    if t.Inner? {
      assert t.children[0..] == t.children;
      ChildPairsAscend(t, lo, hi, 0);
    }
  }

  lemma {:induction false} ChildPairsAscend(t: Tree, lo: nat, hi: nat, i: nat)
    requires t.Inner? && Ordered(t, lo, hi) && i <= |t.children|
    ensures PairsAscend(AllPairs(t.children[i..]))
    ensures forall p :: p in AllPairs(t.children[i..]) ==> i < |t.keys| && t.keys[i] <= p.0
    decreases t, 0, |t.children| - i
  {
    if i < |t.children| {
      var child, rest := t.children[i], t.children[i + 1..];
      assert t.children[i..][0] == child && t.children[i..][1..] == rest;
      TreePairsAscend(child, t.keys[i], Upper(t, i, hi));
      ChildPairsAscend(t, lo, hi, i + 1);
      forall p | p in Pairs(child) ensures t.keys[i] <= p.0 < Upper(t, i, hi) {
        KeysInBounds(child, t.keys[i], Upper(t, i, hi), p);
      }
      AscendJoin(Pairs(child), AllPairs(rest), Upper(t, i, hi));
    }
  }

  lemma AscendJoin(a: seq<(nat, nat)>, b: seq<(nat, nat)>, mid: nat)
    requires PairsAscend(a) && PairsAscend(b)
    requires forall p :: p in a ==> p.0 < mid
    requires forall p :: p in b ==> mid <= p.0
    ensures PairsAscend(a + b)
  {
    forall i, j | 0 <= i < j < |a + b| ensures (a + b)[i].0 < (a + b)[j].0 {
      if i < |a| <= j {
        assert (a + b)[i] in a && (a + b)[j] in b;
      }
    }
  }

  /** In ascending pairs, those from `begin` on are a suffix. */
  lemma {:induction false} FromOfAscending(pairs: seq<(nat, nat)>, begin: nat) returns (k: nat)
    requires PairsAscend(pairs)
    ensures k <= |pairs| && From(pairs, begin) == pairs[k..]
    ensures forall i :: 0 <= i < |pairs| ==> (pairs[i].0 < begin <==> i < k)
  {
    k := 0;
    while k < |pairs| && pairs[k].0 < begin
      invariant k <= |pairs| && forall i :: 0 <= i < k ==> pairs[i].0 < begin
    {
      k := k + 1;
    }
    FromIsSuffix(pairs, k, begin);
  }

  lemma {:induction false} FromAscends(pairs: seq<(nat, nat)>, begin: nat)
    requires PairsAscend(pairs)
    ensures PairsAscend(From(pairs, begin))
  {
    var k := FromOfAscending(pairs, begin);
  }

  /** A walk that starts behind the last block of the previous one continues with the next block. */
  lemma {:induction false} ResumesWhereItStopped(pairs: seq<(nat, nat)>, begin: nat, n: nat)
    requires PairsAscend(pairs) && 0 < n <= |From(pairs, begin)|
    ensures From(pairs, From(pairs, begin)[n - 1].0 + 1) == From(pairs, begin)[n..]
  {
    var k := FromOfAscending(pairs, begin);
    FromIsSuffix(pairs, k + n, From(pairs, begin)[n - 1].0 + 1);
  }

  // ----- what the runs stand for

  /** The first `n` pairs from volume block `begin` on, as runs. */
  ghost predicate Lists(runs: seq<Run>, pairs: seq<(nat, nat)>, begin: nat, n: nat) {
    && n <= |From(pairs, begin)| && (forall i :: 0 <= i < |runs| ==> 0 < runs[i].count)
    && Enumerates(Expand(runs), From(pairs, begin)[..n])
  }

  lemma {:induction false} ListedArePhysical(runs: seq<Run>, pairs: seq<(nat, nat)>, begin: nat, n: nat)
    requires Lists(runs, pairs, begin, n)
    ensures Expand(runs) == Physical(From(pairs, begin)[..n])
  {
    EnumeratedArePhysical(Expand(runs), From(pairs, begin)[..n]);
  }

  ghost predicate RunsAscend(runs: seq<Run>) {
    forall i, j :: 0 <= i < j < |runs| ==> runs[i].key + runs[i].count <= runs[j].key
  }

  /** Every expanded block comes from a run. */
  lemma {:induction false} InExpansion(runs: seq<Run>, p: (nat, nat)) returns (i: nat, j: nat)
    requires p in Expand(runs)
    ensures i < |runs| && j < runs[i].count && p == (runs[i].key + j, runs[i].phys + j)
  {
    var n := |runs| - 1;
    if p in RunPairs(runs[n]) {
      i := n;
      j :| 0 <= j < |RunPairs(runs[n])| && RunPairs(runs[n])[j] == p;
    } else {
      i, j := InExpansion(runs[..n], p);
    }
  }

  lemma {:induction false} ExpansionAscends(runs: seq<Run>)
    requires PairsAscend(Expand(runs)) && forall i :: 0 <= i < |runs| ==> 0 < runs[i].count
    ensures RunsAscend(runs)
  {
    if runs != [] {
      var n := |runs| - 1;
      var front, last := Expand(runs[..n]), RunPairs(runs[n]);
      assert Expand(runs) == front + last;
      assert forall i :: 0 <= i < |front| ==> front[i] == Expand(runs)[i];
      ExpansionAscends(runs[..n]);
      forall i | 0 <= i < n ensures runs[i].key + runs[i].count <= runs[n].key {
        RunInExpansion(runs[..n], i, runs[i].count - 1);
        var k :| 0 <= k < |front|
          && front[k] == (runs[i].key + (runs[i].count - 1), runs[i].phys + (runs[i].count - 1));
        assert Expand(runs)[k].0 < Expand(runs)[|front|].0;
      }
    }
  }

  lemma {:induction false} ListedRunsAscend(runs: seq<Run>, pairs: seq<(nat, nat)>, begin: nat, n: nat)
    requires PairsAscend(pairs) && Lists(runs, pairs, begin, n)
    ensures RunsAscend(runs)
  {
    FromAscends(pairs, begin);
    assert PairsAscend(Physical(From(pairs, begin)[..n]));
    ExpansionAscends(runs);
  }

  /** Block `j` of a listed run is mapped. */
  lemma {:induction false} RunIsMapped(runs: seq<Run>, pairs: seq<(nat, nat)>, begin: nat, n: nat, i: nat, j: nat)
    returns (p: (nat, nat), k: nat)
    requires Lists(runs, pairs, begin, n) && i < |runs| && j < runs[i].count
    ensures k < n && From(pairs, begin)[k] == p
    ensures p in pairs && begin <= p.0 == runs[i].key + j && Names(p.1, runs[i].phys + j)
  {
    ListedArePhysical(runs, pairs, begin, n);
    RunInExpansion(runs, i, j);
    var from := From(pairs, begin);
    k :| 0 <= k < n && Physical(from[..n])[k] == (runs[i].key + j, runs[i].phys + j);
    p := from[k];
    NamesOneBlock(p.1, runs[i].phys + j);
    InFrom(pairs, begin, p);
  }

  /** A mapped block from `begin` on is in a run, unless it is behind all of them. */
  lemma {:induction false} MappedIsListed(runs: seq<Run>, pairs: seq<(nat, nat)>, begin: nat, n: nat, p: (nat, nat))
    requires PairsAscend(pairs) && Lists(runs, pairs, begin, n) && p in pairs && begin <= p.0
    requires n == |From(pairs, begin)| || (runs != [] && p.0 < runs[|runs| - 1].key)
    ensures exists i :: 0 <= i < |runs| && runs[i].key <= p.0 < runs[i].key + runs[i].count
  {
    ListedArePhysical(runs, pairs, begin, n);
    InFrom(pairs, begin, p);
    FromAscends(pairs, begin);
    var from := From(pairs, begin);
    var k :| 0 <= k < |from| && from[k] == p;
    if k >= n {
      var q, m := RunIsMapped(runs, pairs, begin, n, |runs| - 1, 0);
    } else {
      assert Physical(from[..n])[k] == (p.0, PhysBlock(p.1));
      var i, j := InExpansion(runs, (p.0, PhysBlock(p.1)));
    }
  }

  /** The next unlisted block is behind the last run. */
  lemma {:induction false} ListingResumes(runs: seq<Run>, pairs: seq<(nat, nat)>, begin: nat, n: nat)
    requires PairsAscend(pairs) && Lists(runs, pairs, begin, n) && runs != []
    ensures n > 0
    ensures var last := runs[|runs| - 1]; From(pairs, last.key + last.count) == From(pairs, begin)[n..]
  {
    ListedArePhysical(runs, pairs, begin, n);
    var last := runs[|runs| - 1];
    var from := From(pairs, begin);
    assert |Expand(runs)| == n && Expand(runs)[n - 1] == RunPairs(last)[last.count - 1];
    assert Physical(from[..n])[n - 1] == (from[n - 1].0, PhysBlock(from[n - 1].1));
    ResumesWhereItStopped(pairs, begin, n);
  }

  // ----- the writer's view

  /** All mapped blocks start inside the file, and their addresses are 64 bit numbers. */
  ghost predicate MappedInside(pairs: seq<(nat, nat)>, size: nat, filesize: nat) {
    && (forall p :: p in pairs ==> p.0 * size < filesize && p.0 * size + size < U64)
    && (forall p, block: nat {:trigger Names(p.1, block)} ::
          p in pairs && Names(p.1, block) ==> block * size + size < U64)
  }

  /** The bytes of run `r` from `d` on, seen from the last block. */
  lemma RunEnd(r: Run, size: nat)
    requires 0 < r.count
    ensures r.key * size + r.count * size == (r.key + (r.count - 1)) * size + size
    ensures r.phys * size + r.count * size == (r.phys + (r.count - 1)) * size + size
    ensures size <= r.count * size
  {
    MulDistributes(r.count - 1, 1, size);
    MulDistributes(r.key, r.count - 1, size);
    MulDistributes(r.phys, r.count - 1, size);
  }

  lemma RunsInBytes(a: Run, b: Run, size: nat)
    requires 0 < size && a.key + a.count <= b.key
    ensures a.key * size + a.count * size <= b.key * size
  {
    MulDistributes(a.key, a.count, size);
    MulCancels(a.key + a.count, b.key, size);
  }

  /** Extent `i` after the cut. */
  lemma CutAt(runs: seq<Run>, size: nat, at: nat, i: nat)
    requires 0 < size && i < |runs| && RunsAscend(runs)
    requires forall k :: 0 <= k < |runs| ==> 0 < runs[k].count && at / size <= runs[k].key
    ensures var e, full := Cut(Extents(runs, size), at)[i], RunExtent(runs[i], size);
            && at <= e.logical && full.logical <= e.logical
            && e.logical + e.length == full.logical + full.length
            && e.logical - full.logical == e.physical - full.physical
            && (e.logical == full.logical || (i == 0 && e.logical == at))
            && 0 < e.length && e.device == 0 && e.flags == full.flags
  {
    var es := Extents(runs, size);
    CutIsShort(runs[0], size, at);
    if i > 0 {
      RunEnd(runs[0], size);
      RunsInBytes(runs[0], runs[i], size);
    }
    RunEnd(runs[i], size);
  }

  lemma {:induction false} CutOf(pairs: seq<(nat, nat)>, size: nat, at: nat, runs: seq<Run>, n: nat, i: nat)
    requires 0 < size && PairsAscend(pairs) && Lists(runs, pairs, at / size, n) && i < |runs|
    ensures var e, full := Cut(Extents(runs, size), at)[i], RunExtent(runs[i], size);
            && at <= e.logical && full.logical <= e.logical
            && e.logical + e.length == full.logical + full.length
            && e.logical - full.logical == e.physical - full.physical
            && (e.logical == full.logical || (i == 0 && e.logical == at))
            && 0 < e.length && e.device == 0 && e.flags == full.flags
  {
    ListedRunsAscend(runs, pairs, at / size, n);
    RunsStartBehind(runs, pairs, at / size, n);
    CountsPositive(runs, pairs, at / size, n);
    hide Lists, Cut, Extents, RunsAscend, RunExtent;
    CutAt(runs, size, at, i);
  }

  /** Every answer keeps the contract of the writer's extent callback. */
  lemma {:induction false} AnswersKeepTheContract(pairs: seq<(nat, nat)>, size: nat, filesize: nat, at: nat,
                                                  runs: seq<Run>, n: nat)
    requires 0 < size && PairsAscend(pairs) && MappedInside(pairs, size, filesize) && at < filesize
    requires Lists(runs, pairs, at / size, n) && |runs| <= EXTENT_BUFFER
    ensures BatchOk(Cut(Extents(runs, size), at), at, filesize)
  {
    ListedRunsAscend(runs, pairs, at / size, n);
    var b := Cut(Extents(runs, size), at);
    CountsPositive(runs, pairs, at / size, n);
    hide Lists, PairsAscend, Cut, Extents;
    forall i | 0 <= i < |b|
      ensures 0 < b[i].length && at <= b[i].logical < filesize && !IsCopy(b[i].flags)
      ensures b[i].logical + b[i].length < U64 && b[i].physical + b[i].length < U64
    {
      CutOf(pairs, size, at, runs, n, i);
      RunEnd(runs[i], size);
      var first, k := RunIsMapped(runs, pairs, at / size, n, i, 0);
      var last, m := RunIsMapped(runs, pairs, at / size, n, i, runs[i].count - 1);
    }
    forall i, j | 0 <= i < j < |b| ensures b[i].logical + b[i].length <= b[j].logical {
      CutOf(pairs, size, at, runs, n, i);
      CutOf(pairs, size, at, runs, n, j);
      RunsInBytes(runs[i], runs[j], size);
    }
  }

  lemma {:induction false} RunsStartBehind(runs: seq<Run>, pairs: seq<(nat, nat)>, begin: nat, n: nat)
    requires Lists(runs, pairs, begin, n)
    ensures forall i :: 0 <= i < |runs| ==> begin <= runs[i].key
  {
    forall i | 0 <= i < |runs| ensures begin <= runs[i].key {
      var p, k := RunIsMapped(runs, pairs, begin, n, i, 0);
    }
  }

  ghost predicate Unmapped(pairs: seq<(nat, nat)>, block: nat) {
    forall p :: p in pairs ==> p.0 != block
  }

  /** The pool holds the volume's content in its mapped blocks; the rest of the volume reads as zeros. */
  ghost predicate PoolHolds(pairs: seq<(nat, nat)>, size: nat, content: seq<byte>, disk: Disk)
    requires 0 < size
  {
    && (forall l, p, block: nat {:trigger content[l], Names(p.1, block)} ::
          0 <= l < |content| && p in pairs && p.0 == l / size && Names(p.1, block) ==>
            content[l] == disk(0, block * size + l % size))
    && (forall l :: 0 <= l < |content| && Unmapped(pairs, l / size) ==> content[l] == 0)
  }

  lemma DivShift(a: nat, d: nat, size: nat)
    requires 0 < size
    ensures (a * size + d) / size == a + d / size && (a * size + d) % size == d % size
  {
    var x, q := a * size + d, d / size;
    MulDistributes(a, q, size);
    MulCancels(x / size, a + q, size);
    MulCancels(a + q, x / size, size);
    assert x == x / size * size + x % size && d == q * size + d % size;
  }

  /** The extent of a whole run names the pool's bytes that hold the volume's content. */
  ghost predicate NamesContent(e: FileExtent, content: seq<byte>, disk: Disk) {
    forall b {:trigger disk(0, b)} ::
      e.physical <= b < e.physical + e.length && e.logical + (b - e.physical) < |content| ==>
      content[e.logical + (b - e.physical)] == disk(0, b)
  }

  lemma {:induction false} RunNamesContent(pairs: seq<(nat, nat)>, size: nat, content: seq<byte>, disk: Disk,
                                           runs: seq<Run>, begin: nat, n: nat, i: nat)
    requires 0 < size && PoolHolds(pairs, size, content, disk) && Lists(runs, pairs, begin, n) && i < |runs|
    ensures NamesContent(RunExtent(runs[i], size), content, disk)
  {
    hide PoolHolds, Lists;
    var e := RunExtent(runs[i], size);
    forall b {:trigger disk(0, b)} | e.physical <= b < e.physical + e.length && e.logical + (b - e.physical) < |content|
      ensures content[e.logical + (b - e.physical)] == disk(0, b)
    {
      RunHolds(pairs, size, content, disk, runs, begin, n, i, b - e.physical);
    }
  }

  /** A run holds the volume's bytes. */
  lemma {:induction false} RunHolds(pairs: seq<(nat, nat)>, size: nat, content: seq<byte>, disk: Disk, runs: seq<Run>,
                                    begin: nat, n: nat, i: nat, d: nat)
    requires 0 < size && PoolHolds(pairs, size, content, disk) && Lists(runs, pairs, begin, n)
    requires i < |runs| && d < runs[i].count * size && runs[i].key * size + d < |content|
    ensures content[runs[i].key * size + d] == disk(0, runs[i].phys * size + d)
  {
    var r, q := runs[i], d / size;
    assert q < r.count by {
      if q > r.count {
        MulStep(r.count, q, size);
      }
    }
    var p, k := RunIsMapped(runs, pairs, begin, n, i, q);
    DivShift(r.key, d, size);
    MulDistributes(r.phys, q, size);
    assert d == q * size + d % size;
  }

  /** Between two runs, in front of the first and behind the last one the volume is not mapped. */
  lemma {:induction false} GapIsZero(pairs: seq<(nat, nat)>, size: nat, content: seq<byte>, disk: Disk, runs: seq<Run>,
                                     at: nat, n: nat, i: nat, l: nat)
    requires 0 < size && PairsAscend(pairs) && PoolHolds(pairs, size, content, disk) && Lists(runs, pairs, at / size, n)
    requires i <= |runs| && (i == |runs| ==> n == |From(pairs, at / size)|)
    requires at <= l < |content|
    requires i > 0 ==> (runs[i - 1].key + runs[i - 1].count) * size <= l
    requires i < |runs| ==> l < runs[i].key * size
    ensures content[l] == 0
  {
    ListedRunsAscend(runs, pairs, at / size, n);
    forall p | p in pairs ensures p.0 != l / size {
      NotListed(pairs, size, runs, at, n, i, l, p);
    }
    assert Unmapped(pairs, l / size);
  }

  lemma {:induction false} NotListed(pairs: seq<(nat, nat)>, size: nat, runs: seq<Run>, at: nat, n: nat, i: nat, l: nat,
                                     p: (nat, nat))
    requires 0 < size && PairsAscend(pairs) && Lists(runs, pairs, at / size, n) && RunsAscend(runs) && at <= l
    requires i <= |runs| && (i == |runs| ==> n == |From(pairs, at / size)|)
    requires i > 0 ==> (runs[i - 1].key + runs[i - 1].count) * size <= l
    requires i < |runs| ==> l < runs[i].key * size
    requires p in pairs
    ensures p.0 != l / size
  {
    hide Lists, PairsAscend, From;
    BlockOfByte(l, size, at / size);
    assert at / size * size <= at;
    if i < |runs| {
      BlockOfByte(l, size, runs[i].key);
    }
    if i > 0 {
      BlockOfByte(l, size, runs[i - 1].key + runs[i - 1].count);
    }
    if p.0 == l / size {
      MappedIsListed(runs, pairs, at / size, n, p);
    }
  }

  lemma BlockOfByte(l: nat, size: nat, key: nat)
    requires 0 < size
    ensures l < key * size <==> l / size < key
  {
    assert l == l / size * size + l % size;
    MulCancels(l / size, key, size);
    MulCancels(key, l / size, size);
  }

  lemma ZerosByByte(content: seq<byte>, from: nat, to: nat)
    requires from <= to <= |content| && forall l :: from <= l < to ==> content[l] == 0
    ensures ZeroRange(content, from, to)
  {
  }

  /** An extent of an answer names the pool's bytes that hold the volume's content. */
  lemma {:induction false} AnswerExtentIsTrue(pairs: seq<(nat, nat)>, size: nat, content: seq<byte>, disk: Disk,
                                              at: nat, runs: seq<Run>, n: nat, i: nat)
    requires 0 < size && PairsAscend(pairs) && PoolHolds(pairs, size, content, disk) && Lists(runs, pairs, at / size, n)
    requires i < |runs| && Cut(Extents(runs, size), at)[i].logical <= |content|
    ensures ExtentTrue(Clamp(Cut(Extents(runs, size), at)[i], |content|), content, false, disk)
  {
    hide Lists, PoolHolds, Cut, Extents, PairsAscend, NamesContent, ExtentTrue, RunExtent;
    RunNamesContent(pairs, size, content, disk, runs, at / size, n, i);
    CutOf(pairs, size, at, runs, n, i);
    RunFlags(runs[i], size);
    PartIsTrue(RunExtent(runs[i], size), Cut(Extents(runs, size), at)[i], content, disk);
  }

  lemma RunFlags(r: Run, size: nat)
    ensures RunExtent(r, size).flags == FL_DATA + 0x100
  {
  }

  /** All extents are DATA and shared, and their bytes are on the device. */
  ghost predicate AllOnDisk(b: seq<FileExtent>, content: seq<byte>, disk: Disk) {
    forall i :: 0 <= i < |b| && b[i].logical <= |content| ==>
      var e := Clamp(b[i], |content|);
      b[i].flags == 0x101 && b[i].device == 0 && OnDisk(AsInput(e, 0), e.length, content, 0, disk)
  }

  lemma SharedIsOnDisk(e: FileExtent, content: seq<byte>, disk: Disk)
    requires ExtentTrue(e, content, false, disk) && e.flags == 0x101 && e.device == 0
    ensures IsShared(e.flags) && OnDisk(AsInput(e, 0), e.length, content, 0, disk)
  {
    SharedIsABit(0x101);
  }

  /** The end of an extent that names content, clamped to the file, tells the truth. */
  lemma PartIsTrue(full: FileExtent, e: FileExtent, content: seq<byte>, disk: Disk)
    requires NamesContent(full, content, disk) && e.logical <= |content| && full.logical <= e.logical
    requires e.logical + e.length == full.logical + full.length
             && e.logical - full.logical == e.physical - full.physical
    requires e.device == 0 && e.flags == FL_DATA + 0x100
    ensures ExtentTrue(Clamp(e, |content|), content, false, disk)
  {
  }

  /** Every answer tells the truth about the volume. */
  lemma {:induction false} AnswersAreTrue(pairs: seq<(nat, nat)>, size: nat, content: seq<byte>, disk: Disk, at: nat,
                                          runs: seq<Run>, n: nat)
    requires 0 < size && PairsAscend(pairs) && MappedInside(pairs, size, |content|) && at < |content|
    requires PoolHolds(pairs, size, content, disk)
    requires Lists(runs, pairs, at / size, n) && |runs| <= EXTENT_BUFFER
             && (runs == [] ==> n == |From(pairs, at / size)|)
    ensures BatchTrue(Cut(Extents(runs, size), at), at, content, false, disk)
    ensures AllOnDisk(Cut(Extents(runs, size), at), content, disk)
  {
    hide PoolHolds, Lists, ExtentTrue, Cut, PairsAscend, ZeroRange, RunsAscend, Extents, OnDisk, IsShared;
    var b := Cut(Extents(runs, size), at);
    AnswersKeepTheContract(pairs, size, |content|, at, runs, n);
    forall i | 0 <= i < |b| && b[i].logical <= |content|
      ensures ExtentTrue(Clamp(b[i], |content|), content, false, disk)
      ensures var e := Clamp(b[i], |content|);
              b[i].flags == 0x101 && b[i].device == 0 && OnDisk(AsInput(e, 0), e.length, content, 0, disk)
    {
      AnswerExtentIsTrue(pairs, size, content, disk, at, runs, n, i);
      CutOf(pairs, size, at, runs, n, i);
      SharedIsOnDisk(Clamp(b[i], |content|), content, disk);
    }
    var first := if b == [] then |content| else b[0].logical;
    forall l | at <= l < first ensures content[l] == 0 {
      if b != [] {
        CutOf(pairs, size, at, runs, n, 0);
      }
      GapIsZero(pairs, size, content, disk, runs, at, n, 0, l);
    }
    ZerosByByte(content, at, first);
    forall i, j | 0 <= i && j == i + 1 < |b| ensures ZeroRange(content, b[i].logical + b[i].length, b[j].logical) {
      CutOf(pairs, size, at, runs, n, i);
      CutOf(pairs, size, at, runs, n, j);
      GapsAreZero(pairs, size, content, disk, runs, at, n, i, j, b[j].logical);
    }
  }

  lemma {:induction false} GapsAreZero(pairs: seq<(nat, nat)>, size: nat, content: seq<byte>, disk: Disk,
                                       runs: seq<Run>, at: nat, n: nat, i: nat, j: nat, to: nat)
    requires 0 < size && PairsAscend(pairs) && PoolHolds(pairs, size, content, disk) && Lists(runs, pairs, at / size, n)
    requires j == i + 1 < |runs| && at <= RunExtent(runs[i], size).logical + RunExtent(runs[i], size).length
    requires RunExtent(runs[i], size).logical + RunExtent(runs[i], size).length <= to <= |content|
    requires to == RunExtent(runs[j], size).logical
    ensures ZeroRange(content, RunExtent(runs[i], size).logical + RunExtent(runs[i], size).length, to)
  {
    hide PoolHolds, Lists, PairsAscend, ZeroRange;
    MulDistributes(runs[i].key, runs[i].count, size);
    var from := RunExtent(runs[i], size).logical + RunExtent(runs[i], size).length;
    forall l | from <= l < to ensures content[l] == 0 {
      GapIsZero(pairs, size, content, disk, runs, at, n, j, l);
    }
    ZerosByByte(content, from, to);
  }

  /** An answer to a call that asks from position `at` on: mapped blocks in runs, or an error. */
  ghost predicate IsAnswer(answer: NextResult, pairs: seq<(nat, nat)>, size: nat, at: nat)
    requires 0 < size
  {
    match answer
    case NextError(rc) => rc < 0
    case Batch(b) =>
      exists runs, n {:trigger Lists(runs, pairs, at / size, n)} ::
        && Lists(runs, pairs, at / size, n) && |runs| <= EXTENT_BUFFER && (runs == [] ==> n == |From(pairs, at / size)|)
        && b == Cut(Extents(runs, size), at)
  }

  /** A callback with such answers keeps the writer's contract and tells the truth about the volume. */
  lemma {:induction false} VolumeCallback(next: NextExtents, pairs: seq<(nat, nat)>, size: nat, content: seq<byte>,
                                          disk: Disk)
    requires 0 < size && PairsAscend(pairs) && MappedInside(pairs, size, |content|)
             && PoolHolds(pairs, size, content, disk)
    requires forall n: nat, at: nat {:trigger next(n, at)} :: at < |content| ==> IsAnswer(next(n, at), pairs, size, at)
    ensures NextOk(next, |content|) && NextTrue(next, content, false, disk)
  {
    hide PoolHolds, PairsAscend, MappedInside, Lists, From, Cut, Extents, BatchOk, BatchTrue;
    forall n: nat, at: nat | at < |content| && next(n, at).Batch?
      ensures BatchOk(next(n, at).extents, at, |content|) && BatchTrue(next(n, at).extents, at, content, false, disk)
    {
      var runs, m :|
        && Lists(runs, pairs, at / size, m) && |runs| <= EXTENT_BUFFER
        && (runs == [] ==> m == |From(pairs, at / size)|)
                     && next(n, at).extents == Cut(Extents(runs, size), at);
      AnswersKeepTheContract(pairs, size, |content|, at, runs, m);
      AnswersAreTrue(pairs, size, content, disk, at, runs, m);
    }
  }

  lemma CountsPositive(runs: seq<Run>, pairs: seq<(nat, nat)>, begin: nat, n: nat)
    requires Lists(runs, pairs, begin, n)
    ensures forall i :: 0 <= i < |runs| ==> 0 < runs[i].count
  {
  }

  // ----- the callback and whole listings

  /** A pool whose trees fit the addresses the tool uses. */
  ghost predicate PoolOk(thin: FiesDMThin, root: Tree, volumes: map<nat, Tree>) {
    && 0 < thin.dataBlockSize && root.block == thin.dataMappingRoot
    && Stored(thin.get, root) && Ordered(root, 0, U64)
    && forall p :: p in Pairs(root) ==>
         && p.0 in volumes && volumes[p.0].block == p.1
         && Stored(thin.get, volumes[p.0]) && Ordered(volumes[p.0], 0, U64)
         && BlocksBelow(volumes[p.0], (U64 - 1) / thin.dataBlockSize)
  }

  lemma BlocksAreNotEmpty(thin: FiesDMThin, root: Tree, volumes: map<nat, Tree>)
    requires PoolOk(thin, root, volumes)
    ensures 0 < thin.dataBlockSize
  {
  }

  /** Something the walk needs cannot be read, or the volume does not exist. */
  ghost predicate Unusable(thin: FiesDMThin, root: Tree, volumes: map<nat, Tree>, device: nat) {
    || !Readable(thin.get, root) || device !in volumes || !Readable(thin.get, volumes[device])
    || forall v: nat :: (device, v) !in Pairs(root)
  }

  /** Maps a volume to its end (src/fies-dmthin/dmthin_meta.c). */
  method ThinMetaMap(thin: FiesDMThin, device: nat, at: nat, buf: array<FileExtent>, count: nat, ghost root: Tree,
                     ghost volumes: map<nat, Tree>)
    returns (rc: int, ghost runs: seq<Run>, ghost n: nat)
    requires PoolOk(thin, root, volumes) && at < U64 && count <= buf.Length
    modifies buf
    ensures rc < 0 ==> Unusable(thin, root, volumes, device)
    ensures rc >= 0 ==>
              && rc <= count && |runs| == rc && device in volumes && PairsAscend(Pairs(volumes[device]))
              && Maximal(runs) && Lists(runs, Pairs(volumes[device]), at / thin.dataBlockSize, n)
              && buf[..rc] == Cut(Extents(runs, thin.dataBlockSize), at)
              && (rc < count ==> n == |From(Pairs(volumes[device]), at / thin.dataBlockSize)|)
    ensures rc >= 0 && 0 < count <= EXTENT_BUFFER ==>
              IsAnswer(Batch(buf[..rc]), Pairs(volumes[device]), thin.dataBlockSize, at)
  {
    hide Stored, Ordered, Readable, BlocksBelow, Pairs, Cut, Extents, Expand, Physical, Enumerates, Visit, From;
    rc, runs, n := thin.MapExtents(device, at, U64 - 1, buf, count, root, volumes);
    if rc >= 0 {
      TreePairsAscend(volumes[device], 0, U64);
      VisitToTheEndIsComplete(volumes[device], 0, U64, at, thin.dataBlockSize);
    }
  }

  /** What is left after one answer is what the next call lists. */
  lemma {:induction false} NextAnswer(runs: seq<Run>, pairs: seq<(nat, nat)>, size: nat, at: nat, n: nat)
    requires 0 < size && PairsAscend(pairs) && Lists(runs, pairs, at / size, n) && runs != []
    requires forall p :: p in pairs ==> p.0 * size + size < U64
    ensures var last := RunExtent(runs[|runs| - 1], size); var next := last.logical + last.length;
            && n > 0 && next < U64 && next % size == 0
            && From(pairs, next / size) == From(pairs, at / size)[n..]
  {
    hide Expand, Physical, Enumerates, From;
    var last := runs[|runs| - 1];
    ListingResumes(runs, pairs, at / size, n);
    RunEnd(last, size);
    var p, k := RunIsMapped(runs, pairs, at / size, n, |runs| - 1, last.count - 1);
    MulDistributes(last.key, last.count, size);
    DivShift(last.key + last.count, 0, size);
  }

  /** At a block boundary there is nothing to cut. */
  lemma {:induction false} NothingToCut(runs: seq<Run>, pairs: seq<(nat, nat)>, size: nat, at: nat, n: nat)
    requires 0 < size && Lists(runs, pairs, at / size, n) && at % size == 0
    ensures Cut(Extents(runs, size), at) == Extents(runs, size)
  {
    hide Expand, Physical, Enumerates, From;
    if runs != [] {
      var q, m := RunIsMapped(runs, pairs, at / size, n, 0, 0);
      if at / size < runs[0].key {
        MulStep(at / size, runs[0].key, size);
      }
      assert at == at / size * size;
    }
  }

  lemma {:induction false} ExpandConcat(a: seq<Run>, b: seq<Run>)
    ensures Expand(a + b) == Expand(a) + Expand(b)
  {
    if b == [] {
      assert a + b == a;
    } else {
      var n := |b| - 1;
      assert (a + b)[..|a| + n] == a + b[..n];
      ExpandConcat(a, b[..n]);
      assert Expand(b) == Expand(b[..n]) + RunPairs(b[n]);
    }
  }

  lemma {:induction false} FromStart(pairs: seq<(nat, nat)>)
    ensures From(pairs, 0) == pairs
  {
    FromIsSuffix(pairs, 0, 0);
  }

  lemma {:induction false} ListingStarts(total: seq<(nat, nat)>, size: nat)
    ensures From(total, 0) == total && Expand([]) + Physical(total) == Physical(total) && Extents([], size) == []
  {
    FromStart(total);
  }

  lemma {:induction false} ListingGrows(total: seq<(nat, nat)>, left: seq<(nat, nat)>, n: nat, runs: seq<Run>,
                                        more: seq<Run>, at: nat, size: nat)
    requires 0 < size && left == From(total, at / size) && Lists(more, total, at / size, n)
    requires Expand(runs) + Physical(left) == Physical(total)
    ensures n <= |left| && Expand(runs + more) + Physical(left[n..]) == Physical(total)
    ensures Extents(runs + more, size) == Extents(runs, size) + Extents(more, size)
  {
    hide From, Expand, Physical, Extents;
    ListedArePhysical(more, total, at / size, n);
    ExpandConcat(runs, more);
    ExtentsConcat(runs, more, size);
    PhysicalSplit(left, n);
    Associates(Expand(runs), Physical(left[..n]), Physical(left[n..]));
  }

  lemma ExtentsConcat(a: seq<Run>, b: seq<Run>, size: nat)
    ensures Extents(a + b, size) == Extents(a, size) + Extents(b, size)
  {
  }

  lemma PhysicalSplit(left: seq<(nat, nat)>, n: nat)
    requires n <= |left|
    ensures Physical(left) == Physical(left[..n]) + Physical(left[n..])
  {
  }

  lemma {:induction false} ListingEnds(total: seq<(nat, nat)>, begin: nat, n: nat, runs: seq<Run>)
    requires Lists(runs, total, begin, n) && runs == [] && n == |From(total, begin)|
    ensures From(total, begin) == []
  {
  }

  lemma {:induction false} ListingIsWhole(total: seq<(nat, nat)>, runs: seq<Run>)
    requires Expand(runs) + Physical([]) == Physical(total)
    ensures Enumerates(Expand(runs), total)
  {
    hide Enumerates, Expand;
    PhysicalEnumerates(total);
    assert Expand(runs) + Physical([]) == Expand(runs);
  }

  /**
   * Lists a whole volume with a buffer of any size, each call continuing at the end of the last
   * extent, as the writer does. Every mapped block is listed once, in order.
   */
  method ListVolume(thin: FiesDMThin, device: nat, buf: array<FileExtent>, ghost root: Tree,
                    ghost volumes: map<nat, Tree>)
    returns (rc: int, extents: seq<FileExtent>, ghost runs: seq<Run>)
    requires PoolOk(thin, root, volumes) && 0 < buf.Length
    requires device in volumes ==> forall p :: p in Pairs(volumes[device]) ==>
              p.0 * thin.dataBlockSize + thin.dataBlockSize < U64
    modifies buf
    ensures rc < 0 ==> Unusable(thin, root, volumes, device)
    ensures rc >= 0 ==>
              && device in volumes && extents == Extents(runs, thin.dataBlockSize)
              && Enumerates(Expand(runs), Pairs(volumes[device]))
  {
    hide Maximal, Lists, Unusable, PairsAscend, Expand, Physical, Enumerates, From, Pairs, Cut, IsAnswer, PoolOk;
    BlocksAreNotEmpty(thin, root, volumes);
    var size := thin.dataBlockSize;
    var at: nat := 0;
    extents, runs, rc := [], [], 1;
    ghost var left := if device in volumes then Pairs(volumes[device]) else [];
    ghost var total := left;
    ListingStarts(total, size);
    while rc > 0
      invariant at < U64 && at % size == 0
      invariant rc < 0 ==> Unusable(thin, root, volumes, device)
      invariant extents == Extents(runs, size)
      invariant device in volumes ==> left == From(total, at / size)
      invariant Expand(runs) + Physical(left) == Physical(total)
      invariant rc == 0 ==> device in volumes && left == []
      decreases |left|, rc
    {
      ghost var more, n;
      rc, more, n := ThinMetaMap(thin, device, at, buf, buf.Length, root, volumes);
      if rc > 0 {
        NextAnswer(more, total, size, at, n);
        NothingToCut(more, total, size, at, n);
        ListingGrows(total, left, n, runs, more, at, size);
        extents := extents + buf[..rc];
        runs := runs + more;
        var last := extents[|extents| - 1];
        at := last.logical + last.length;
        left := left[n..];
      } else if rc == 0 {
        ListingEnds(total, at / size, n, more);
      }
    }
    if rc == 0 {
      ListingIsWhole(total, runs);
    }
  }
}
