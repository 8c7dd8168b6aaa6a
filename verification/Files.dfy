/** The files a writer is given, and the extents they report (include/fies.h, lib/fies_writer.c). */
module Files {
  import opened Common
  import opened Protocol
  import opened ExtentMap
  import opened Replay

  /** Number of extents the writer asks a file for at a time. */
  const EXTENT_BUFFER: nat := 8 * 1024

  datatype FileExtent = FileExtent(device: nat, logical: nat, physical: nat, length: nat, flags: nat)

  datatype NextResult = Batch(extents: seq<FileExtent>) | NextError(rc: int)

  /** The `next_extents` callback: the answer to the n-th call, which asks from a position on. */
  type NextExtents = (nat, nat) -> NextResult

  /** Ascending, disjoint, non-empty extents from `at` on that start inside the file. */
  ghost predicate BatchOk(b: seq<FileExtent>, at: nat, filesize: nat) {
    && |b| <= EXTENT_BUFFER
    && (forall i :: 0 <= i < |b| ==>
          && 0 < b[i].length && at <= b[i].logical < filesize
          && b[i].logical + b[i].length < U64 && b[i].physical + b[i].length < U64
          && !IsCopy(b[i].flags))
    && (forall i, j :: 0 <= i < j < |b| ==> b[i].logical + b[i].length <= b[j].logical)
  }

  ghost predicate NextOk(next: NextExtents, filesize: nat) {
    forall n: nat, at: nat {:trigger next(n, at)} :: at < filesize ==>
      match next(n, at)
      case Batch(b) => BatchOk(b, at, filesize)
      case NextError(rc) => rc < 0
  }

  /** The part of the extent that lies inside the file. */
  function Clamp(e: FileExtent, filesize: nat): (r: FileExtent)
    requires e.logical <= filesize
    ensures r.logical + r.length <= filesize && r.length <= e.length
  {
    if e.logical + e.length > filesize then e.(length := filesize - e.logical) else e
  }

  // ----- extents that tell the truth

  ghost predicate ZeroRange(content: seq<byte>, from: nat, to: nat) {
    from <= to <= |content| && content[from..to] == Zeros(to - from)
  }

  function AsInput(e: FileExtent, fid: nat): MapExtent {
    MapExtent(e.physical, e.logical, e.length, fid)
  }

  /** A shared extent names the physical bytes that hold the file's content. */
  ghost predicate SharedTrue(e: FileExtent, content: seq<byte>, disk: Disk) {
    IsShared(e.flags) ==> OnDisk(AsInput(e, 0), e.length, content, e.device, disk)
  }

  ghost predicate ExtentTrue(e: FileExtent, content: seq<byte>, ref: bool, disk: Disk) {
    && e.logical + e.length <= |content|
    && SharedTrue(e, content, disk)
    && (ref || TypeFits(e.flags, content, e.logical, e.length))
  }

  /**
   * The extents of a batch tell the truth, and what they skip reads as zeros; a reference file
   * only has to be truthful about shared extents.
   */
  ghost predicate BatchTrue(b: seq<FileExtent>, at: nat, content: seq<byte>, ref: bool, disk: Disk) {
    && (forall i :: 0 <= i < |b| && b[i].logical <= |content| ==>
          ExtentTrue(Clamp(b[i], |content|), content, ref, disk))
    && (ref || ZeroRange(content, at, if b == [] then |content| else b[0].logical))
    && (ref || forall i, j :: 0 <= i && j == i + 1 < |b| ==>
          ZeroRange(content, b[i].logical + b[i].length, b[j].logical))
  }

  ghost predicate NextTrue(next: NextExtents, content: seq<byte>, ref: bool, disk: Disk) {
    forall n: nat, at: nat {:trigger next(n, at)} :: at < |content| && next(n, at).Batch? ==>
      BatchTrue(next(n, at).extents, at, content, ref, disk)
  }

  /** The `get_device` callback of a file, and its answer. */
  datatype GetDevice = NoGetDevice | DeviceError(rc: int) | Numbers(node: NodeId)

  /** What `get_xattr` answers for one name; an attribute can have vanished, or have no data. */
  datatype XAttrAnswer = NoData | XAttrError(rc: int) | Value(data: seq<byte>)

  /** The callbacks for extended attributes, if there are both: the list of names, with their answers. */
  datatype XAttrs = NoXAttrs | ListError(rc: int) | XAttrList(entries: seq<(seq<byte>, XAttrAnswer)>)

  /** A file handle with its callbacks. */
  class FiesFile {
    const name: seq<byte>
    const link: Option<seq<byte>>
    const mode: nat
    const device: nat
    const uid: nat
    const gid: nat
    const secs: nat
    const nsecs: nat
    const xattrs: XAttrs
    const content: seq<byte>
    const next: Option<NextExtents>
    const getDevice: GetDevice
    var fileid: nat

    constructor (name: seq<byte>, link: Option<seq<byte>>, mode: nat, device: nat, uid: nat, gid: nat, secs: nat,
                 nsecs: nat, xattrs: XAttrs, content: seq<byte>, next: Option<NextExtents>, getDevice: GetDevice)
      ensures this.name == name && this.link == link && this.mode == mode && this.device == device
      ensures this.uid == uid && this.gid == gid && this.secs == secs && this.nsecs == nsecs
      ensures this.xattrs == xattrs && this.content == content && this.next == next && this.getDevice == getDevice
      ensures this.fileid == 0
    {
      this.name, this.link, this.mode, this.device := name, link, mode, device;
      this.uid, this.gid, this.secs, this.nsecs, this.xattrs := uid, gid, secs, nsecs, xattrs;
      this.content, this.next, this.getDevice, this.fileid := content, next, getDevice, 0;
    }

    function Entries(): seq<(seq<byte>, XAttrAnswer)> {
      if xattrs.XAttrList? then xattrs.entries else []
    }

    /** Names are C strings, errors are negative, and the extent callback keeps its contract. */
    ghost predicate Ok() {
      && 0 !in name && (link.Some? ==> 0 !in link.value)
      && (xattrs.ListError? ==> xattrs.rc < 0)
      && (forall i :: 0 <= i < |Entries()| ==>
            0 !in Entries()[i].0 && (Entries()[i].1.XAttrError? ==> Entries()[i].1.rc < 0))
      && |content| < U64
      && (next.Some? ==> NextOk(next.value, |content|))
      && (getDevice.DeviceError? ==> getDevice.rc < 0)
    }
  }

  // ----- merging neighbours

  /** `b` continues `a` in the file and on the device. */
  predicate Joins(a: FileExtent, b: FileExtent) {
    && b.flags == a.flags && b.device == a.device
    && b.physical == a.physical + a.length && b.logical == a.logical + a.length
  }

  /** `e` maps every byte of `p` to where `p` has it, and has its flags. */
  predicate PartOf(p: FileExtent, e: FileExtent) {
    && p.flags == e.flags && p.device == e.device
    && e.logical <= p.logical && p.logical + p.length <= e.logical + e.length
    && p.physical - e.physical == p.logical - e.logical
  }

  /** `e` is one extent for the run `b[from..last + 1]` of joined neighbours. */
  ghost predicate IsRun(e: FileExtent, b: seq<FileExtent>, from: nat, last: nat) {
    && from <= last < |b|
    && (forall k, l :: from <= k && l == k + 1 <= last ==> Joins(b[k], b[l]))
    && (forall k :: from <= k <= last ==> PartOf(b[k], e))
    && e == b[from].(length := e.length)
    && e.logical + e.length == b[last].logical + b[last].length
  }

  /** Grows `ex[pi]` over the neighbours that continue it; the last of them is returned. */
  method MergeExtents(ex: array<FileExtent>, pi: nat, count: nat) returns (i: nat)
    requires pi < count <= ex.Length
    modifies ex
    ensures pi <= i < count
    ensures IsRun(ex[pi], old(ex[..]), pi, i)
    ensures i + 1 < count ==> !Joins(old(ex[i]), old(ex[i + 1]))
    ensures forall k :: 0 <= k < ex.Length && k != pi ==> ex[k] == old(ex[k])
  {
    hide IsRun;
    ghost var b := ex[..];
    RunStart(b, pi);
    i := pi;
    while i + 1 != count && Joins(ex[i], ex[i + 1])
      invariant pi <= i < count
      invariant forall k :: 0 <= k < ex.Length && k != pi ==> ex[k] == b[k]
      invariant i == pi ==> ex[pi] == b[pi]
      invariant IsRun(ex[pi], b, pi, i)
      decreases count - i
    {
      RunGrow(ex[pi], b, pi, i);
      ex[pi] := ex[pi].(length := ex[pi].length + ex[i + 1].length);
      i := i + 1;
    }
  }

  lemma RunStart(b: seq<FileExtent>, from: nat)
    requires from < |b|
    ensures IsRun(b[from], b, from, from)
  {
  }

  lemma RunGrow(e: FileExtent, b: seq<FileExtent>, from: nat, last: nat)
    requires IsRun(e, b, from, last) && last + 1 < |b| && Joins(b[last], b[last + 1])
    ensures IsRun(e.(length := e.length + b[last + 1].length), b, from, last + 1)
  {
    assert PartOf(b[last], e);
  }

  /** The batch with all neighbours that join merged into one extent. */
  function Runs(b: seq<FileExtent>): (r: seq<FileExtent>)
    ensures b == [] <==> r == []
  {
    if |b| <= 1 then b
    else
      var k := |b| - 1;
      var front := Runs(b[..k]);
      var n := |front| - 1;
      if Joins(b[k - 1], b[k]) then front[..n] + [front[n].(length := front[n].length + b[k].length)]
      else front + [b[k]]
  }

  /** A run that neither side joins is the next element of `Runs`. */
  lemma {:induction false} RunIsNext(e: FileExtent, b: seq<FileExtent>, from: nat, last: nat, at: nat, filesize: nat)
    requires BatchOk(b, at, filesize) && IsRun(e, b, from, last)
    requires from > 0 ==> !Joins(b[from - 1], b[from])
    ensures Runs(b[..last + 1]) == Runs(b[..from]) + [e]
    decreases last
  {
    hide BatchOk, Runs;
    RunsStep(b, last);
    if from < last {
      RunShrink(e, b, from, last, at, filesize);
      assert Joins(b[last - 1], b[last]) && e.logical + e.length == b[last].logical + b[last].length;
      hide IsRun, Joins;
      RunIsNext(e.(length := b[last].logical - e.logical), b, from, last - 1, at, filesize);
    }
  }

  lemma {:induction false} RunsStep(b: seq<FileExtent>, k: nat)
    requires k < |b|
    ensures k == 0 || !Joins(b[k - 1], b[k]) ==> Runs(b[..k + 1]) == Runs(b[..k]) + [b[k]]
    ensures k > 0 && Joins(b[k - 1], b[k]) ==>
              var n := |Runs(b[..k])| - 1;
              var e := Runs(b[..k])[n];
              Runs(b[..k + 1]) == Runs(b[..k])[..n] + [e.(length := e.length + b[k].length)]
  {
    hide Joins;
    assert b[..k + 1][..k] == b[..k];
  }

  /** Merging keeps the end of a batch where it is. */
  lemma {:induction false} RunsEnd(b: seq<FileExtent>)
    requires b != []
    ensures var r, e := Runs(b)[|Runs(b)| - 1], b[|b| - 1];
            && r.flags == e.flags && r.device == e.device && r.logical <= e.logical
            && r.logical + r.length == e.logical + e.length && r.physical + r.length == e.physical + e.length
  {
    if |b| > 1 {
      RunsEnd(b[..|b| - 1]);
    }
  }

  /** No two neighbours are left that continue each other in the file and on the device, with the same flags. */
  lemma {:induction false} RunsAreMaximal(b: seq<FileExtent>)
    ensures forall i, j :: 0 <= i && j == i + 1 < |Runs(b)| ==>
              var e, f := Runs(b)[i], Runs(b)[j];
              || f.flags != e.flags || f.device != e.device
              || f.physical != e.physical + e.length || f.logical != e.logical + e.length
  {
    if |b| > 1 {
      var front := b[..|b| - 1];
      RunsAreMaximal(front);
      RunsEnd(front);
    }
  }

  /** The extent has the byte at file position `pos` at `physical`. */
  predicate Maps(e: FileExtent, pos: nat, physical: nat, flags: nat, device: nat) {
    && e.logical <= pos < e.logical + e.length && physical == e.physical + (pos - e.logical)
    && e.flags == flags && e.device == device
  }

  ghost predicate Mapped(es: seq<FileExtent>, pos: nat, physical: nat, flags: nat, device: nat) {
    exists e :: e in es && Maps(e, pos, physical, flags, device)
  }

  /** The merged extents have exactly the bytes of the batch, where the batch has them. */
  lemma {:induction false} RunsKeepBytes(b: seq<FileExtent>, pos: nat, physical: nat, flags: nat, device: nat)
    ensures Mapped(Runs(b), pos, physical, flags, device) <==> Mapped(b, pos, physical, flags, device)
  {
    hide Maps, Mapped, Runs, Joins;
    RunsCases(b);
    if |b| > 1 {
      var k := |b| - 1;
      var front, n := Runs(b[..k]), |Runs(b[..k])| - 1;
      RunsKeepBytes(b[..k], pos, physical, flags, device);
      MappedStep(b[..k], b[k], pos, physical, flags, device);
      assert b == b[..k] + [b[k]];
      if Joins(b[k - 1], b[k]) {
        RunsEnd(b[..k]);
        JoinsLast(front[n], b[k - 1], b[k]);
        MapsOf(front[n], b[k], pos, physical, flags, device);
        MappedStep(front[..n], front[n], pos, physical, flags, device);
        MappedStep(front[..n], front[n].(length := front[n].length + b[k].length), pos, physical, flags, device);
        assert front == front[..n] + [front[n]];
      } else {
        MappedStep(front, b[k], pos, physical, flags, device);
      }
    }
  }

  lemma {:induction false} RunsCases(b: seq<FileExtent>)
    ensures |b| <= 1 ==> Runs(b) == b
    ensures |b| > 1 ==>
              var k := |b| - 1;
              var front, n := Runs(b[..k]), |Runs(b[..k])| - 1;
              && n >= 0
              && Runs(b) == if Joins(b[k - 1], b[k]) then
                              front[..n] + [front[n].(length := front[n].length + b[k].length)]
                            else front + [b[k]]
  {
    hide Joins;
  }

  lemma JoinsLast(r: FileExtent, e: FileExtent, f: FileExtent)
    requires Joins(e, f) && r.flags == e.flags && r.device == e.device
    requires r.logical + r.length == e.logical + e.length && r.physical + r.length == e.physical + e.length
    ensures f.flags == r.flags && f.device == r.device
    ensures f.physical == r.physical + r.length && f.logical == r.logical + r.length
  {
  }

  lemma {:induction false} MappedStep(es: seq<FileExtent>, e: FileExtent, pos: nat, physical: nat, flags: nat,
                                      device: nat)
    ensures Mapped(es + [e], pos, physical, flags, device)
            <==> Mapped(es, pos, physical, flags, device) || Maps(e, pos, physical, flags, device)
  {
    hide Maps;
    assert forall f :: f in es + [e] <==> f in es || f == e;
  }

  lemma MapsOf(e: FileExtent, f: FileExtent, pos: nat, physical: nat, flags: nat, device: nat)
    requires f.flags == e.flags && f.device == e.device
    requires f.physical == e.physical + e.length && f.logical == e.logical + e.length
    ensures Maps(e.(length := e.length + f.length), pos, physical, flags, device)
            <==> Maps(e, pos, physical, flags, device) || Maps(f, pos, physical, flags, device)
  {
  }

  /** The position a batch has reached after its first `i` extents. */
  function Frontier(batch: seq<FileExtent>, i: nat, from: nat, filesize: nat): nat
    requires i <= |batch|
  {
    if i == 0 then from else Min(batch[i - 1].logical + batch[i - 1].length, filesize)
  }

  /** The extents a file reports from position `at` on, batch by batch, merged inside of each batch. */
  ghost function Listing(next: NextExtents, n: nat, at: nat, filesize: nat): seq<FileExtent>
    requires NextOk(next, filesize) && at <= filesize
    decreases filesize - at
  {
    if at == filesize || next(n, at).NextError? || next(n, at).extents == [] then []
    else
      var b := next(n, at).extents;
      Runs(b) + Listing(next, n + 1, Frontier(b, |b|, at, filesize), filesize)
  }

  lemma JoinTrue(a: FileExtent, c: FileExtent, content: seq<byte>, ref: bool, disk: Disk)
    requires Joins(a, c) && ExtentTrue(a, content, ref, disk) && ExtentTrue(c, content, ref, disk)
    ensures ExtentTrue(a.(length := a.length + c.length), content, ref, disk)
  {
    var from, mid, to := a.logical, a.logical + a.length, a.logical + a.length + c.length;
    assert to <= |content|;
    assert content[from..to] == content[from..mid] + content[mid..to];
    assert Zeros(a.length + c.length) == Zeros(a.length) + Zeros(c.length);
  }

  /** A merged extent, cut at the end of the file, tells the truth if its parts do. */
  lemma {:induction false} RunTrue(e: FileExtent, b: seq<FileExtent>, from: nat, last: nat, at: nat, content: seq<byte>,
                                   ref: bool, disk: Disk)
    requires BatchOk(b, at, |content|) && IsRun(e, b, from, last)
    requires forall k :: from <= k <= last ==> ExtentTrue(Clamp(b[k], |content|), content, ref, disk)
    ensures e.logical <= |content| && ExtentTrue(Clamp(e, |content|), content, ref, disk)
    decreases last
  {
    hide ExtentTrue;
    assert PartOf(b[last], e);
    if from < last {
      var front := e.(length := b[last].logical - e.logical);
      RunShrink(e, b, from, last, at, |content|);
      hide IsRun;
      RunTrue(front, b, from, last - 1, at, content, ref, disk);
      JoinTrue(front, Clamp(b[last], |content|), content, ref, disk);
    }
  }

  lemma RunShrink(e: FileExtent, b: seq<FileExtent>, from: nat, last: nat, at: nat, filesize: nat)
    requires BatchOk(b, at, filesize) && IsRun(e, b, from, last) && from < last
    ensures e.logical < b[last].logical && b[from].logical == e.logical
    ensures IsRun(e.(length := b[last].logical - e.logical), b, from, last - 1)
    ensures Joins(e.(length := b[last].logical - e.logical), b[last])
  {
    var front := e.(length := b[last].logical - e.logical);
    assert Joins(b[last - 1], b[last]);
    assert PartOf(b[last], e);
    forall k | from <= k <= last - 1 ensures PartOf(b[k], front) {
      assert PartOf(b[k], e);
    }
  }
}
