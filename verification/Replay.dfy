/** What the packets of one extent do to the receiver, and why copies can be trusted. */
module Replay {
  import opened Protocol
  import opened ExtentMap

  /** The byte stored at a physical position of a physical device. */
  type Disk = (nat, nat) -> byte

  // ----- the receiver's files

  ghost predicate FileHolds(f: ReaderFile, content: seq<byte>, n: nat) {
    n <= |content| == f.size == |f.data| && f.data[..n] == content[..n]
  }

  /** The receiver holds the first `done[f]` bytes of every file `f`. */
  ghost predicate Holds(s: ReaderState, contents: map<nat, seq<byte>>, done: map<nat, nat>) {
    && contents.Keys == done.Keys
    && forall f :: f in done ==> f in s.files && FileHolds(s.files[f], contents[f], done[f])
  }

  ghost predicate Mirrors(env: Environment, log: seq<Packet>, contents: map<nat, seq<byte>>, done: map<nat, nat>) {
    && Run(env, log).Ok?
    && Run(env, log).state.newfile.None?
    && Holds(Run(env, log).state, contents, done)
  }

  /** A recorded extent quotes finished bytes of its file, and they are the bytes on the disk. */
  ghost predicate ClaimTrue(e: MapExtent, x: nat, disk: Disk, contents: map<nat, seq<byte>>, done: map<nat, nat>) {
    && e.file in contents && e.file in done
    && e.logical + e.length <= done[e.file] <= |contents[e.file]|
    && forall b {:trigger disk(x, b)} :: e.physical <= b < e.physical + e.length ==>
         contents[e.file][e.logical + (b - e.physical)] == disk(x, b)
  }

  ghost predicate ClaimsTrue(entries: set<MapExtent>, x: nat, disk: Disk, contents: map<nat, seq<byte>>,
                             done: map<nat, nat>)
  {
    forall e :: e in entries ==> ClaimTrue(e, x, disk, contents, done)
  }

  // ----- packets of the two callbacks

  function NewPacket(fid: nat, flags: nat, content: seq<byte>, pos: nat, len: nat): Packet
    requires pos + len <= |content|
  {
    var t := Extype(flags);
    Extent(fid, t, pos, len, if t == FL_DATA then Payload(content[pos..pos + len]) else NoBody)
  }

  function CopyPacket(fid: nat, pos: nat, len: nat, src: nat, srcPos: nat): Packet {
    Extent(fid, FL_COPY, pos, len, Source(src, srcPos))
  }

  ghost predicate TypeFits(flags: nat, content: seq<byte>, pos: nat, len: nat)
    requires pos + len <= |content|
  {
    var t := Extype(flags);
    t == FL_DATA || ((t == FL_ZERO || t == FL_HOLE) && content[pos..pos + len] == Zeros(len))
  }

  lemma OverwritePrefix(data: seq<byte>, content: seq<byte>, n: nat, bytes: seq<byte>)
    requires n + |bytes| <= |data| == |content|
    requires data[..n] == content[..n] && bytes == content[n..n + |bytes|]
    ensures Overwrite(data, n, bytes)[..n + |bytes|] == content[..n + |bytes|]
  {
    assert Overwrite(data, n, bytes)[..n + |bytes|] == data[..n] + bytes;
    assert content[..n + |bytes|] == content[..n] + content[n..n + |bytes|];
  }

  /** Accepting the right bytes at the frontier of a file moves the frontier. */
  lemma WriteExtends(s: ReaderState, contents: map<nat, seq<byte>>, done: map<nat, nat>, fid: nat, bytes: seq<byte>)
    requires Holds(s, contents, done) && fid in done
    requires done[fid] + |bytes| <= |contents[fid]|
    requires bytes == contents[fid][done[fid]..done[fid] + |bytes|]
    ensures var f := s.files[fid];
            Holds(s.(files := s.files[fid := f.(data := Overwrite(f.data, done[fid], bytes))]),
                  contents, done[fid := done[fid] + |bytes|])
  {
    OverwritePrefix(s.files[fid].data, contents[fid], done[fid], bytes);
  }

  lemma EmitNew(env: Environment, log: seq<Packet>, contents: map<nat, seq<byte>>, done: map<nat, nat>, fid: nat,
                flags: nat, len: nat)
    requires Mirrors(env, log, contents, done) && fid in done
    requires done[fid] + len <= |contents[fid]| && TypeFits(flags, contents[fid], done[fid], len)
    ensures Mirrors(env, log + [NewPacket(fid, flags, contents[fid], done[fid], len)], contents,
                    done[fid := done[fid] + len])
  {
    RunStep(env, log, NewPacket(fid, flags, contents[fid], done[fid], len));
    WriteExtends(Run(env, log).state, contents, done, fid, contents[fid][done[fid]..done[fid] + len]);
  }

  lemma EmitCopy(env: Environment, log: seq<Packet>, contents: map<nat, seq<byte>>, done: map<nat, nat>, fid: nat,
                 len: nat, src: nat, srcPos: nat)
    requires Mirrors(env, log, contents, done) && fid in done && src in done
    requires done[fid] + len <= |contents[fid]| && srcPos + len <= done[src]
    requires done[src] <= |contents[src]|
    requires contents[src][srcPos..srcPos + len] == contents[fid][done[fid]..done[fid] + len]
    ensures Mirrors(env, log + [CopyPacket(fid, done[fid], len, src, srcPos)], contents, done[fid := done[fid] + len])
  {
    hide Overwrite;
    RunStep(env, log, CopyPacket(fid, done[fid], len, src, srcPos));
    var s := Run(env, log).state;
    SamePart(s.files[src].data, contents[src], done[src], srcPos, len);
    WriteExtends(s, contents, done, fid, contents[fid][done[fid]..done[fid] + len]);
  }

  lemma SamePart(a: seq<byte>, b: seq<byte>, n: nat, from: nat, len: nat)
    requires from + len <= n <= |a| && n <= |b| && a[..n] == b[..n]
    ensures a[from..from + len] == b[from..from + len]
  {
    assert a[from..from + len] == a[..n][from..from + len];
    assert b[from..from + len] == b[..n][from..from + len];
  }

  // ----- the packets of one call of EMap.Add

  function PacketOf(ev: Event, fid: nat, flags: nat, content: seq<byte>): Packet
    requires ev.report.pos + ev.report.len <= |content|
  {
    match ev.report
    case New(pos, len, _) => NewPacket(fid, flags, content, pos, len)
    case Avail(pos, len, file, logical) => CopyPacket(fid, pos, len, file, logical)
  }

  predicate InFile(events: seq<Event>, content: seq<byte>) {
    forall i :: 0 <= i < |events| ==> events[i].report.pos + events[i].report.len <= |content|
  }

  function Packets(events: seq<Event>, fid: nat, flags: nat, content: seq<byte>): (r: seq<Packet>)
    requires InFile(events, content)
    ensures |r| == |events|
  {
    if events == [] then []
    else
      var k := |events| - 1;
      Packets(events[..k], fid, flags, content) + [PacketOf(events[k], fid, flags, content)]
  }

  /** The file's bytes in the range of `input` are the bytes of the disk. */
  ghost predicate OnDisk(input: MapExtent, n: nat, content: seq<byte>, x: nat, disk: Disk) {
    && input.logical + n <= |content|
    && forall b {:trigger disk(x, b)} :: input.physical <= b < input.physical + n ==>
         content[input.logical + (b - input.physical)] == disk(x, b)
  }

  lemma TilesPrefix(events: seq<Event>, input: MapExtent, n: nat)
    requires Tiles(events, input, n)
    ensures events == [] ==> n == 0
    ensures events != [] ==>
            var last := events[|events| - 1];
            && PieceOf(last, input)
            && last.report.len <= n
            && last.physical == input.physical + (n - last.report.len)
            && last.report.pos == input.logical + (n - last.report.len)
            && Tiles(events[..|events| - 1], input, n - last.report.len)
  {
    var k := |events| - 1;
    if k > 0 {
      assert PieceOf(events[k], input);
      assert events[..k][k - 1] == events[k - 1];
      assert events[k].physical == events[k - 1].physical + events[k - 1].report.len;
    }
  }

  lemma TilesInFile(events: seq<Event>, input: MapExtent, n: nat, content: seq<byte>)
    requires Tiles(events, input, n) && input.logical + n <= |content|
    ensures InFile(events, content)
    decreases |events|
  {
    hide Tiles, PieceOf;
    TilesPrefix(events, input, n);
    if events != [] {
      var k := |events| - 1;
      TilesInFile(events[..k], input, n - events[k].report.len, content);
      assert forall i :: 0 <= i < k ==> events[..k][i] == events[i];
    }
  }

  lemma ClaimsMonotone(entries: set<MapExtent>, x: nat, disk: Disk, contents: map<nat, seq<byte>>, done: map<nat, nat>,
                       done': map<nat, nat>)
    requires ClaimsTrue(entries, x, disk, contents, done)
    requires forall f :: f in done ==> f in done' && done[f] <= done'[f]
    requires forall f :: f in done' && f in contents ==> done'[f] <= |contents[f]|
    ensures ClaimsTrue(entries, x, disk, contents, done')
  {
  }

  /** The quoted source holds the wanted bytes, because both are the same bytes of the disk. */
  lemma QuoteIsRight(ev: Event, e: MapExtent, content: seq<byte>, x: nat, disk: Disk, contents: map<nat, seq<byte>>,
                     done: map<nat, nat>)
    requires ev.report.Avail? && TakenFrom(ev, e) && ClaimTrue(e, x, disk, contents, done)
    requires ev.report.pos + ev.report.len <= |content|
    requires forall b {:trigger disk(x, b)} :: ev.physical <= b < ev.physical + ev.report.len ==>
               content[ev.report.pos + (b - ev.physical)] == disk(x, b)
    ensures ev.report.logical + ev.report.len <= done[e.file] <= |contents[e.file]|
    ensures contents[e.file][ev.report.logical..ev.report.logical + ev.report.len]
         == content[ev.report.pos..ev.report.pos + ev.report.len]
  {
    var r := ev.report;
    var quoted, wanted := contents[e.file][r.logical..r.logical + r.len], content[r.pos..r.pos + r.len];
    forall i | 0 <= i < r.len
      ensures quoted[i] == wanted[i]
    {
      var b := ev.physical + i;
      assert disk(x, b) == contents[e.file][e.logical + (b - e.physical)];
      assert disk(x, b) == content[r.pos + (b - ev.physical)];
    }
  }

  /** What the first bytes of an extent need is needed of fewer bytes as well. */
  lemma Shrink(input: MapExtent, n: nat, m: nat, flags: nat, content: seq<byte>, x: nat, disk: Disk)
    requires m <= n && OnDisk(input, n, content, x, disk) && TypeFits(flags, content, input.logical, n)
    ensures OnDisk(input, m, content, x, disk) && TypeFits(flags, content, input.logical, m)
    ensures TypeFits(flags, content, input.logical + m, n - m)
  {
    var all := content[input.logical..input.logical + n];
    assert content[input.logical..input.logical + m] == all[..m];
    assert content[input.logical + m..input.logical + n] == all[m..];
    assert Zeros(m) == Zeros(n)[..m] && Zeros(n - m) == Zeros(n)[m..];
  }

  lemma {:induction false} PacketsStep(log: seq<Packet>, events: seq<Event>, fid: nat, flags: nat, content: seq<byte>)
    requires events != [] && InFile(events, content)
    ensures InFile(events[..|events| - 1], content)
    ensures events[|events| - 1].report.pos + events[|events| - 1].report.len <= |content|
    ensures log + Packets(events, fid, flags, content)
         == log + Packets(events[..|events| - 1], fid, flags, content)
             + [PacketOf(events[|events| - 1], fid, flags, content)]
  {
  }

  /** Advances the frontier of file `fid`. */
  function Advance(done: map<nat, nat>, fid: nat, n: nat): map<nat, nat> {
    done[fid := n]
  }

  /**
   * Replaying the packets of one completed call writes exactly the file's bytes, and every
   * extent known afterwards, old or new, again quotes finished bytes.
   */
  lemma {:induction false} EmitEvents(env: Environment, log: seq<Packet>, contents: map<nat, seq<byte>>,
                                      done: map<nat, nat>, x: nat, disk: Disk, flags: nat, before: seq<Event>,
                                      events: seq<Event>, input: MapExtent, n: nat)
    requires Mirrors(env, log, contents, done)
    requires input.file in done && input.file in contents && done[input.file] == input.logical
    requires Tiles(events, input, n) && TraceOk(before + events)
    requires OnDisk(input, n, contents[input.file], x, disk)
    requires TypeFits(flags, contents[input.file], input.logical, n)
    requires ClaimsTrue(NewEntries(before), x, disk, contents, done)
    requires InFile(events, contents[input.file])
    ensures Mirrors(env, log + Packets(events, input.file, flags, contents[input.file]),
                    contents, Advance(done, input.file, input.logical + n))
    ensures ClaimsTrue(NewEntries(before + events), x, disk, contents, Advance(done, input.file, input.logical + n))
    decreases |events|
  {
    hide Mirrors, ClaimsTrue, EventOk, PacketOf, TypeFits, OnDisk, NewEntries, InFile, Packets, PieceOf, Tiles,
         TraceOk;
    var fid, content := input.file, contents[input.file];
    TilesPrefix(events, input, n);
    if events == [] {
      assert before + events == before;
      assert Packets(events, fid, flags, content) == [];
      assert log + Packets(events, fid, flags, content) == log;
      assert Advance(done, fid, input.logical) == done;
    } else {
      var k := |events| - 1;
      var ev := events[k];
      var m := n - ev.report.len;
      TraceOkPrefix(before + events, |before| + k);
      assert (before + events)[..|before| + k] == before + events[..k];
      assert (before + events)[|before| + k] == ev;
      Shrink(input, n, m, flags, content, x, disk);
      PacketsStep(log, events, fid, flags, content);
      var done' := Advance(done, fid, input.logical + m);
      EmitEvents(env, log, contents, done, x, disk, flags, before, events[..k], input, m);
      EmitLast(env, log + Packets(events[..k], fid, flags, content), contents, done',
               x, disk, flags, before + events[..k], ev, input, n);
      assert before + events == before + events[..k] + [ev];
      assert Advance(done', fid, input.logical + n) == Advance(done, fid, input.logical + n);
    }
  }

  /** One more report of a call was accepted. */
  ghost predicate Emitted(env: Environment, log: seq<Packet>, contents: map<nat, seq<byte>>, done: map<nat, nat>,
                          x: nat, disk: Disk, flags: nat, trace: seq<Event>, ev: Event, fid: nat, end: nat)
    requires fid in contents && fid in done && ev.report.pos + ev.report.len <= |contents[fid]|
  {
    && Mirrors(env, log + [PacketOf(ev, fid, flags, contents[fid])], contents, Advance(done, fid, end))
    && ClaimsTrue(NewEntries(trace + [ev]), x, disk, contents, Advance(done, fid, end))
  }

  lemma {:induction false} EmitLastNew(env: Environment, log: seq<Packet>, contents: map<nat, seq<byte>>,
                                       done: map<nat, nat>, x: nat, disk: Disk, flags: nat, trace: seq<Event>,
                                       ev: Event, input: MapExtent, n: nat)
    requires ev.report.New? && ev.report.len <= n && input.file in done
             && done[input.file] == input.logical + (n - ev.report.len)
    requires input.file in contents && Mirrors(env, log, contents, done)
    requires PieceOf(ev, input) && ev.physical == input.physical + (n - ev.report.len)
    requires OnDisk(input, n, contents[input.file], x, disk)
    requires TypeFits(flags, contents[input.file], input.logical + (n - ev.report.len), ev.report.len)
    requires ClaimsTrue(NewEntries(trace), x, disk, contents, done)
    ensures Emitted(env, log, contents, done, x, disk, flags, trace, ev, input.file, input.logical + n)
  {
    hide Mirrors, NewPacket, ClaimsTrue, NewEntries, TypeFits;
    var fid, done' := input.file, Advance(done, input.file, input.logical + n);
    MirrorsBounds(env, log, contents, done);
    ClaimsMonotone(NewEntries(trace), x, disk, contents, done, done');
    NewEntriesStep(trace, ev);
    EmitNew(env, log, contents, done, fid, flags, ev.report.len);
    ClaimsAdd(NewEntries(trace), EntryOf(ev), x, disk, contents, done');
  }

  lemma {:induction false} EmitLastAvail(env: Environment, log: seq<Packet>, contents: map<nat, seq<byte>>,
                                         done: map<nat, nat>, x: nat, disk: Disk, flags: nat, trace: seq<Event>,
                                         ev: Event, e: MapExtent, input: MapExtent, n: nat)
    requires ev.report.Avail? && ev.report.len <= n && input.file in done
             && done[input.file] == input.logical + (n - ev.report.len)
    requires input.file in contents && Mirrors(env, log, contents, done)
    requires PieceOf(ev, input) && ev.physical == input.physical + (n - ev.report.len)
    requires e in NewEntries(trace) && TakenFrom(ev, e)
    requires OnDisk(input, n, contents[input.file], x, disk)
    requires ClaimsTrue(NewEntries(trace), x, disk, contents, done)
    ensures Emitted(env, log, contents, done, x, disk, flags, trace, ev, input.file, input.logical + n)
  {
    hide Mirrors, NewPacket, ClaimsTrue, NewEntries;
    var fid, done' := input.file, Advance(done, input.file, input.logical + n);
    MirrorsBounds(env, log, contents, done);
    ClaimsMonotone(NewEntries(trace), x, disk, contents, done, done');
    NewEntriesStep(trace, ev);
    assert NewEntries(trace + [ev]) == NewEntries(trace);
    ClaimsElement(NewEntries(trace), e, x, disk, contents, done);
    QuoteIsRight(ev, e, contents[fid], x, disk, contents, done);
    EmitCopy(env, log, contents, done, fid, ev.report.len, ev.report.file, ev.report.logical);
  }

  lemma {:induction false} EmitLast(env: Environment, log: seq<Packet>, contents: map<nat, seq<byte>>,
                                    done: map<nat, nat>, x: nat, disk: Disk, flags: nat, trace: seq<Event>, ev: Event,
                                    input: MapExtent, n: nat)
    requires ev.report.len <= n && input.file in done && done[input.file] == input.logical + (n - ev.report.len)
    requires input.file in contents && Mirrors(env, log, contents, done)
    requires PieceOf(ev, input) && ev.physical == input.physical + (n - ev.report.len)
    requires EventOk(NewEntries(trace), ev)
    requires OnDisk(input, n, contents[input.file], x, disk)
    requires TypeFits(flags, contents[input.file], input.logical + (n - ev.report.len), ev.report.len)
    requires ClaimsTrue(NewEntries(trace), x, disk, contents, done)
    ensures ev.report.pos + ev.report.len <= |contents[input.file]|
    ensures Emitted(env, log, contents, done, x, disk, flags, trace, ev, input.file, input.logical + n)
  {
    hide Mirrors, ClaimsTrue, NewEntries, TypeFits, TakenFrom, Emitted;
    if ev.report.New? {
      EmitLastNew(env, log, contents, done, x, disk, flags, trace, ev, input, n);
    } else {
      var e :| e in NewEntries(trace) && TakenFrom(ev, e);
      EmitLastAvail(env, log, contents, done, x, disk, flags, trace, ev, e, input, n);
    }
  }

  lemma MirrorsBounds(env: Environment, log: seq<Packet>, contents: map<nat, seq<byte>>, done: map<nat, nat>)
    requires Mirrors(env, log, contents, done)
    ensures contents.Keys == done.Keys && forall f :: f in done ==> done[f] <= |contents[f]|
  {
  }

  lemma {:induction false} NewEntriesStep(trace: seq<Event>, ev: Event)
    ensures NewEntries(trace + [ev]) == NewEntries(trace) + (if ev.report.New? then {EntryOf(ev)} else {})
  {
    assert (trace + [ev])[..|trace|] == trace;
  }

  lemma ClaimsElement(entries: set<MapExtent>, e: MapExtent, x: nat, disk: Disk, contents: map<nat, seq<byte>>,
                      done: map<nat, nat>)
    requires ClaimsTrue(entries, x, disk, contents, done) && e in entries
    ensures ClaimTrue(e, x, disk, contents, done)
  {
  }

  lemma ClaimsAdd(entries: set<MapExtent>, e: MapExtent, x: nat, disk: Disk, contents: map<nat, seq<byte>>,
                  done: map<nat, nat>)
    requires ClaimsTrue(entries, x, disk, contents, done) && ClaimTrue(e, x, disk, contents, done)
    ensures ClaimsTrue(entries + {e}, x, disk, contents, done)
  {
  }

  /** A reference file is complete from the start: no packets, and its new extents quote it. */
  lemma {:induction false} ReferenceEvents(contents: map<nat, seq<byte>>, done: map<nat, nat>, x: nat, disk: Disk,
                                           before: seq<Event>, events: seq<Event>, input: MapExtent, n: nat)
    requires input.file in done && input.file in contents && done[input.file] == |contents[input.file]|
    requires Tiles(events, input, n) && TraceOk(before + events)
    requires OnDisk(input, n, contents[input.file], x, disk)
    requires ClaimsTrue(NewEntries(before), x, disk, contents, done)
    ensures ClaimsTrue(NewEntries(before + events), x, disk, contents, done)
    decreases |events|
  {
    hide ClaimsTrue, NewEntries, EventOk, OnDisk, PieceOf, Tiles, TraceOk;
    TilesPrefix(events, input, n);
    if events == [] {
      assert before + events == before;
    } else {
      var k := |events| - 1;
      var ev := events[k];
      var m := n - ev.report.len;
      TraceOkPrefix(before + events, |before| + k);
      assert (before + events)[..|before| + k] == before + events[..k];
      assert (before + events)[|before| + k] == ev;
      ShrinkDisk(input, n, m, contents[input.file], x, disk);
      ReferenceEvents(contents, done, x, disk, before, events[..k], input, m);
      assert before + events == before + events[..k] + [ev];
      ReferenceLast(contents, done, x, disk, before + events[..k], ev, input, n);
    }
  }

  lemma ShrinkDisk(input: MapExtent, n: nat, m: nat, content: seq<byte>, x: nat, disk: Disk)
    requires m <= n && OnDisk(input, n, content, x, disk)
    ensures OnDisk(input, m, content, x, disk)
  {
  }

  lemma {:induction false} ReferenceLast(contents: map<nat, seq<byte>>, done: map<nat, nat>, x: nat, disk: Disk,
                                         trace: seq<Event>, ev: Event, input: MapExtent, n: nat)
    requires input.file in done && input.file in contents && done[input.file] == |contents[input.file]|
    requires PieceOf(ev, input) && ev.physical + ev.report.len <= input.physical + n
    requires EventOk(NewEntries(trace), ev) && OnDisk(input, n, contents[input.file], x, disk)
    requires ClaimsTrue(NewEntries(trace), x, disk, contents, done)
    ensures ClaimsTrue(NewEntries(trace + [ev]), x, disk, contents, done)
  {
    hide ClaimsTrue, NewEntries;
    NewEntriesStep(trace, ev);
    if ev.report.New? {
      ClaimsAdd(NewEntries(trace), EntryOf(ev), x, disk, contents, done);
    } else {
      assert NewEntries(trace + [ev]) == NewEntries(trace);
    }
  }

  // ----- what a COPY packet may quote

  ghost predicate Announces(p: Packet, fid: nat, size: nat) {
    p.File? && p.id == fid && p.size == size && FileType(p.mode) != M_FHARD
  }

  ghost predicate Announced(log: seq<Packet>, fid: nat, size: nat) {
    exists i :: 0 <= i < |log| && Announces(log[i], fid, size)
  }

  ghost predicate Writes(p: Packet, e: MapExtent) {
    p.Extent? && p.file == e.file && p.offset == e.logical && p.length == e.length && !p.body.Source?
  }

  /**
   * The file of `e` was announced and is large enough, and `e` was sent as one extent with its
   * own bytes, or belongs to a reference file.
   */
  ghost predicate Backed(log: seq<Packet>, e: MapExtent) {
    exists i :: 0 <= i < |log| && BackedFrom(log, i, e)
  }

  ghost predicate BackedFrom(log: seq<Packet>, i: nat, e: MapExtent)
    requires i < |log|
  {
    && log[i].File? && Announces(log[i], e.file, log[i].size) && e.logical + e.length <= log[i].size
    && (log[i].mode == M_FREF || exists j :: i < j < |log| && Writes(log[j], e))
  }

  ghost predicate AllBacked(log: seq<Packet>, entries: set<MapExtent>) {
    forall e :: e in entries ==> Backed(log, e)
  }

  ghost predicate QuotesFrom(p: Packet, e: MapExtent) {
    && p.Extent? && p.body.Source? && p.body.file == e.file
    && e.logical <= p.body.offset && p.body.offset + p.length <= e.logical + e.length
  }

  /** Every COPY packet quotes a range inside one extent that was backed before the packet. */
  ghost predicate CopiesOk(log: seq<Packet>) {
    log == [] ||
    var n := |log| - 1;
    && CopiesOk(log[..n])
    && (log[n].Extent? && log[n].body.Source? ==> exists e :: Backed(log[..n], e) && QuotesFrom(log[n], e))
  }

  lemma BackedMonotone(log: seq<Packet>, more: seq<Packet>, e: MapExtent)
    requires Backed(log, e)
    ensures Backed(log + more, e)
  {
    var i :| 0 <= i < |log| && BackedFrom(log, i, e);
    if log[i].mode != M_FREF {
      var j :| i < j < |log| && Writes(log[j], e);
      assert (log + more)[j] == log[j];
    }
    assert BackedFrom(log + more, i, e);
  }

  lemma AllBackedMonotone(log: seq<Packet>, more: seq<Packet>, entries: set<MapExtent>)
    requires AllBacked(log, entries)
    ensures AllBacked(log + more, entries)
  {
    forall e | e in entries ensures Backed(log + more, e) {
      BackedMonotone(log, more, e);
    }
  }

  lemma {:induction false} CopiesStep(log: seq<Packet>, p: Packet)
    requires CopiesOk(log)
    requires p.Extent? && p.body.Source? ==> exists e :: Backed(log, e) && QuotesFrom(p, e)
    ensures CopiesOk(log + [p])
  {
    assert (log + [p])[..|log|] == log;
  }

  lemma AnnouncedMonotone(log: seq<Packet>, more: seq<Packet>, fid: nat, size: nat)
    requires Announced(log, fid, size)
    ensures Announced(log + more, fid, size)
  {
    var i :| 0 <= i < |log| && Announces(log[i], fid, size);
    assert (log + more)[i] == log[i];
  }

  /** One call of EMap.Add keeps every recorded extent backed and every copy justified. */
  lemma {:induction false} BackEvents(log: seq<Packet>, flags: nat, content: seq<byte>, before: seq<Event>,
                                      events: seq<Event>, input: MapExtent, n: nat)
    requires CopiesOk(log) && AllBacked(log, NewEntries(before))
    requires Announced(log, input.file, |content|)
    requires Tiles(events, input, n) && TraceOk(before + events) && InFile(events, content)
    ensures CopiesOk(log + Packets(events, input.file, flags, content))
    ensures AllBacked(log + Packets(events, input.file, flags, content), NewEntries(before + events))
    decreases |events|
  {
    hide AllBacked, CopiesOk, NewEntries, EventOk, PacketOf, Packets, InFile, Announced, Tiles, TraceOk;
    TilesPrefix(events, input, n);
    if events == [] {
      assert before + events == before;
      assert Packets(events, input.file, flags, content) == [];
      assert log + Packets(events, input.file, flags, content) == log;
    } else {
      var k := |events| - 1;
      var ev := events[k];
      TraceOkPrefix(before + events, |before| + k);
      assert (before + events)[..|before| + k] == before + events[..k];
      assert (before + events)[|before| + k] == ev;
      PacketsStep(log, events, input.file, flags, content);
      BackEvents(log, flags, content, before, events[..k], input, n - ev.report.len);
      AnnouncedMonotone(log, Packets(events[..k], input.file, flags, content), input.file, |content|);
      BackLast(log + Packets(events[..k], input.file, flags, content), flags, content, before + events[..k], ev);
      assert before + events == before + events[..k] + [ev];
    }
  }

  lemma {:induction false} BackLast(log: seq<Packet>, flags: nat, content: seq<byte>, trace: seq<Event>, ev: Event)
    requires CopiesOk(log) && AllBacked(log, NewEntries(trace))
    requires Announced(log, ev.file, |content|)
    requires EventOk(NewEntries(trace), ev) && ev.report.pos + ev.report.len <= |content|
    ensures CopiesOk(log + [PacketOf(ev, ev.file, flags, content)])
    ensures AllBacked(log + [PacketOf(ev, ev.file, flags, content)], NewEntries(trace + [ev]))
  {
    hide CopiesOk, NewEntries;
    var p := PacketOf(ev, ev.file, flags, content);
    NewEntriesStep(trace, ev);
    AllBackedMonotone(log, [p], NewEntries(trace));
    if ev.report.New? {
      CopiesStep(log, p);
      var i :| 0 <= i < |log| && Announces(log[i], ev.file, |content|);
      assert (log + [p])[i] == log[i] && (log + [p])[|log|] == p;
      assert BackedFrom(log + [p], i, EntryOf(ev));
    } else {
      var e :| e in NewEntries(trace) && TakenFrom(ev, e);
      assert QuotesFrom(p, e);
      CopiesStep(log, p);
    }
  }

  ghost predicate AnnouncedReference(log: seq<Packet>, fid: nat, size: nat) {
    exists i :: 0 <= i < |log| && Announces(log[i], fid, size) && log[i].mode == M_FREF
  }

  /** The extents of a reference file are backed by its announcement alone. */
  lemma {:induction false} BackReferenceEvents(log: seq<Packet>, size: nat, before: seq<Event>, events: seq<Event>,
                                               input: MapExtent, n: nat)
    requires AllBacked(log, NewEntries(before)) && AnnouncedReference(log, input.file, size)
    requires Tiles(events, input, n) && TraceOk(before + events) && input.logical + n <= size
    ensures AllBacked(log, NewEntries(before + events))
    decreases |events|
  {
    hide NewEntries, EventOk, TraceOk, AllBacked, Tiles, AnnouncedReference;
    TilesPrefix(events, input, n);
    if events == [] {
      assert before + events == before;
    } else {
      var k := |events| - 1;
      var ev := events[k];
      TraceOkPrefix(before + events, |before| + k);
      assert (before + events)[..|before| + k] == before + events[..k];
      BackReferenceEvents(log, size, before, events[..k], input, n - ev.report.len);
      assert before + events == before + events[..k] + [ev];
      NewEntriesStep(before + events[..k], ev);
      if ev.report.New? {
        BackedByReference(log, size, EntryOf(ev));
      }
      AllBackedAdd(log, NewEntries(before + events[..k]), ev, NewEntries(before + events));
    }
  }

  lemma AllBackedAdd(log: seq<Packet>, entries: set<MapExtent>, ev: Event, entries': set<MapExtent>)
    requires AllBacked(log, entries) && (ev.report.New? ==> Backed(log, EntryOf(ev)))
    requires entries' == entries + (if ev.report.New? then {EntryOf(ev)} else {})
    ensures AllBacked(log, entries')
  {
  }

  lemma BackedByReference(log: seq<Packet>, size: nat, e: MapExtent)
    requires AnnouncedReference(log, e.file, size) && e.logical + e.length <= size
    ensures Backed(log, e)
  {
    var i :| 0 <= i < |log| && Announces(log[i], e.file, size) && log[i].mode == M_FREF;
    assert BackedFrom(log, i, e);
  }

  // ----- the packets of a file tile it

  /** Every position of a tiled range is in exactly one of the packets. */
  lemma {:induction false} TiledOnce(pkts: seq<Packet>, fid: nat, from: nat, to: nat, pos: nat) returns (i: nat)
    requires TilesFile(pkts, fid, from, to) && from <= pos < to
    ensures i < |pkts| && pkts[i].offset <= pos < pkts[i].offset + pkts[i].length
    ensures forall j :: 0 <= j < |pkts| && pkts[j].offset <= pos < pkts[j].offset + pkts[j].length ==> j == i
  {
    i := 0;
    while pkts[i].offset + pkts[i].length <= pos
      invariant i < |pkts| && pkts[i].offset <= pos
      decreases |pkts| - i
    {
      assert i + 1 < |pkts| ==> pkts[i + 1].offset == pkts[i].offset + pkts[i].length;
      i := i + 1;
    }
    forall j | 0 <= j < |pkts| && j != i
      ensures pos < pkts[j].offset || pkts[j].offset + pkts[j].length <= pos
    {
      if j < i {
        TilesAscend(pkts, fid, from, to, j, i);
      } else {
        TilesAscend(pkts, fid, from, to, i, j);
      }
    }
  }

  lemma {:induction false} TilesAscend(pkts: seq<Packet>, fid: nat, from: nat, to: nat, i: nat, j: nat)
    requires TilesFile(pkts, fid, from, to) && i < j < |pkts|
    ensures pkts[i].offset + pkts[i].length <= pkts[j].offset
    decreases j
  {
    assert pkts[j].offset == pkts[j - 1].offset + pkts[j - 1].length;
    if i < j - 1 {
      TilesAscend(pkts, fid, from, to, i, j - 1);
    }
  }

  /** The packets are extents of file `fid` that tile `[from, to)` in ascending order. */
  ghost predicate TilesFile(pkts: seq<Packet>, fid: nat, from: nat, to: nat) {
    && (forall i :: 0 <= i < |pkts| ==> pkts[i].Extent? && pkts[i].file == fid && 0 < pkts[i].length)
    && (forall i, j :: 0 <= i && j == i + 1 < |pkts| ==> pkts[j].offset == pkts[i].offset + pkts[i].length)
    && if pkts == [] then from == to else
         pkts[0].offset == from && pkts[|pkts| - 1].offset + pkts[|pkts| - 1].length == to
  }

  lemma TilesFileJoin(a: seq<Packet>, b: seq<Packet>, fid: nat, from: nat, mid: nat, to: nat)
    requires TilesFile(a, fid, from, mid) && TilesFile(b, fid, mid, to)
    ensures TilesFile(a + b, fid, from, to)
  {
    assert a + [] == a;
  }

  lemma {:induction false} PacketAt(events: seq<Event>, fid: nat, flags: nat, content: seq<byte>, i: nat)
    requires InFile(events, content) && i < |events|
    ensures Packets(events, fid, flags, content)[i] == PacketOf(events[i], fid, flags, content)
  {
    if i < |events| - 1 {
      PacketAt(events[..|events| - 1], fid, flags, content, i);
    }
  }

  /** The packets of one call tile the file range of the call. */
  lemma {:induction false} PacketsTile(events: seq<Event>, input: MapExtent, n: nat, flags: nat, content: seq<byte>)
    requires Tiles(events, input, n) && InFile(events, content)
    ensures TilesFile(Packets(events, input.file, flags, content), input.file, input.logical, input.logical + n)
  {
    hide Packets;
    var pkts := Packets(events, input.file, flags, content);
    forall i | 0 <= i < |pkts|
      ensures pkts[i].Extent? && pkts[i].file == input.file
      ensures pkts[i].offset == input.logical + (events[i].physical - input.physical)
              && pkts[i].length == events[i].report.len
    {
      PacketAt(events, input.file, flags, content, i);
      assert PieceOf(events[i], input);
    }
    forall i, j | 0 <= i && j == i + 1 < |pkts|
      ensures pkts[j].offset == pkts[i].offset + pkts[i].length
    {
      assert events[j].physical == events[i].physical + events[i].report.len;
    }
  }
}
