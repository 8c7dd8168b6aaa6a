/** What the receiver's files hold after the reader followed a stream, byte for byte. */
module Delivery {
  import opened Common
  import opened Formats
  import opened Protocol
  import opened Reader
  import opened Snapshots
  import opened Wire

  // ----- the receiver

  /** The contents of the files behind the receiver's handles. */
  type Store = map<nat, seq<byte>>

  function Changed(store: Store, handle: nat, offset: nat, bytes: seq<byte>): Store {
    if handle in store && offset + |bytes| <= |store[handle]| then
        store[handle := Overwrite(store[handle], offset, bytes)]
    else store
  }

  /** What one call of a callback does to the files. */
  function Performed(env: Environment, store: Store, e: Effect): Store {
    match e
    case Created(_, _, size, name, _, _, handle) => store[handle := Opened(env, name, size)]
    case Wrote(handle, offset, data) => Changed(store, handle, offset, data)
    case Sent(handle, offset, data) => Changed(store, handle, offset, data)
    case Zeroed(handle, offset, length) => Changed(store, handle, offset, Zeros(length))
    case Punched(handle, offset, length) => Changed(store, handle, offset, Zeros(length))
    case Cloned(handle, offset, source, sourceOffset, length) =>
      if source in store && sourceOffset + length <= |store[source]| then
        Changed(store, handle, offset, store[source][sourceOffset..sourceOffset + length])
      else store
    case Linked(_, _) => store
    case Listed(_, _) => store
    case Described(_, _, _) => store
    case Finished(_) => store
  }

  function Stored(env: Environment, effects: seq<Effect>): Store {
    if effects == [] then map[]
    else
      var n := |effects| - 1;
      Performed(env, Stored(env, effects[..n]), effects[n])
  }

  /** The receiver gives every file a handle of its own. */
  ghost predicate FreshHandles(env: Environment, effects: seq<Effect>) {
    effects == [] ||
    var n := |effects| - 1;
    && FreshHandles(env, effects[..n])
    && (effects[n].Created? ==> effects[n].handle != 0 && effects[n].handle !in Stored(env, effects[..n]))
  }

  lemma {:induction false} StoredStep(env: Environment, effects: seq<Effect>, e: Effect)
    ensures Stored(env, effects + [e]) == Performed(env, Stored(env, effects), e)
    ensures FreshHandles(env, effects + [e]) <==>
              FreshHandles(env, effects) && (e.Created? ==> e.handle != 0 && e.handle !in Stored(env, effects))
  {
    assert (effects + [e])[..|effects|] == effects;
  }

  lemma {:induction false} OverwriteTwice(data: seq<byte>, offset: nat, a: seq<byte>, b: seq<byte>)
    requires offset + |a| + |b| <= |data|
    ensures Overwrite(Overwrite(data, offset, a), offset + |a|, b) == Overwrite(data, offset, a + b)
    ensures Overwrite(data, offset, []) == data
  {
  }

  /** Writes and sends that carry `bytes` leave exactly them in the file. */
  lemma {:induction false} CarriedIsStored(env: Environment, effects: seq<Effect>, pieces: seq<Effect>, handle: nat,
                                           offset: nat, bytes: seq<byte>)
    requires Carried(pieces, handle, offset, bytes) && handle in Stored(env, effects)
    requires offset + |bytes| <= |Stored(env, effects)[handle]| < U64
    ensures Stored(env, effects + pieces)
         == Stored(env, effects)[handle := Overwrite(Stored(env, effects)[handle], offset, bytes)]
    decreases |pieces|
  {
    hide Stored, Overwrite;
    var store := Stored(env, effects);
    if pieces == [] {
      OverwriteTwice(store[handle], offset, [], []);
      assert effects + pieces == effects;
    } else {
      var n := |pieces| - 1;
      var last := pieces[n];
      var m := |bytes| - |last.data|;
      CarriedIsStored(env, effects, pieces[..n], handle, offset, bytes[..m]);
      StoredStep(env, effects + pieces[..n], last);
      assert effects + pieces == effects + pieces[..n] + [last];
      OverwriteTwice(store[handle], offset, bytes[..m], last.data);
      assert bytes == bytes[..m] + last.data;
    }
  }

  /** Zero writes that cover `n` bytes leave exactly zeros there. */
  lemma {:induction false} BlankedIsStored(env: Environment, effects: seq<Effect>, pieces: seq<Effect>, handle: nat,
                                           offset: nat, n: nat)
    requires Blanked(pieces, handle, offset, n) && handle in Stored(env, effects)
    requires offset + n <= |Stored(env, effects)[handle]| < U64
    ensures Stored(env, effects + pieces)
         == Stored(env, effects)[handle := Overwrite(Stored(env, effects)[handle], offset, Zeros(n))]
    decreases |pieces|
  {
    hide Stored, Overwrite;
    var store := Stored(env, effects);
    if pieces == [] {
      OverwriteTwice(store[handle], offset, [], []);
      assert effects + pieces == effects && Zeros(0) == [];
    } else {
      var k := |pieces| - 1;
      var last := pieces[k];
      var m := n - last.length;
      BlankedIsStored(env, effects, pieces[..k], handle, offset, m);
      StoredStep(env, effects + pieces[..k], last);
      assert effects + pieces == effects + pieces[..k] + [last];
      OverwriteTwice(store[handle], offset, Zeros(m), Zeros(last.length));
      assert Zeros(n) == Zeros(m) + Zeros(last.length);
    }
  }

  // ----- the two levels agree

  /** The byte level knows the file under its id, and the receiver's file holds what the packet level says. */
  ghost predicate Same(f: ReaderFile, e: Entry, id: nat, store: Store) {
    Matches(f, e, id) && e.handle != 0 && e.handle in store && store[e.handle] == f.data
  }

  predicate Matches(f: ReaderFile, e: Entry, id: nat) {
    e.id == id && e.size == f.size < U64 && e.mode == f.mode
  }

  /** Both levels know the same files. */
  ghost predicate Known(s: ReaderState, files: map<nat, Entry>, newfile: Option<Entry>) {
    && files.Keys == s.files.Keys
    && (forall k :: k in files ==> Matches(s.files[k], files[k], k))
    && (s.newfile.Some? ==> s.newfile.value in files)
    && newfile == (if s.newfile.Some? then Some(files[s.newfile.value]) else None)
  }

  /** Both levels know the same files, and the receiver's files hold what the packet level says. */
  ghost predicate Agree(env: Environment, s: ReaderState, files: map<nat, Entry>, newfile: Option<Entry>,
                        effects: seq<Effect>)
  {
    && Known(s, files, newfile)
    && (forall k :: k in files ==> Same(s.files[k], files[k], k, Stored(env, effects)))
    && (forall k, l :: k in files && l in files && k != l ==> files[k].handle != files[l].handle)
  }

  /** A change to one file. */
  lemma {:induction false} AgreeWrite(env: Environment, s: ReaderState, files: map<nat, Entry>, newfile: Option<Entry>,
                                      effects: seq<Effect>, effects': seq<Effect>, id: nat, data: seq<byte>)
    requires Agree(env, s, files, newfile, effects) && id in files
    requires Stored(env, effects') == Stored(env, effects)[files[id].handle := data]
    ensures Agree(env, s.(files := s.files[id := s.files[id].(data := data)]), files, newfile, effects')
  {
    hide Stored;
    var s' := s.(files := s.files[id := s.files[id].(data := data)]);
    forall k | k in files ensures Same(s'.files[k], files[k], k, Stored(env, effects')) {
      assert Same(s.files[k], files[k], k, Stored(env, effects));
    }
  }

  lemma {:induction false} AgreeSilent(env: Environment, s: ReaderState, files: map<nat, Entry>, newfile: Option<Entry>,
                                       effects: seq<Effect>, effects': seq<Effect>)
    requires Agree(env, s, files, newfile, effects) && Stored(env, effects') == Stored(env, effects)
    ensures Agree(env, s, files, newfile, effects')
  {
    hide Stored, Same;
  }

  /** A new file. */
  lemma {:induction false} AgreeNewFile(env: Environment, s: ReaderState, files: map<nat, Entry>,
                                        newfile: Option<Entry>, effects: seq<Effect>, h: FileHeader,
                                        node: Option<NodeId>, handle: nat)
    requires Agree(env, s, files, newfile, effects) && h.id !in files && s.newfile.None? && h.size < U64
    requires FreshHandles(env, effects + [Created(h.id, h.mode, h.size, h.name, h.link, node, handle)])
    ensures var ref := FileType(h.mode) == M_FREF;
            var entry := Entry(h.id, h.size, h.mode, handle);
            var stood := ReaderFile(h.size, h.mode, Opened(env, h.name, h.size));
            Agree(env, ReaderState(s.files[h.id := stood], if ref then None else Some(h.id)),
                  files[h.id := entry], if ref then None else Some(entry),
                  effects + [Created(h.id, h.mode, h.size, h.name, h.link, node, handle)])
  {
    hide Stored, FreshHandles, FileType, Opened;
    StoredStep(env, effects, Created(h.id, h.mode, h.size, h.name, h.link, node, handle));
    forall k | k in files ensures files[k].handle != handle {
      assert Same(s.files[k], files[k], k, Stored(env, effects));
    }
  }

  // ----- one packet

  /** The stream holds `p` at the given position. */
  ghost predicate Holds(input: Stream, pos: nat, p: Packet) {
    Sizable(p) && Bytes(input, pos, |PacketBytes(p)|) == PacketBytes(p)
  }

  /** What the header and the body of a packet in the stream are read as. */
  lemma HeldIsRead(input: Stream, pos: nat, p: Packet)
    requires Holds(input, pos, p)
    ensures U16Of(Bytes(input, pos, SIZEOF_PACKET), 2) == KindOf(p)
    ensures U64Of(Bytes(input, pos, SIZEOF_PACKET), 8) == SIZEOF_PACKET + |BodyBytes(p)|
    ensures Bytes(input, pos + SIZEOF_PACKET, |BodyBytes(p)|) == BodyBytes(p)
  {
    hide BodyBytes, U16Of, U64Of, PacketHeaderBytes, KindOf, Bytes;
    var kind, n := KindOf(p), |BodyBytes(p)|;
    KindIsSmall(p);
    PacketHeaderIsRead(kind, SIZEOF_PACKET + n);
    BytesSplit(input, pos, SIZEOF_PACKET, n);
    var a, b := Bytes(input, pos, SIZEOF_PACKET), Bytes(input, pos + SIZEOF_PACKET, n);
    assert (a + b)[..SIZEOF_PACKET] == a && (a + b)[SIZEOF_PACKET..] == b;
    assert PacketBytes(p)[..SIZEOF_PACKET] == PacketHeaderBytes(kind, SIZEOF_PACKET + n);
    assert PacketBytes(p)[SIZEOF_PACKET..] == BodyBytes(p);
  }

  lemma KindIsSmall(p: Packet)
    ensures 1 < KindOf(p) < 0x1_0000
  {
  }

  /** The reader is done with `p`, which began at its mark. */
  ghost predicate DoneWith(r: FiesReader, p: Packet)
    reads r
  {
    r.state == Begin && r.PacketDone() && Holds(r.input, r.mark.pos, p)
  }

  lemma Told(r: FiesReader, p: Packet)
    requires DoneWith(r, p)
    ensures r.pktType == KindOf(p) && r.pktSize == |BodyBytes(p)|
    ensures Bytes(r.input, r.mark.pos + SIZEOF_PACKET, r.pktSize) == BodyBytes(p)
  {
    hide BodyBytes, U16Of, U64Of, KindOf, Bytes;
    HeldIsRead(r.input, r.mark.pos, p);
  }

  /** Both levels agreed when the packet began, and the packet level takes it. */
  ghost predicate Agreed(r: FiesReader, env: Environment, s: ReaderState, p: Packet)
    reads r
  {
    && Agree(env, s, r.mark.files, r.mark.newfile, r.mark.effects)
    && Apply(env, s, p).Ok?
  }

  lemma FileAgrees(r: FiesReader, env: Environment, s: ReaderState, p: Packet)
    requires DoneWith(r, p) && Agreed(r, env, s, p) && p.File? && FreshHandles(env, r.effects)
    ensures Agree(env, Apply(env, s, p).state, r.files, r.newfile, r.effects)
  {
    hide BodyBytes, Bytes, U16Of, U32Of, U64Of, KindOf, HasNames, ParseFile, FileType, Stored, FreshHandles, Same,
         Opened;
    Told(r, p);
    FileIsRead(p);
    assert KindOf(p) == PACKET_FILE by { KindOfFile(p); }
    var h := FileHeader(p.id, p.mode, p.size, p.name, p.link);
    assert r.Entered(h, r.mark.files, r.mark.newfile, r.mark.effects);
    if FileType(p.mode) == M_FHARD {
      StoredStep(env, r.mark.effects, Linked(r.files[h.id].handle, h.name));
      AgreeSilent(env, s, r.mark.files, r.mark.newfile, r.mark.effects, r.effects);
    } else {
      AgreeNewFile(env, s, r.mark.files, r.mark.newfile, r.mark.effects, h, r.node, r.files[h.id].handle);
    }
  }

  /** A device node is made with the numbers that its packet has at a fixed place. */
  lemma NodeIsMade(r: FiesReader, p: Packet) returns (behind: seq<byte>)
    requires DoneWith(r, p) && p.File? && IsNode(FileType(p.mode)) && r.mark.newfile.None?
    ensures p.node.Some? && NodeFits(p.node.value) && SIZEOF_DEVICE <= |p.name| + |behind| && p.id in r.files
    ensures r.effects == r.mark.effects + [Created(p.id, p.mode, p.size, p.name, p.link,
                                                   Some(NumbersRead(p.name, p.node.value, behind)),
                                                   r.files[p.id].handle)]
  {
    hide Bytes, U16Of, U32Of, U64Of, KindOf, HasNames, ParseFile, FileType, FileHeaderBytes, NodeBytes;
    Told(r, p);
    KindOfFile(p);
    FileIsRead(p);
    var b := BodyBytes(p);
    behind :| SIZEOF_FILE + 2 * SIZEOF_DEVICE <= |b + behind| && r.node == Some(NodeOf(b + behind));
    var all := b + behind;
    assert all[SIZEOF_FILE..|all|] == p.name + NodeBytes(p.node.value) + behind;
    NumbersInside(all, SIZEOF_FILE, |all|);
    assert r.Entered(FileHeader(p.id, p.mode, p.size, p.name, p.link), r.mark.files, r.mark.newfile, r.mark.effects);
  }

  lemma KindOfFile(p: Packet)
    ensures p.File? ==> KindOf(p) == PACKET_FILE
    ensures p.Meta? ==> KindOf(p) == PACKET_META
    ensures p.Extent? ==> KindOf(p) == PACKET_EXTENT
    ensures p.FileEnd? ==> KindOf(p) == PACKET_FILE_END
    ensures p.SnapshotList? ==> KindOf(p) == PACKET_SNAPSHOTS
  {
  }

  /** A meta packet is told to the receiver of the file that is announced, with the kind and the data it has. */
  lemma MetaIsTold(r: FiesReader, p: Packet)
    requires DoneWith(r, p) && p.Meta? && r.mark.newfile.Some? && MetaFormat(p.meta).0 < 0x8000
    requires r.Listens(MetaFormat(p.meta).0)
    ensures p.file == r.mark.newfile.value.id && p.file in r.files
    ensures r.files[p.file].handle != 0 ==>
              r.effects == r.mark.effects + [Described(r.files[p.file].handle, MetaFormat(p.meta).0,
                                                       MetaFormat(p.meta).1)]
  {
    hide BodyBytes, Bytes, U16Of, U32Of, U64Of, FiesReader.Listens;
    Told(r, p);
    MetaIsRead(p);
    MetaDataIsFormatted(p.meta);
  }

  lemma MetaAgrees(r: FiesReader, env: Environment, s: ReaderState, p: Packet)
    requires DoneWith(r, p) && Agreed(r, env, s, p) && p.Meta?
    ensures Agree(env, Apply(env, s, p).state, r.files, r.newfile, r.effects)
  {
    hide BodyBytes, Bytes, U16Of, U32Of, U64Of, Stored, Same;
    Told(r, p);
    MetaIsRead(p);
    var handle, kind, data := r.mark.newfile.value.handle, MetaKind(p.meta), BodyBytes(p)[SIZEOF_META..];
    StoredStep(env, r.mark.effects, Described(handle, kind, data));
    AgreeSilent(env, s, r.mark.files, r.mark.newfile, r.mark.effects, r.effects);
  }

  lemma EndAgrees(r: FiesReader, env: Environment, s: ReaderState, p: Packet)
    requires DoneWith(r, p) && Agreed(r, env, s, p) && p.FileEnd?
    ensures Agree(env, Apply(env, s, p).state, r.files, r.newfile, r.effects)
  {
    hide BodyBytes, Bytes, U16Of, U32Of, U64Of, Stored, Same;
    Told(r, p);
    EndsAreSilent(env, r.mark.effects, r.effects);
    AgreeSilent(env, s, r.mark.files, r.mark.newfile, r.mark.effects, r.effects);
  }

  /** Telling the receivers that files are complete changes none of them. */
  lemma {:induction false} EndsAreSilent(env: Environment, before: seq<Effect>, effects: seq<Effect>)
    requires before <= effects && forall i :: |before| <= i < |effects| ==> effects[i].Finished?
    ensures Stored(env, effects) == Stored(env, before)
  {
    if |before| < |effects| {
      var n := |effects| - 1;
      EndsAreSilent(env, before, effects[..n]);
      assert effects == effects[..n] + [effects[n]];
      StoredStep(env, effects[..n], effects[n]);
    } else {
      assert effects == before;
    }
  }

  /** The end of a packet's own file is told to its receiver, unless the id was read elsewhere. */
  lemma EndIsTold(r: FiesReader, p: Packet)
    requires DoneWith(r, p) && r.mark.newfile.None? && p.FileEnd? && !r.stale
    ensures p.file in r.files && r.effects == r.mark.effects + r.FinishedFor(p.file)
  {
    hide BodyBytes, Bytes, U16Of, U32Of, U64Of;
    Told(r, p);
    EndIsRead(p);
  }

  /** The end of the stream's bytes that a packet's body begins with. */
  lemma RestOfBody(r: FiesReader, p: Packet, n: nat)
    requires DoneWith(r, p) && n <= |BodyBytes(p)|
    ensures Bytes(r.input, r.mark.pos + SIZEOF_PACKET, n) == BodyBytes(p)[..n]
    ensures Bytes(r.input, r.mark.pos + SIZEOF_PACKET + n, |BodyBytes(p)| - n) == BodyBytes(p)[n..]
  {
    hide BodyBytes, Bytes, FiesReader.PacketDone;
    RestOfHeld(r.input, r.mark.pos, p, n);
  }

  lemma RestOfHeld(input: Stream, pos: nat, p: Packet, n: nat)
    requires Holds(input, pos, p) && n <= |BodyBytes(p)|
    ensures Bytes(input, pos + SIZEOF_PACKET, n) == BodyBytes(p)[..n]
    ensures Bytes(input, pos + SIZEOF_PACKET + n, |BodyBytes(p)| - n) == BodyBytes(p)[n..]
  {
    hide BodyBytes;
    HeldIsRead(input, pos, p);
    BytesSplit(input, pos + SIZEOF_PACKET, n, |BodyBytes(p)| - n);
    var a, b := Bytes(input, pos + SIZEOF_PACKET, n), Bytes(input, pos + SIZEOF_PACKET + n, |BodyBytes(p)| - n);
    assert (a + b)[..n] == a && (a + b)[n..] == b;
  }

  /** A list changes no file; the callback gets the names of the packet, in order. */
  lemma ListAgrees(r: FiesReader, env: Environment, s: ReaderState, p: Packet)
    requires DoneWith(r, p) && Agreed(r, env, s, p) && p.SnapshotList?
    ensures Agree(env, Apply(env, s, p).state, r.files, r.newfile, r.effects)
    ensures r.funcs.snapshots.Some? ==> r.effects == r.mark.effects + [Listed(r.files[p.file].handle, p.names)]
  {
    hide DoneWith, BodyBytes, Bytes, U16Of, U32Of, U64Of, Stored, Same, ListBytes;
    NamesAreDelivered(r, p) by { hide Agree; OnlyMetas(env, s, p); }
    if r.funcs.snapshots.Some? {
      StoredStep(env, r.mark.effects, Listed(r.files[p.file].handle, p.names));
    }
    AgreeSilent(env, s, r.mark.files, r.mark.newfile, r.mark.effects, r.effects);
  }

  /** The callback for snapshots is called once, with the names of the packet in order. */
  lemma NamesAreDelivered(r: FiesReader, p: Packet)
    requires DoneWith(r, p) && p.SnapshotList? && r.mark.newfile.None?
    ensures r.Untouched() && p.file in r.files
    ensures r.effects == if r.funcs.snapshots.Some? then
                           r.mark.effects + [Listed(r.files[p.file].handle, p.names)]
                         else r.mark.effects
  {
    hide BodyBytes, Bytes, U16Of, U32Of, U64Of, ListBytes, EndsInName;
    Told(r, p);
    KindOfFile(p);
    ListIsRead(p);
    RestOfBody(r, p, SIZEOF_LIST);
    if r.funcs.snapshots.Some? {
      var n := |r.mark.effects|;
      ListBytesInjective(r.effects[n].names, p.names);
      assert r.effects == r.mark.effects + [r.effects[n]];
    }
  }

  /** What the packet level takes of an extent. */
  lemma ExtentIsApplied(env: Environment, s: ReaderState, p: Packet)
    requires p.Extent? && Apply(env, s, p).Ok?
    ensures s.newfile.None? && p.file in s.files
    ensures var f := s.files[p.file];
            && p.offset + p.length <= f.size == |f.data| && p.flags in {FL_DATA, FL_ZERO, FL_HOLE, FL_COPY}
            && (p.flags == FL_DATA ==> p.body.Payload? && |p.body.data| == p.length)
            && (p.flags == FL_ZERO || p.flags == FL_HOLE ==> p.body.NoBody?)
            && (p.flags == FL_COPY ==>
                  p.body.Source? && p.body.file in s.files && p.body.offset + p.length <= |s.files[p.body.file].data|)
            && Apply(env, s, p).state
               == s.(files := s.files[p.file := f.(data := Overwrite(f.data, p.offset, ExtentData(s, p)))])
  {
    hide Overwrite, Zeros;
  }

  /** The bytes an extent leaves in its range. */
  function ExtentData(s: ReaderState, p: Packet): (r: seq<byte>)
    requires p.Extent? && (p.flags == FL_DATA ==> p.body.Payload? && |p.body.data| == p.length)
    requires p.flags == FL_COPY ==>
               p.body.Source? && p.body.file in s.files && p.body.offset + p.length <= |s.files[p.body.file].data|
    ensures |r| == p.length
  {
    if p.flags == FL_DATA then p.body.data
    else if p.flags == FL_COPY then s.files[p.body.file].data[p.body.offset..p.body.offset + p.length]
    else Zeros(p.length)
  }

  /** What the reader did for an extent. */
  lemma ExtentIsDone(r: FiesReader, p: Packet)
    requires DoneWith(r, p) && p.Extent? && r.mark.newfile.None?
    ensures r.Untouched() && p.file in r.files && r.extent == ExtentHeader(p.file, p.flags, p.offset, p.length)
    ensures r.ExtentDone(r.mark.pos + SIZEOF_PACKET + SIZEOF_EXTENT) && |BodyBytes(p)| >= SIZEOF_EXTENT
    ensures Bytes(r.input, r.mark.pos + SIZEOF_PACKET + SIZEOF_EXTENT, |BodyBytes(p)| - SIZEOF_EXTENT)
              == BodyBytes(p)[SIZEOF_EXTENT..]
  {
    hide BodyBytes, Bytes, U16Of, U32Of, U64Of, ParseExtent;
    Told(r, p);
    ExtentIsRead(p);
    RestOfBody(r, p, SIZEOF_EXTENT);
  }

  /**
   * What the receiver of an extent was told, type by type: DATA is written or sent, ZERO is written
   * as zeros, HOLE is punched, and COPY is cloned from the file that the packet names.
   */
  lemma ExtentIsTold(r: FiesReader, p: Packet)
    requires DoneWith(r, p) && p.Extent? && r.mark.newfile.None? && Canonical(p)
    ensures p.file in r.files && p.flags in {0x1, 0x2, 0x4, 0x8} && r.mark.effects <= r.effects
    ensures r.files[p.file].handle != 0 ==>
              var handle, told := r.files[p.file].handle, r.effects[|r.mark.effects|..];
              && (p.flags == 0x1 ==>
                    && (forall e :: e in told ==> (e.Wrote? || e.Sent?) && e.handle == handle)
                    && (|p.body.data| == p.length ==> Carried(told, handle, p.offset, p.body.data)))
              && (p.flags == 0x2 && r.WritesAtMost() ==>
                    && (forall e :: e in told ==> e.Zeroed? && e.handle == handle)
                    && Blanked(told, handle, p.offset, p.length))
              && (p.flags == 0x4 ==> told == [Punched(handle, p.offset, p.length)])
              && (p.flags == 0x8 ==>
                    && p.body.file in r.files
                    && told == [Cloned(handle, p.offset, r.files[p.body.file].handle, p.body.offset, p.length)])
  {
    hide BodyBytes, Bytes, U16Of, U32Of, U64Of, ParseExtent, Carried, Blanked, DoneWith, ExtentComplaint;
    ExtentIsDone(r, p);
    ExtentIsRead(p) by { Encoded(r, p); }
    TypeIsKnown(r, p);
    var handle := r.files[p.file].handle;
    if p.flags == 0x1 {
      if p.length == 0 {
        NothingIsCarried(handle, p.offset);
        assert r.effects[|r.mark.effects|..] == [] && (|p.body.data| == 0 ==> p.body.data == []);
      } else if handle != 0 {
        var body := r.mark.pos + SIZEOF_PACKET + SIZEOF_EXTENT;
        assert r.effects[|r.mark.effects|..] == r.pieces;
        CarriedKinds(r.pieces, handle, p.offset, Bytes(r.input, body, p.length));
      }
    } else if p.flags == 0x2 {
      if handle != 0 && r.WritesAtMost() {
        assert r.effects[|r.mark.effects|..] == r.pieces;
        BlankedKinds(r.pieces, handle, p.offset, p.length);
      }
    }
  }

  lemma TypeIsKnown(r: FiesReader, p: Packet)
    requires DoneWith(r, p) && p.Extent? && r.mark.newfile.None?
    ensures p.flags in {FL_DATA, FL_ZERO, FL_HOLE, FL_COPY} && ExtentComplaint(r.files, r.pktSize, r.extent) == None
  {
    hide BodyBytes, Bytes, U16Of, U32Of, U64Of, ParseExtent;
    Told(r, p);
    KindOfFile(p);
    ExtentIsDone(r, p);
  }

  lemma {:induction false} NothingIsCarried(handle: nat, offset: nat)
    ensures Carried([], handle, offset, [])
  {
  }

  lemma {:induction false} CarriedKinds(pieces: seq<Effect>, handle: nat, offset: nat, bytes: seq<byte>)
    requires Carried(pieces, handle, offset, bytes)
    ensures forall e :: e in pieces ==> (e.Wrote? || e.Sent?) && e.handle == handle
  {
    if pieces != [] {
      var n := |pieces| - 1;
      CarriedKinds(pieces[..n], handle, offset, bytes[..|bytes| - |pieces[n].data|]);
      assert pieces == pieces[..n] + [pieces[n]];
    }
  }

  lemma {:induction false} BlankedKinds(pieces: seq<Effect>, handle: nat, offset: nat, n: nat)
    requires Blanked(pieces, handle, offset, n)
    ensures forall e :: e in pieces ==> e.Zeroed? && e.handle == handle
  {
    if pieces != [] {
      var k := |pieces| - 1;
      BlankedKinds(pieces[..k], handle, offset, n - pieces[k].length);
      assert pieces == pieces[..k] + [pieces[k]];
    }
  }

  /** The receiver's file has the bytes of the extent. */
  ghost predicate HasExtent(r: FiesReader, env: Environment, p: Packet, bytes: seq<byte>)
    requires p.Extent? && p.file in r.files
    reads r
  {
    var store, handle := Stored(env, r.mark.effects), r.files[p.file].handle;
    && handle in store && p.offset + |bytes| <= |store[handle]|
    && Stored(env, r.effects) == store[handle := Overwrite(store[handle], p.offset, bytes)]
  }

  /** The file has room for the extent. */
  ghost predicate HasRoom(r: FiesReader, env: Environment, p: Packet)
    requires p.Extent? && p.file in r.files
    reads r
  {
    var store, handle := Stored(env, r.mark.effects), r.files[p.file].handle;
    handle != 0 && handle in store && p.offset + p.length <= |store[handle]| < U64
  }

  lemma DataIsStored(r: FiesReader, env: Environment, p: Packet)
    requires DoneWith(r, p) && p.Extent? && r.mark.newfile.None? && p.file in r.files && HasRoom(r, env, p)
    requires p.flags == FL_DATA && p.body.Payload? && |p.body.data| == p.length
    ensures HasExtent(r, env, p, p.body.data)
  {
    hide BodyBytes, Bytes, U16Of, U32Of, U64Of, Stored, Overwrite, Zeros, Carried, Blanked, DoneWith;
    ExtentIsDone(r, p);
    ExtentIsRead(p) by { Encoded(r, p); }
    var store, handle := Stored(env, r.mark.effects), r.files[p.file].handle;
    if p.length > 0 {
      CarriedIsStored(env, r.mark.effects, r.pieces, handle, p.offset, p.body.data);
    } else {
      OverwriteTwice(store[handle], p.offset, [], []);
      assert p.body.data == [] && store == store[handle := store[handle]];
    }
  }

  lemma Encoded(r: FiesReader, p: Packet)
    requires DoneWith(r, p)
    ensures Encodable(p)
  {
  }

  lemma ZerosAreStored(r: FiesReader, env: Environment, p: Packet)
    requires DoneWith(r, p) && p.Extent? && r.mark.newfile.None? && p.file in r.files && HasRoom(r, env, p)
    requires (p.flags == FL_ZERO && r.WritesAtMost()) || p.flags == FL_HOLE
    ensures HasExtent(r, env, p, Zeros(p.length))
  {
    hide BodyBytes, Bytes, U16Of, U32Of, U64Of, Stored, Overwrite, Carried, Blanked, DoneWith;
    ExtentIsDone(r, p);
    var handle := r.files[p.file].handle;
    if p.flags == FL_ZERO {
      BlankedIsStored(env, r.mark.effects, r.pieces, handle, p.offset, p.length);
    } else {
      StoredStep(env, r.mark.effects, Punched(handle, p.offset, p.length));
    }
  }

  lemma CopyIsStored(r: FiesReader, env: Environment, p: Packet)
    requires DoneWith(r, p) && p.Extent? && r.mark.newfile.None? && p.file in r.files && HasRoom(r, env, p)
    requires p.flags == FL_COPY && p.body.Source? && p.body.file in r.files
             && r.files[p.body.file].handle in Stored(env, r.mark.effects)
    requires p.body.offset + p.length <= |Stored(env, r.mark.effects)[r.files[p.body.file].handle]|
    ensures HasExtent(r, env, p,
                      Stored(env, r.mark.effects)[r.files[p.body.file].handle][p.body.offset..p.body.offset + p.length])
  {
    hide BodyBytes, Bytes, U16Of, U32Of, U64Of, Stored, Overwrite, Carried, Blanked, DoneWith;
    ExtentIsDone(r, p);
    ExtentIsRead(p) by { Encoded(r, p); }
    var handle := r.files[p.file].handle;
    StoredStep(env, r.mark.effects, Cloned(handle, p.offset, r.files[p.body.file].handle, p.body.offset, p.length));
  }

  lemma ExtentIsStored(r: FiesReader, env: Environment, s: ReaderState, p: Packet)
    requires DoneWith(r, p) && Agreed(r, env, s, p) && p.Extent? && r.WritesAtMost()
    ensures r.Untouched() && p.file in r.files
    ensures (p.flags == FL_DATA ==> p.body.Payload? && |p.body.data| == p.length)
    ensures (p.flags == FL_COPY ==>
               p.body.Source? && p.body.file in s.files && p.body.offset + p.length <= |s.files[p.body.file].data|)
    ensures HasExtent(r, env, p, ExtentData(s, p))
  {
    hide DoneWith, Stored, Overwrite, Zeros, Apply, HasExtent, Bytes, BodyBytes, FiesReader.ExtentDone,
         FiesReader.WritesAtMost;
    ExtentIsApplied(env, s, p);
    ExtentIsDone(r, p);
    assert Same(s.files[p.file], r.files[p.file], p.file, Stored(env, r.mark.effects));
    if p.flags == FL_DATA {
      DataIsStored(r, env, p);
    } else if p.flags == FL_COPY {
      assert Same(s.files[p.body.file], r.files[p.body.file], p.body.file, Stored(env, r.mark.effects));
      CopyIsStored(r, env, p);
    } else {
      ZerosAreStored(r, env, p);
    }
  }

  lemma ExtentAgrees(r: FiesReader, env: Environment, s: ReaderState, p: Packet)
    requires DoneWith(r, p) && Agreed(r, env, s, p) && p.Extent? && r.WritesAtMost()
    ensures Agree(env, Apply(env, s, p).state, r.files, r.newfile, r.effects)
  {
    hide BodyBytes, Bytes, U16Of, U32Of, U64Of, Stored, Overwrite, Zeros, ExtentData;
    ExtentIsStored(r, env, s, p);
    ExtentIsApplied(env, s, p);
    assert Same(s.files[p.file], r.files[p.file], p.file, Stored(env, r.mark.effects));
    AgreeWrite(env, s, r.mark.files, r.mark.newfile, r.mark.effects, r.effects, p.file,
               Overwrite(s.files[p.file].data, p.offset, ExtentData(s, p)));
  }

  lemma PacketAgrees(r: FiesReader, env: Environment, s: ReaderState, p: Packet)
    requires DoneWith(r, p) && Agreed(r, env, s, p) && FreshHandles(env, r.effects) && r.WritesAtMost()
    ensures Agree(env, Apply(env, s, p).state, r.files, r.newfile, r.effects)
  {
    hide DoneWith, Agreed, Agree, Apply, FreshHandles, FiesReader.WritesAtMost;
    match p
    case File(_, _, _, _, _, _) => FileAgrees(r, env, s, p);
    case Meta(_, _) => MetaAgrees(r, env, s, p);
    case Extent(_, _, _, _, _) => ExtentAgrees(r, env, s, p);
    case FileEnd(_) => EndAgrees(r, env, s, p);
    case SnapshotList(_, _) => ListAgrees(r, env, s, p);
  }

  /** Both levels know the same files after a packet, whatever the receiver makes of its handles. */
  lemma PacketIsKnown(r: FiesReader, env: Environment, s: ReaderState, p: Packet)
    requires DoneWith(r, p) && Known(s, r.mark.files, r.mark.newfile) && Apply(env, s, p).Ok?
    ensures Known(Apply(env, s, p).state, r.files, r.newfile)
  {
    hide BodyBytes, Bytes, U16Of, U32Of, U64Of, HasNames, ParseFile, ParseExtent, FileType, Opened, KindOf, Overwrite,
         Zeros, FiesReader.ExtentMoved, FiesReader.ListGoes;
    Told(r, p);
    KindOfFile(p);
    match p
    case File(_, _, _, _, _, _) =>
      FileIsRead(p);
      assert r.Entered(FileHeader(p.id, p.mode, p.size, p.name, p.link), r.mark.files, r.mark.newfile, r.mark.effects);
    case Meta(_, _) => MetaIsRead(p);
    case Extent(_, _, _, _, _) => ExtentIsApplied(env, s, p);
    case FileEnd(_) =>
    case SnapshotList(_, _) =>
  }

  // ----- no packet is refused that the packet level takes

  lemma HeaderIsTaken(r: FiesReader, env: Environment, s: ReaderState, p: Packet, pos: nat)
    requires Holds(r.input, pos, p) && Apply(env, s, p).Ok?
    ensures !r.HeaderUnfit(pos, s.newfile.Some?)
  {
    hide Bytes, U16Of, U32Of, U64Of, FileType, Opened, Overwrite, Zeros, ListBytes, PacketHeaderBytes;
    HeldIsRead(r.input, pos, p);
    KindOfFile(p);
    MagicIsThere(r.input, pos, p);
    if p.File? {
      FileIsRead(p);
    }
    if p.SnapshotList? {
      ListIsRead(p);
    }
  }

  lemma MagicIsThere(input: Stream, pos: nat, p: Packet)
    requires Holds(input, pos, p)
    ensures Bytes(input, pos, SIZEOF_PACKET)[..2] == [0x46, 0x49]
  {
    hide BodyBytes;
    BytesSplit(input, pos, SIZEOF_PACKET, |BodyBytes(p)|);
    assert PacketBytes(p)[..2] == [0x46, 0x49];
    assert Bytes(input, pos, |PacketBytes(p)|)[..2] == Bytes(input, pos, SIZEOF_PACKET)[..2];
  }

  lemma FileIsTaken(env: Environment, s: ReaderState, files: map<nat, Entry>, newfile: Option<Entry>, p: Packet)
    requires p.File? && Encodable(p) && Known(s, files, newfile) && Apply(env, s, p).Ok?
    ensures !FileRefused(files, BodyBytes(p))
  {
    hide BodyBytes, HasNames, ParseFile, FileType, Opened, FileComplaint;
    FileIsRead(p);
    FileChecksAgree(env, s, p);
  }

  lemma MetaIsTaken(env: Environment, s: ReaderState, files: map<nat, Entry>, newfile: Option<Entry>, p: Packet)
    requires p.Meta? && Encodable(p) && Known(s, files, newfile) && Apply(env, s, p).Ok?
    ensures !MetaRefused(newfile, BodyBytes(p))
  {
    hide BodyBytes, U16Of, U32Of, U64Of, U32Bytes, U64Bytes;
    var b := BodyBytes(p);
    MetaIsRead(p);
    assert b == b[..SIZEOF_META] + MetaBytes(p.meta);
    if p.meta.MetaXAttr? {
      XAttrIsTaken(b, p.meta.name, p.meta.value);
    }
  }

  lemma XAttrIsTaken(b: seq<byte>, name: seq<byte>, value: seq<byte>)
    requires |name| < U32 && |value| < U32 && 0 !in name && |b| >= SIZEOF_META && U32Of(b, 0) == META_XATTR
    requires b[SIZEOF_META..] == MetaBytes(MetaXAttr(name, value))
    ensures MetaProblem(b) == None
  {
    hide U16Of, U32Of, U64Of, U32Bytes, U64Bytes;
    var b0, b1, head := U32Bytes(|name|), U32Bytes(|value|), SIZEOF_META + SIZEOF_XATTR;
    var a := b[..SIZEOF_META];
    assert b == a + b0 + (b1 + name + [0] + value);
    NumbersAt(a, b0, b1 + name + [0] + value);
    assert b == a + b0 + b1 + (name + [0] + value);
    NumbersAt(a + b0, b1, name + [0] + value);
    assert b[head..head + |name|] == name && b[head + |name|] == 0;
  }

  lemma ExtentIsTaken(env: Environment, s: ReaderState, files: map<nat, Entry>, newfile: Option<Entry>, p: Packet)
    requires p.Extent? && Encodable(p) && Known(s, files, newfile) && Apply(env, s, p).Ok?
    ensures !ExtentRefused(files, BodyBytes(p))
  {
    hide BodyBytes, U16Of, U32Of, U64Of, ParseExtent, ExtentComplaint, Overwrite, Zeros, Extype;
    ExtentIsRead(p);
    ExtentIsApplied(env, s, p);
    var b, e := BodyBytes(p), ExtentHeader(p.file, p.flags, p.offset, p.length);
    assert Matches(s.files[p.file], files[p.file], p.file);
    ExtentChecksAgree(s, files, e, p.body);
    assert |b| == SIZEOF_EXTENT + |b[SIZEOF_EXTENT..]|;
    if p.body.Source? {
      assert b[SIZEOF_EXTENT..SIZEOF_EXTENT + SIZEOF_SOURCE] == b[SIZEOF_EXTENT..];
    }
  }

  lemma ListIsTaken(env: Environment, s: ReaderState, files: map<nat, Entry>, newfile: Option<Entry>, p: Packet)
    requires p.SnapshotList? && Encodable(p) && Known(s, files, newfile) && Apply(env, s, p).Ok?
    ensures !ListRefused(files, BodyBytes(p))
  {
    hide BodyBytes, U16Of, U32Of, U64Of, ListBytes;
    ListIsRead(p);
    assert NamesOk(p.names);
  }

  lemma BodyIsTaken(env: Environment, s: ReaderState, p: Packet, m: Mark)
    requires Encodable(p) && Known(s, m.files, m.newfile) && Apply(env, s, p).Ok?
    ensures !IsRefused(m, KindOf(p), BodyBytes(p))
  {
    hide BodyBytes, Apply, KindOf, FileRefused, MetaRefused, ExtentRefused, ListRefused, U32Of;
    KindOfFile(p);
    OnlyMetas(env, s, p);
    match p
    case File(_, _, _, _, _, _) => FileIsTaken(env, s, m.files, m.newfile, p);
    case Meta(_, _) => MetaIsTaken(env, s, m.files, m.newfile, p);
    case Extent(_, _, _, _, _) => ExtentIsTaken(env, s, m.files, m.newfile, p);
    case FileEnd(_) =>
      EndIsRead(p);
      EndIsTaken(env, s, p);
    case SnapshotList(_, _) => ListIsTaken(env, s, m.files, m.newfile, p);
  }

  /** A packet that the packet level takes is not refused at the byte level. */
  lemma NotRefused(r: FiesReader, env: Environment, s: ReaderState, p: Packet, m: Mark)
    requires Holds(r.input, m.pos, p) && Known(s, m.files, m.newfile) && Apply(env, s, p).Ok?
    ensures !r.Refused(m)
    ensures r.mark == m && r.PacketTold() ==> !r.BodyRefused()
  {
    hide BodyBytes, Bytes, U16Of, U64Of, Apply, KindOf, IsRefused, Known, FiesReader.HeaderUnfit;
    KnownTogether(s, m.files, m.newfile);
    HeaderIsTaken(r, env, s, p, m.pos);
    HeldIsRead(r.input, m.pos, p);
    BodyIsTaken(env, s, p, m);
  }

  lemma KnownTogether(s: ReaderState, files: map<nat, Entry>, newfile: Option<Entry>)
    requires Known(s, files, newfile)
    ensures newfile.Some? <==> s.newfile.Some?
  {
  }

  lemma EndIsTaken(env: Environment, s: ReaderState, p: Packet)
    requires Apply(env, s, p).Ok?
    ensures p.FileEnd? ==> p.file in s.files
  {
    hide Overwrite, Zeros, Opened, FileType;
  }

  lemma OnlyMetas(env: Environment, s: ReaderState, p: Packet)
    requires Apply(env, s, p).Ok?
    ensures s.newfile.Some? <==> p.Meta?
  {
    hide Overwrite, Zeros, Opened, FileType;
  }

  // ----- no packet is handled that the packet level throws at, but for four reasons

  /** What the packet level checks of a packet and the byte level does not. */
  predicate Sound(s: ReaderState, p: Packet) {
    match p
    case Extent(_, flags, offset, length, body) =>
      && offset + length < U64
      && (flags == FL_COPY && body.Source? && body.file in s.files ==>
            body.offset + length <= |s.files[body.file].data|)
    case FileEnd(file) => file in s.files
    case SnapshotList(_, names) => EndsInName(names)
    case _ => true
  }

  /** The body of an extent has the form that its bytes are read as. */
  predicate Canonical(p: Packet) {
    p.Extent? ==> (p.flags == FL_DATA <==> p.body.Payload?) && (p.flags == FL_COPY <==> p.body.Source?)
  }

  /** Copies have the size that was announced. */
  predicate FullSize(s: ReaderState) {
    forall k :: k in s.files ==> |s.files[k].data| == s.files[k].size
  }

  /** So it is after every stream. */
  lemma {:induction false} RunIsFullSize(env: Environment, log: seq<Packet>)
    requires Run(env, log).Ok?
    ensures FullSize(Run(env, log).state)
  {
    if log != [] {
      RunIsFullSize(env, log[..|log| - 1]);
    }
  }

  lemma FileDecides(r: FiesReader, env: Environment, s: ReaderState, p: Packet)
    requires DoneWith(r, p) && Known(s, r.mark.files, r.mark.newfile) && p.File?
    ensures Apply(env, s, p).Ok?
  {
    hide BodyBytes, Bytes, U16Of, U32Of, U64Of, HasNames, ParseFile, FileType, Opened, FileComplaint, ApplyFile;
    Told(r, p);
    KindOfFile(p);
    FileIsRead(p);
    assert |p.name| + |p.link| + NodeSize(p.node) <= 0xFFFF;
    FileChecksAgree(env, s, p);
  }

  lemma MetaDecides(r: FiesReader, env: Environment, s: ReaderState, p: Packet)
    requires DoneWith(r, p) && Known(s, r.mark.files, r.mark.newfile) && p.Meta?
    ensures Apply(env, s, p).Ok?
  {
    hide BodyBytes, Bytes, U16Of, U32Of, U64Of, MetaProblem, ApplyMeta;
    Told(r, p);
    KindOfFile(p);
    MetaIsRead(p);
    MetaChecksAgree(s, p);
  }

  /** What the byte level checks of a meta packet is all that the packet level does. */
  lemma MetaChecksAgree(s: ReaderState, p: Packet)
    requires p.Meta? && Encodable(p) && s.newfile == Some(p.file) && |BodyBytes(p)| <= BUFFER_CAPACITY
    requires |BodyBytes(p)| >= SIZEOF_META && MetaProblem(BodyBytes(p)) == None
    ensures ApplyMeta(s, p.file, p.meta).Ok?
  {
    hide BodyBytes, U16Of, U32Of, U64Of, U32Bytes, U64Bytes;
    var b := BodyBytes(p);
    MetaIsRead(p);
    assert b == b[..SIZEOF_META] + MetaBytes(p.meta);
    if p.meta.MetaXAttr? {
      NameIsChecked(b, p.meta.name, p.meta.value);
    }
  }

  lemma NameIsChecked(b: seq<byte>, name: seq<byte>, value: seq<byte>)
    requires |name| < U32 && |value| < U32 && |b| >= SIZEOF_META && U32Of(b, 0) == META_XATTR
    requires b[SIZEOF_META..] == MetaBytes(MetaXAttr(name, value)) && MetaProblem(b) == None
    ensures 0 !in name && |b| == SIZEOF_META + SIZEOF_XATTR + |name| + 1 + |value|
  {
    hide U16Of, U32Of, U64Of, U32Bytes, U64Bytes;
    var b0, b1, head := U32Bytes(|name|), U32Bytes(|value|), SIZEOF_META + SIZEOF_XATTR;
    var a := b[..SIZEOF_META];
    assert b == a + b0 + (b1 + name + [0] + value);
    NumbersAt(a, b0, b1 + name + [0] + value);
    assert b[head..head + |name|] == name;
  }

  lemma ExtentDecides(r: FiesReader, env: Environment, s: ReaderState, p: Packet)
    requires DoneWith(r, p) && Known(s, r.mark.files, r.mark.newfile) && p.Extent? && FullSize(s) && Canonical(p)
    ensures Apply(env, s, p).Ok? <==> Sound(s, p)
  {
    hide BodyBytes, Bytes, U16Of, U32Of, U64Of, ParseExtent, ExtentComplaint, ApplyExtent, Sound, FullSize;
    Told(r, p);
    KindOfFile(p);
    ExtentIsDone(r, p);
    ExtentIsRead(p) by { Encoded(r, p); }
    assert p.flags == FL_COPY && p.body.Source? ==> p.body.file in r.files;
    SizeOfExtent(p) by { Encoded(r, p); }
    assert p.file in s.files && Matches(s.files[p.file], r.files[p.file], p.file);
    ExtentChecksDecide(s, r.files, p);
  }

  lemma SizeOfExtent(p: Packet)
    requires p.Extent? && Encodable(p)
    ensures |BodyBytes(p)| == SIZEOF_EXTENT + BodySize(p.body)
  {
    hide U32Bytes, U64Bytes, ExtentHeaderBytes;
  }

  lemma ExtentChecksDecide(s: ReaderState, files: map<nat, Entry>, p: Packet)
    requires p.Extent? && Encodable(p) && FullSize(s) && Canonical(p) && p.file in files && p.file in s.files
    requires Matches(s.files[p.file], files[p.file], p.file) && (p.flags == FL_COPY ==> p.body.file in s.files)
    requires ExtentComplaint(files, SIZEOF_EXTENT + BodySize(p.body),
                             ExtentHeader(p.file, p.flags, p.offset, p.length)) == None
    ensures ApplyExtent(s, p.file, p.flags, p.offset, p.length, p.body).Ok? <==> Sound(s, p)
  {
    hide Overwrite, Zeros;
  }

  lemma ListDecides(r: FiesReader, env: Environment, s: ReaderState, p: Packet)
    requires DoneWith(r, p) && Known(s, r.mark.files, r.mark.newfile) && p.SnapshotList?
    ensures Apply(env, s, p).Ok? <==> EndsInName(p.names)
    ensures r.funcs.snapshots.Some? ==> EndsInName(p.names)
  {
    hide BodyBytes, Bytes, U16Of, U32Of, U64Of, ListBytes, EndsInName;
    Told(r, p);
    KindOfFile(p);
    ListIsRead(p);
    RestOfBody(r, p, SIZEOF_LIST);
    if r.funcs.snapshots.Some? {
      ListBytesInjective(r.effects[|r.mark.effects|].names, p.names);
    }
    ListIsJudged(env, s, p);
  }

  lemma ListIsJudged(env: Environment, s: ReaderState, p: Packet)
    requires p.SnapshotList? && s.newfile.None? && p.file in s.files
    ensures Apply(env, s, p).Ok? <==> EndsInName(p.names)
  {
  }

  lemma EndDecides(r: FiesReader, env: Environment, s: ReaderState, p: Packet)
    requires DoneWith(r, p) && Known(s, r.mark.files, r.mark.newfile) && p.FileEnd?
    ensures Apply(env, s, p).Ok? <==> p.file in s.files
    ensures !r.stale ==> p.file in s.files
  {
    hide BodyBytes, Bytes, U16Of, U32Of, U64Of;
    Told(r, p);
    KindOfFile(p);
    EndIsRead(p);
  }

  /**
   * What the reader handled the packet level takes, unless the range of the extent wraps around,
   * the source of a copy lies behind the end of its file, nobody wants the snapshots, or the id
   * of a FILE_END was read elsewhere.
   */
  lemma HandledIsApplied(r: FiesReader, env: Environment, s: ReaderState, p: Packet)
    requires DoneWith(r, p) && Known(s, r.mark.files, r.mark.newfile) && FullSize(s) && Canonical(p)
    ensures Apply(env, s, p).Ok? <==> Sound(s, p)
    ensures p.SnapshotList? && r.funcs.snapshots.Some? ==> Sound(s, p)
    ensures p.FileEnd? && !r.stale ==> Sound(s, p)
  {
    hide DoneWith, Known, Apply, FullSize, Canonical, EndsInName;
    match p
    case File(_, _, _, _, _, _) => FileDecides(r, env, s, p);
    case Meta(_, _) => MetaDecides(r, env, s, p);
    case Extent(_, _, _, _, _) => ExtentDecides(r, env, s, p);
    case FileEnd(_) => EndDecides(r, env, s, p);
    case SnapshotList(_, _) => ListDecides(r, env, s, p);
  }

  // ----- whole streams

  predicate AllSizable(log: seq<Packet>) {
    forall i :: 0 <= i < |log| ==> Sizable(log[i])
  }

  function PacketsBytes(log: seq<Packet>): seq<byte>
    requires AllSizable(log)
  {
    if log == [] then [] else PacketsBytes(log[..|log| - 1]) + PacketBytes(log[|log| - 1])
  }

  /** A whole stream: its header and its packets. */
  function StreamBytes(flags: nat, log: seq<Packet>): seq<byte>
    requires flags < U32 && AllSizable(log)
  {
    StreamHeaderBytes(flags) + PacketsBytes(log)
  }

  /** Where packet number `k` begins. */
  function Offset(log: seq<Packet>, k: nat): nat
    requires AllSizable(log) && k <= |log|
  {
    SIZEOF_HEADER + |PacketsBytes(log[..k])|
  }

  ghost predicate IsStream(input: Stream, flags: nat, log: seq<Packet>) {
    flags < U32 && AllSizable(log) && Bytes(input, 0, |StreamBytes(flags, log)|) == StreamBytes(flags, log)
  }

  lemma {:induction false} PacketsSplit(log: seq<Packet>, k: nat)
    requires AllSizable(log) && k < |log|
    ensures PacketsBytes(log[..k + 1]) == PacketsBytes(log[..k]) + PacketBytes(log[k])
    ensures Offset(log, k + 1) == Offset(log, k) + |PacketBytes(log[k])|
    ensures PacketsBytes(log[..k + 1]) <= PacketsBytes(log)
    decreases |log|
  {
    hide PacketBytes, Sizable, BodyBytes;
    assert log[..k + 1][..k] == log[..k];
    var n := |log| - 1;
    if k < n {
      PacketsSplit(log[..n], k);
      assert log[..n][..k + 1] == log[..k + 1];
    } else {
      assert log[..k + 1] == log;
    }
  }

  lemma BytesInside(input: Stream, pos: nat, all: seq<byte>, a: seq<byte>, b: seq<byte>, c: seq<byte>)
    requires Bytes(input, pos, |all|) == all && all == a + b + c
    ensures Bytes(input, pos + |a|, |b|) == b
  {
    forall i | 0 <= i < |b| ensures input(pos + |a| + i) == b[i] {
      assert all[|a| + i] == b[i];
      assert Bytes(input, pos, |all|)[|a| + i] == input(pos + |a| + i);
    }
  }

  /** Each packet is where it is expected. */
  lemma {:induction false} PacketIsThere(input: Stream, flags: nat, log: seq<Packet>, k: nat)
    requires IsStream(input, flags, log) && k < |log|
    ensures Holds(input, Offset(log, k), log[k])
  {
    hide PacketsBytes, PacketBytes, Bytes;
    var all, header := StreamBytes(flags, log), StreamHeaderBytes(flags);
    PacketsSplit(log, k);
    var a, b := PacketsBytes(log[..k]), PacketBytes(log[k]);
    var rest := PacketsBytes(log)[|a| + |b|..];
    assert PacketsBytes(log) == a + b + rest;
    assert all == (header + a) + b + rest;
    BytesInside(input, 0, all, header + a, b, rest);
  }

  /** Where the stream ends. */
  lemma {:induction false} StreamEnds(flags: nat, log: seq<Packet>, k: nat)
    requires flags < U32 && AllSizable(log) && k <= |log|
    ensures Offset(log, |log|) == |StreamBytes(flags, log)|
    ensures k < |log| ==> Offset(log, k) + SIZEOF_PACKET <= Offset(log, |log|)
  {
    hide PacketBytes;
    assert log[..|log|] == log;
    if k < |log| {
      PacketsSplit(log, k);
      SizeOfPacket(log[k]);
    }
  }

  lemma {:induction false} FreshPrefix(env: Environment, a: seq<Effect>, b: seq<Effect>)
    requires FreshHandles(env, b) && a <= b
    ensures FreshHandles(env, a)
  {
    if |a| < |b| {
      var n := |b| - 1;
      assert a <= b[..n];
      FreshPrefix(env, a, b[..n]);
    } else {
      assert a == b;
    }
  }

  lemma {:induction false} RunPrefix(env: Environment, log: seq<Packet>, k: nat)
    requires Run(env, log).Ok? && k <= |log|
    ensures Run(env, log[..k]).Ok?
    ensures k < |log| ==>
              && Apply(env, Run(env, log[..k]).state, log[k]).Ok?
              && Run(env, log[..k + 1]) == Apply(env, Run(env, log[..k]).state, log[k])
  {
    hide Apply;
    var n := |log| - 1;
    if k < n {
      RunPrefix(env, log[..n], k);
      assert log[..n][..k] == log[..k] && log[..n][..k + 1] == log[..k + 1];
    } else if k == n {
      assert log[..k + 1] == log;
    } else {
      assert log[..k] == log;
    }
  }

  /** The reader follows `log`: it handled `k` packets, or is inside of packet number `k`. */
  ghost predicate Following(r: FiesReader, env: Environment, log: seq<Packet>, k: nat)
    reads r
  {
    && AllSizable(log) && k <= |log| && Run(env, log[..k]).Ok?
    && if r.state == Header then
         k == 0 && r.Position() == 0 && r.effects == [] && r.files == map[] && r.newfile == None
       else if r.state == Begin then
         r.Position() == Offset(log, k) && InStep(env, log[..k], r.files, r.newfile, r.effects)
       else
         k < |log| && Inside(r, env, log, k)
  }

  /** At the mark the reader was at packet number `k`, and both levels agreed. */
  ghost predicate Inside(r: FiesReader, env: Environment, log: seq<Packet>, k: nat)
    requires AllSizable(log) && k <= |log|
    reads r
  {
    r.mark.pos == Offset(log, k) && r.OnTrack() && InStep(env, log[..k], r.mark.files, r.mark.newfile, r.mark.effects)
  }

  /** What both levels have in common after `done`; contents only if handles are not shared. */
  ghost predicate InStep(env: Environment, done: seq<Packet>, files: map<nat, Entry>, newfile: Option<Entry>,
                         effects: seq<Effect>)
  {
    && Run(env, done).Ok?
    && Known(Run(env, done).state, files, newfile)
    && (FreshHandles(env, effects) ==> Agree(env, Run(env, done).state, files, newfile, effects))
  }

  lemma AtPacketEnd(r: FiesReader)
    requires r.Valid() && r.Live() && r.sane && r.state == Begin && r.PacketDone()
    ensures r.Position() == r.mark.pos + r.DeclaredSize(r.mark.pos)
  {
    hide Bytes, U64Of;
  }

  /** What was done before a packet is still there after it. */
  lemma MarkIsPrefix(r: FiesReader, p: Packet)
    requires DoneWith(r, p)
    ensures r.mark.effects <= r.effects
  {
    hide BodyBytes, Bytes, U16Of, U32Of, U64Of, ParseExtent, ParseFile, HasNames, FileType, KindOf;
    Told(r, p);
    KindOfFile(p);
    if p.File? {
      FileIsRead(p);
    }
  }

  /** A packet was handled: on to the next one. */
  lemma {:induction false} NextPacket(r: FiesReader, env: Environment, flags: nat, log: seq<Packet>, k: nat)
    requires IsStream(r.input, flags, log) && Run(env, log).Ok? && k < |log| && r.WritesAtMost()
    requires r.Valid() && r.Live() && r.sane && r.state == Begin && r.PacketDone()
    requires Inside(r, env, log, k)
    ensures Following(r, env, log, k + 1)
  {
    hide Holds, InStep, Apply, FiesReader.Valid, FiesReader.PacketDone, FiesReader.WritesAtMost, PacketBytes, Bytes,
         U64Of, Offset;
    PacketIsThere(r.input, flags, log, k);
    RunPrefix(env, log, k);
    AtPacketEnd(r);
    HeldIsRead(r.input, r.mark.pos, log[k]);
    PacketsSplit(log, k);
    SizeOfPacket(log[k]) by { assert Sizable(log[k]); }
    StaysInStep(r, env, log, k);
  }

  lemma StaysInStep(r: FiesReader, env: Environment, log: seq<Packet>, k: nat)
    requires k < |log| && InStep(env, log[..k], r.mark.files, r.mark.newfile, r.mark.effects) && DoneWith(r, log[k])
    requires Apply(env, Run(env, log[..k]).state, log[k]).Ok? && r.WritesAtMost()
    requires Run(env, log[..k + 1]) == Apply(env, Run(env, log[..k]).state, log[k])
    ensures InStep(env, log[..k + 1], r.files, r.newfile, r.effects)
  {
    hide Run, Apply, FreshHandles, Agree, Known, DoneWith, FiesReader.WritesAtMost;
    PacketIsKnown(r, env, Run(env, log[..k]).state, log[k]);
    if FreshHandles(env, r.effects) {
      MarkIsPrefix(r, log[k]);
      FreshPrefix(env, r.mark.effects, r.effects);
      PacketAgrees(r, env, Run(env, log[..k]).state, log[k]);
    }
  }

  lemma SizeOfPacket(p: Packet)
    requires Sizable(p)
    ensures |PacketBytes(p)| == SIZEOF_PACKET + |BodyBytes(p)|
  {
  }

  /** The stream and the packet level's view of it. */
  ghost predicate Faithful(r: FiesReader, env: Environment, flags: nat, log: seq<Packet>) {
    && IsStream(r.input, flags, log) && r.HeaderFits(StreamHeaderBytes(flags)) && r.WritesAtMost()
    && Run(env, log).Ok?
  }

  /** All packets were handled, and nothing behind them. */
  ghost predicate Complete(r: FiesReader, log: seq<Packet>)
    requires AllSizable(log)
    reads r
  {
    r.state == Begin && r.Position() == Offset(log, |log|)
  }

  /** At the mark the reader was at packet number `k`; now it is inside of that packet, or behind it. */
  lemma GoesOn(r: FiesReader, env: Environment, flags: nat, log: seq<Packet>, k: nat) returns (k': nat)
    requires Faithful(r, env, flags, log) && k < |log| && AllSizable(log)
    requires r.Valid() && r.Live() && r.sane && r.Marked(r.mark) && Inside(r, env, log, k)
    ensures Following(r, env, log, k')
  {
    hide FiesReader.Valid, FiesReader.WritesAtMost, FiesReader.OnTrack, FiesReader.PacketDone, FiesReader.PacketTold,
         Following, Inside, IsStream, AllSizable, Run;
    k' := k;
    if r.state == Begin {
      NextPacket(r, env, flags, log, k);
      k' := k + 1;
    } else {
      StaysInside(r, env, log, k);
    }
  }

  lemma StaysInside(r: FiesReader, env: Environment, log: seq<Packet>, k: nat)
    requires k < |log| && AllSizable(log) && r.state != Begin && Inside(r, env, log, k)
    ensures Following(r, env, log, k)
  {
    hide Run, Known, Agree, FreshHandles, Offset, FiesReader.AtMark, FiesReader.ExtentMoved, FiesReader.ListGoes,
         FiesReader.PacketTold;
  }

  lemma {:induction false} Beginning(env: Environment, log: seq<Packet>)
    requires AllSizable(log)
    ensures Offset(log, 0) == SIZEOF_HEADER && Run(env, log[..0]) == Ok(InitialState)
    ensures InStep(env, log[..0], map[], None, []) && log[..|log|] == log
  {
  }

  /** How far a run on a faithful stream is, and how it ended if it did. */
  ghost predicate RunIs(r: FiesReader, env: Environment, log: seq<Packet>, k: nat)
    reads r
  {
    && AllSizable(log) && (r.sane ==> SaneRunIs(r, env, log, k))
    && (Comfortable(r, log) ==> r.sane && (r.Live() ==> r.state != ExtentGet))
  }

  ghost predicate SaneRunIs(r: FiesReader, env: Environment, log: seq<Packet>, k: nat)
    requires AllSizable(log)
    reads r
  {
    && (r.Live() ==> Following(r, env, log, k))
    && (!r.Live() ==> r.Excused())
    && (Complete(r, log) ==> InStep(env, log, r.files, r.newfile, r.effects))
  }

  /** No more was read than the stream has. */
  ghost predicate WithinStream(r: FiesReader, log: seq<Packet>)
    reads r
  {
    AllSizable(log) && r.taken <= Offset(log, |log|)
  }

  /** The stream header was read, or not yet. */
  lemma AfterHeader(r: FiesReader, env: Environment, flags: nat, log: seq<Packet>)
    requires Faithful(r, env, flags, log) && AllSizable(log)
    requires r.Live() ==> r.effects == [] && r.files == map[] && r.newfile == None
    requires r.Live() ==>
               if r.state == Header then r.Position() == 0 else r.state == Begin && r.Position() == SIZEOF_HEADER
    requires !r.Live() ==> r.Excused() && r.state != Begin
    ensures SaneRunIs(r, env, log, 0)
  {
    hide Offset, InStep, Run, FiesReader.Excused;
    Beginning(env, log);
    if r.Live() {
      FollowsToTheEnd(r, env, flags, log, 0);
    }
  }

  /** A step from between packets. */
  lemma AfterBegin(r: FiesReader, env: Environment, flags: nat, log: seq<Packet>, k: nat, stood: Mark) returns (k': nat)
    requires Faithful(r, env, flags, log) && AllSizable(log) && k <= |log| && r.Valid() && r.sane
    requires k < |log| || WithinStream(r, log)
    requires stood.pos == Offset(log, k) && InStep(env, log[..k], stood.files, stood.newfile, stood.effects)
    requires r.Live() ==> r.Waited(stood) || r.Marked(stood)
    requires !r.Live() ==> r.Excused() || r.Refused(stood)
    requires !r.Live() && r.state == Begin ==> r.Waited(stood)
    requires r.taken < stood.pos + SIZEOF_PACKET ==> r.Waited(stood) && (!r.Live() ==> r.CallersFault())
    ensures SaneRunIs(r, env, log, k')
  {
    hide Faithful, FiesReader.Valid, FiesReader.OnTrack, FiesReader.PacketDone, InStep, Offset, FiesReader.Stumbled,
         FiesReader.Refused, FiesReader.Standing, Following;
    k' := k;
    PacketsAreSizable(r, env, flags, log);
    StreamEnds(flags, log, k);
    if k < |log| {
      TakenFromBegin(r, env, flags, log, k, stood);
    }
    if r.Waited(stood) {
      StillThere(r, env, flags, log, k, stood);
    } else if r.Live() {
      k' := GoesOn(r, env, flags, log, k);
      FollowsToTheEnd(r, env, flags, log, k');
    }
  }

  lemma StillThere(r: FiesReader, env: Environment, flags: nat, log: seq<Packet>, k: nat, stood: Mark)
    requires Faithful(r, env, flags, log) && AllSizable(log) && k <= |log| && r.Waited(stood)
    requires stood.pos == Offset(log, k) && InStep(env, log[..k], stood.files, stood.newfile, stood.effects)
    ensures Following(r, env, log, k)
    ensures Complete(r, log) ==> InStep(env, log, r.files, r.newfile, r.effects)
  {
    hide Faithful, Known, Agree, FreshHandles, Offset, Run;
    FollowsToTheEnd(r, env, flags, log, k);
  }

  /** A step from inside of packet number `k`. */
  lemma AfterInside(r: FiesReader, env: Environment, flags: nat, log: seq<Packet>, k: nat) returns (k': nat)
    requires Faithful(r, env, flags, log) && AllSizable(log) && k < |log| && r.Valid() && r.sane
    requires r.mark.pos == Offset(log, k) && InStep(env, log[..k], r.mark.files, r.mark.newfile, r.mark.effects)
    requires r.Live() ==> r.Marked(r.mark)
    requires !r.Live() ==> r.PacketTold() && r.state != Begin && (r.Excused() || r.BodyRefused())
    ensures SaneRunIs(r, env, log, k')
  {
    hide Faithful, FiesReader.Valid, FiesReader.OnTrack, FiesReader.PacketDone, InStep, Offset, FiesReader.Excused,
         FiesReader.BodyRefused, FiesReader.PacketTold;
    k' := k;
    if r.Live() {
      k' := GoesOn(r, env, flags, log, k);
      FollowsToTheEnd(r, env, flags, log, k');
    } else {
      TakenFromInside(r, env, flags, log, k);
    }
  }

  /** The reader has not come to the end of the stream, or at least it did not read on behind it. */
  ghost predicate OnStream(r: FiesReader, log: seq<Packet>, early: bool)
    reads r
  {
    early || WithinStream(r, log)
  }

  /**
   * One step of a reader; on a faithful stream `k'` packets are handled afterwards. An early step
   * is one in front of the end of the stream.
   */
  method TakeStep(r: FiesReader, ghost env: Environment, ghost flags: nat, ghost log: seq<Packet>, ghost k: nat,
                  ghost early: bool)
    returns (ghost k': nat)
    requires r.Valid() && r.Live()
    requires Faithful(r, env, flags, log) && OnStream(r, log, early) ==> RunIs(r, env, log, k)
    requires early && Faithful(r, env, flags, log) ==> AllSizable(log) && !Complete(r, log)
    modifies r, r.buffer
    ensures r.Valid() && r.Stepped()
    ensures Faithful(r, env, flags, log) && OnStream(r, log, early) ==> RunIs(r, env, log, k')
  {
    hide Faithful, FiesReader.Valid, FiesReader.OnTrack, FiesReader.PacketDone, InStep, FiesReader.PacketTold, Bytes,
         U16Of, FiesReader.HeaderFits, FiesReader.HeaderUnfit, FiesReader.PacketFits, FiesReader.Whole,
         FiesReader.ListMoved, FiesReader.ListGoesOn, Offset, FiesReader.Stumbled, FiesReader.Refused,
         FiesReader.BodyRefused, FiesReader.ReadsWhole, Small, FiesReader.Declared, FiesReader.Marked,
         FiesReader.Waited;
    k' := k;
    r.StandsSomewhere();
    ghost var was, stood := r.state, r.Standing();
    ghost var fine := Faithful(r, env, flags, log) && OnStream(r, log, early) && r.sane;
    if fine {
      BeforeStep(r, env, flags, log, k);
    }
    var rc := r.Iterate();
    SmallIsFit(r) by { r.FitsWhenValid(); }
    if fine && OnStream(r, log, early) && r.sane {
      if was == Header {
        AfterHeader(r, env, flags, log);
      } else if was == Begin {
        k' := AfterBegin(r, env, flags, log, k, stood);
      } else {
        k' := AfterInside(r, env, flags, log, k);
      }
    }
  }

  /** What a step needs to know beforehand. */
  lemma BeforeStep(r: FiesReader, env: Environment, flags: nat, log: seq<Packet>, k: nat)
    requires r.Valid() && r.sane && Faithful(r, env, flags, log) && Following(r, env, log, k)
    ensures r.state == Header ==> r.HeaderFits(Bytes(r.input, r.Position(), SIZEOF_HEADER))
    ensures r.state != Header && r.state != Begin ==> r.PacketTold()
    ensures Small(r, r.pktType, r.pktSize)
    ensures r.state == Begin && Comfortable(r, log) ==>
              k < |log| ==> Small(r, r.Declared(r.Position()).0, r.Declared(r.Position()).1)
    ensures flags < U32 && k <= |log| && (k < |log| ==> Offset(log, k) + SIZEOF_PACKET <= Offset(log, |log|))
  {
    hide Faithful, FiesReader.Valid, FiesReader.OnTrack, InStep, FiesReader.PacketTold, Bytes, U16Of,
         FiesReader.HeaderFits, FiesReader.PacketFits, Offset, Small, FiesReader.Declared, Comfortable;
    PacketsAreSizable(r, env, flags, log);
    StreamEnds(flags, log, k);
    r.FitsWhenValid();
    SmallIsFit(r);
    if r.state == Header {
      HeaderIsFine(r, env, flags, log, k);
    } else if r.state != Begin {
      TrackedIsTold(r);
    } else if Comfortable(r, log) && k < |log| {
      DeclaredIsSmall(r, env, flags, log, k);
    }
  }

  /** A reader that follows the log and stands behind it is done with all of it. */
  lemma FollowsToTheEnd(r: FiesReader, env: Environment, flags: nat, log: seq<Packet>, k: nat)
    requires Faithful(r, env, flags, log) && Following(r, env, log, k)
    ensures AllSizable(log) && Complete(r, log) ==> InStep(env, log, r.files, r.newfile, r.effects)
  {
    hide InStep, Offset, FiesReader.HeaderFits, FiesReader.WritesAtMost;
    StreamEnds(flags, log, k);
    assert log[..|log|] == log;
  }

  lemma PacketsAreSizable(r: FiesReader, env: Environment, flags: nat, log: seq<Packet>)
    requires Faithful(r, env, flags, log)
    ensures AllSizable(log) && flags < U32
  {
  }

  lemma HeaderIsFine(r: FiesReader, env: Environment, flags: nat, log: seq<Packet>, k: nat)
    requires Faithful(r, env, flags, log) && Following(r, env, log, k) && r.state == Header
    ensures r.HeaderFits(Bytes(r.input, r.Position(), SIZEOF_HEADER))
  {
    hide PacketsBytes, Bytes, FiesReader.HeaderFits, InStep;
    var all, header, rest := StreamBytes(flags, log), StreamHeaderBytes(flags), PacketsBytes(log);
    assert all == [] + header + rest;
    BytesInside(r.input, 0, all, [], header, rest);
  }

  /** A packet of the log was not refused, whatever else ended the run. */
  lemma TakenFromBegin(r: FiesReader, env: Environment, flags: nat, log: seq<Packet>, k: nat, m: Mark)
    requires Faithful(r, env, flags, log) && k < |log| && AllSizable(log) && m.pos == Offset(log, k)
    requires InStep(env, log[..k], m.files, m.newfile, m.effects)
    ensures !r.Refused(m)
  {
    hide Holds, Known, Agree, FreshHandles, Offset, FiesReader.Refused, FiesReader.HeaderFits,
         FiesReader.WritesAtMost;
    RunPrefix(env, log, k);
    PacketIsThere(r.input, flags, log, k);
    NotRefused(r, env, Run(env, log[..k]).state, log[k], m);
  }

  lemma TakenFromInside(r: FiesReader, env: Environment, flags: nat, log: seq<Packet>, k: nat)
    requires Faithful(r, env, flags, log) && k < |log| && AllSizable(log) && r.mark.pos == Offset(log, k)
             && r.PacketTold()
    requires InStep(env, log[..k], r.mark.files, r.mark.newfile, r.mark.effects)
    ensures !r.BodyRefused()
  {
    hide Holds, Known, Agree, FreshHandles, Offset, FiesReader.BodyRefused, FiesReader.HeaderFits,
         FiesReader.WritesAtMost, FiesReader.PacketTold;
    RunPrefix(env, log, k);
    PacketIsThere(r.input, flags, log, k);
    NotRefused(r, env, Run(env, log[..k]).state, log[k], r.mark);
  }

  lemma TrackedIsTold(r: FiesReader)
    requires r.OnTrack() && r.state != Begin
    ensures r.PacketTold()
  {
    hide Bytes, U16Of, U64Of;
  }

  // ----- runs without trouble

  /** Reads are satisfied, and a payload that has to wait in the buffer fits into half of it. */
  ghost predicate Comfortable(r: FiesReader, log: seq<Packet>) {
    && r.ReadsWhole() && AllSizable(log)
    && forall i :: 0 <= i < |log| ==> Small(r, KindOf(log[i]), |BodyBytes(log[i])|)
  }

  ghost predicate Small(r: FiesReader, kind: nat, size: nat) {
    && (kind == PACKET_EXTENT ==>
          size >= SIZEOF_EXTENT
          && (r.WritesWhole() || 2 * (size - SIZEOF_EXTENT) <= BUFFER_CAPACITY))
    && (kind == PACKET_SNAPSHOTS ==> 2 * (size - SIZEOF_LIST) <= BUFFER_CAPACITY)
  }

  /** A packet begun from between packets fits the buffer. */
  lemma DeclaredIsSmall(r: FiesReader, env: Environment, flags: nat, log: seq<Packet>, k: nat)
    requires Faithful(r, env, flags, log) && Following(r, env, log, k) && r.state == Begin && Comfortable(r, log)
             && k < |log|
    ensures Small(r, r.Declared(r.Position()).0, r.Declared(r.Position()).1)
  {
    hide PacketBytes, BodyBytes, Bytes, U16Of, U64Of, Offset, InStep, FiesReader.WritesAtMost, FiesReader.WritesWhole,
         FiesReader.ReadsWhole, FiesReader.HeaderFits, Run, KindOf, StreamBytes;
    PacketIsThere(r.input, flags, log, k);
    HeldIsRead(r.input, Offset(log, k), log[k]);
    assert Small(r, KindOf(log[k]), |BodyBytes(log[k])|);
    assert Sizable(log[k]);
  }

  lemma SmallIsFit(r: FiesReader)
    requires r.Valid() && (r.sane ==> r.PacketFits())
    ensures Small(r, r.pktType, r.pktSize) <==> r.PacketFits()
  {
    r.Grounded();
    r.WindowBounds();
    hide FiesReader.Valid, FiesReader.Ground;
  }

  /**
   * Feeds a stream to a new reader. If it is one that the packet level takes, a run that keeps
   * its framing ends with an error only for the reasons in `Excused`, and when all packets were
   * handled, both levels agree. With satisfied reads and payloads that fit, framing is always kept.
   */
  method Follow(r: FiesReader, steps: nat, ghost env: Environment, ghost flags: nat, ghost log: seq<Packet>)
    returns (ghost k: nat)
    requires r.Valid() && r.Live() && r.sane && r.state == Header && Following(r, env, log, 0)
    modifies r, r.buffer
    ensures r.Valid()
    ensures Faithful(r, env, flags, log) && WithinStream(r, log) ==> RunIs(r, env, log, k)
  {
    hide Faithful, Following, WithinStream, Comfortable, FiesReader.Valid, FiesReader.Excused;
    k := 0;
    RunBegins(r, env, log);
    var i := 0;
    while i < steps && r.Live()
      invariant r.Valid()
      invariant Faithful(r, env, flags, log) && WithinStream(r, log) ==> RunIs(r, env, log, k)
    {
      k := TakeStep(r, env, flags, log, k, false);
      i := i + 1;
    }
  }

  // ----- runs that arrive

  /** Callbacks do all they are asked for, and a snapshot list fits into half of the buffer. */
  ghost predicate Eager(r: FiesReader, env: Environment, flags: nat, log: seq<Packet>) {
    Faithful(r, env, flags, log) && Comfortable(r, log) && r.Willing()
  }

  /** The reader follows the log, or it mistook the id of a FILE_END. */
  ghost predicate GoesWell(r: FiesReader, env: Environment, log: seq<Packet>, k: nat)
    reads r
  {
    && AllSizable(log) && r.sane && r.Tidy()
    && if r.Live() then Following(r, env, log, k) && (r.state == Header || r.Settled())
       else r.Mistaken() && r.packetEnd <= Offset(log, |log|)
  }

  /** A body that is handled as a whole fits the buffer if the packet level takes it. */
  lemma BodyFitsBuffer(env: Environment, s: ReaderState, p: Packet)
    requires Encodable(p) && (p.File? || p.Meta?) && Apply(env, s, p).Ok?
    ensures |BodyBytes(p)| <= BUFFER_CAPACITY
  {
    hide Opened, U32Bytes, U64Bytes, FileType;
    if p.File? {
      FileIsRead(p);
    } else {
      assert |BodyBytes(p)| == SIZEOF_META + |MetaBytes(p.meta)|;
    }
  }

  /** The packet that the reader stands in front of, or is inside of. */
  lemma PacketAhead(r: FiesReader, env: Environment, flags: nat, log: seq<Packet>, k: nat)
    requires Faithful(r, env, flags, log) && k < |log| && AllSizable(log)
    ensures var p, pos := log[k], Offset(log, k);
            && Holds(r.input, pos, p) && Run(env, log[..k]).Ok? && Apply(env, Run(env, log[..k]).state, p).Ok?
            && r.Declared(pos) == (KindOf(p), |BodyBytes(p)|)
               && pos + r.DeclaredSize(pos) == Offset(log, k + 1) <= Offset(log, |log|)
            && r.DeclaredSize(pos) >= SIZEOF_PACKET
  {
    hide Holds, PacketBytes, BodyBytes, Bytes, U16Of, U64Of, Offset, Apply, Run, KindOf, FiesReader.HeaderFits,
         FiesReader.WritesAtMost;
    PacketIsThere(r.input, flags, log, k);
    HeldIsRead(r.input, Offset(log, k), log[k]);
    RunPrefix(env, log, k);
    PacketsSplit(log, k);
    SizeOfPacket(log[k]) by { assert Sizable(log[k]); }
    StreamEnds(flags, log, k + 1);
    assert SIZEOF_PACKET + |BodyBytes(log[k])| < U64 by { assert Sizable(log[k]); }
  }

  /** With willing callbacks only a mistaken FILE_END ends a run early. */
  lemma DeathIsMistake(r: FiesReader, env: Environment, flags: nat, log: seq<Packet>, k: nat)
    requires Eager(r, env, flags, log) && AllSizable(log) && k < |log| && r.Excused()
    requires r.BodyChoked() ==> r.filled == r.at && (r.pktType, r.pktSize) == r.Declared(Offset(log, k))
    requires r.Mistaken() ==> r.packetEnd == Offset(log, k) + r.DeclaredSize(Offset(log, k))
    ensures r.Mistaken() && r.packetEnd <= Offset(log, |log|)
  {
    hide Faithful, Holds, Offset, Apply, Run, BodyBytes, Comfortable, FiesReader.Mistaken, FiesReader.Declared,
         FiesReader.DeclaredSize;
    PacketAhead(r, env, flags, log, k);
    if r.BodyChoked() {
      KindOfFile(log[k]);
      BodyFitsBuffer(env, Run(env, log[..k]).state, log[k]) by { assert Sizable(log[k]); }
    }
  }

  /** Inside of a payload, the position and the part of the payload that is done go together. */
  lemma InsidePayload(r: FiesReader)
    requires r.Valid() && r.Live() && r.sane && r.OnTrack() && (r.state == ExtentRead || r.state == SnapshotListRead)
    ensures r.Position() - r.extentAt
            == r.mark.pos + SIZEOF_PACKET + if r.state == ExtentRead then SIZEOF_EXTENT else SIZEOF_LIST
    ensures r.packetEnd == r.mark.pos + r.DeclaredSize(r.mark.pos)
    ensures r.Position() + (r.extent.length - r.extentAt) == r.packetEnd && 0 <= r.extentAt <= r.extent.length
    ensures r.pktType != PACKET_FILE && r.pktType != PACKET_META
  {
    hide Bytes, U16Of, U32Of, U64Of, ParseExtent, ExtentComplaint, FiesReader.Ground;
  }

  /** The list in the stream is one that goes on. */
  lemma ListGoesOnHere(r: FiesReader, env: Environment, flags: nat, log: seq<Packet>, k: nat)
    requires Faithful(r, env, flags, log) && r.Willing() && k < |log| && AllSizable(log) && Inside(r, env, log, k)
    requires r.Valid() && r.Live() && r.sane && r.state == SnapshotListRead
    ensures r.ListGoesOn() && r.extentAt < r.extent.length
  {
    hide Holds, Apply, Run, Known, Agree, FreshHandles, Offset, FiesReader.Valid, BodyBytes, Bytes, U16Of, U32Of,
         U64Of, ListBytes, FiesReader.ListMoved, GoodList;
    var p := log[k];
    PacketAhead(r, env, flags, log, k);
    KindOfFile(p);
    InsidePayload(r);
    ListIsWhole(r, env, Run(env, log[..k]).state, p);
    InList(r);
  }

  lemma InList(r: FiesReader)
    requires r.Valid() && r.Live() && r.state == SnapshotListRead
    ensures r.extentAt < r.extent.length || r.extentAt == 0
  {
    hide FiesReader.Ground, FiesReader.RefsOk, FiesReader.Framed, FiesReader.Roomy, FiesReader.ListTo,
         FiesReader.DataOk;
  }

  lemma ListIsWhole(r: FiesReader, env: Environment, s: ReaderState, p: Packet)
    requires Holds(r.input, r.mark.pos, p) && r.PacketTold() && r.pktType == PACKET_SNAPSHOTS && Apply(env, s, p).Ok?
    requires r.extent.length == (r.pktSize - SIZEOF_LIST) % U64
    ensures GoodList(Bytes(r.input, r.mark.pos + SIZEOF_PACKET + SIZEOF_LIST, r.extent.length)) && r.extent.length > 0
  {
    hide BodyBytes, Bytes, U16Of, U32Of, U64Of, ListBytes, NamesOk, EndsInName, Apply, GoodList;
    HeldIsRead(r.input, r.mark.pos, p);
    KindOfFile(p);
    ListIsRead(p);
    RestOfHeld(r.input, r.mark.pos, p, SIZEOF_LIST);
    LastNameIsThere(env, s, p);
    ListIsGood(p.names);
    GoodListIsNotEmpty(ListBytes(p.names));
  }

  lemma LastNameIsThere(env: Environment, s: ReaderState, p: Packet)
    requires p.SnapshotList? && Encodable(p) && Apply(env, s, p).Ok?
    ensures NamesOk(p.names) && EndsInName(p.names)
  {
  }

  /** How a step goes on from where it began. */
  twostate lemma EagerFromHeader(r: FiesReader, new env: Environment, new flags: nat, new log: seq<Packet>, new k: nat,
                                 new k': nat)
    requires Eager(r, env, flags, log) && old(r.state) == Header && old(Following(r, env, log, k)) && r.HeaderStep()
             && r.sane
    requires r.HeaderFits(Bytes(r.input, 0, SIZEOF_HEADER)) && (r.Live() ==> Following(r, env, log, k'))
    ensures GoesWell(r, env, log, k') && r.Live() && r.Position() > old(r.Position())
  {
    hide Faithful, Comfortable, FiesReader.HeaderFits, FiesReader.Willing, FiesReader.ReadsWhole, Bytes;
    r.WillingIsWhole();
  }

  twostate lemma EagerFromBegin(r: FiesReader, new env: Environment, new flags: nat, new log: seq<Packet>, new k: nat,
                                new k': nat)
    requires Eager(r, env, flags, log) && AllSizable(log) && k < |log| && old(r.Position()) == Offset(log, k)
             && r.BeginStep() && r.sane
    requires r.Valid() && (if r.Live() then Following(r, env, log, k') else r.Excused())
    ensures GoesWell(r, env, log, k') && (r.Live() ==> r.Position() > old(r.Position()))
  {
    hide Faithful, Comfortable, FiesReader.Willing, FiesReader.ReadsWhole, FiesReader.Valid, FiesReader.OnTrack,
         FiesReader.PacketDone, FiesReader.Refused, FiesReader.Mistaken, FiesReader.BodyChoked,
         FiesReader.CallersFault, Following, FiesReader.Declared, FiesReader.DeclaredSize, FiesReader.Misread,
         FiesReader.PacketFits, Offset;
    r.WillingIsWhole();
    if r.Live() {
      MarkedIsBehind(r, old(r.Standing()));
    } else {
      DeathIsMistake(r, env, flags, log, k);
    }
  }

  lemma MarkedIsBehind(r: FiesReader, m: Mark)
    requires r.Valid() && r.Live() && r.sane && r.Settled() && r.Marked(m)
    ensures r.Position() > m.pos
  {
    hide FiesReader.Valid, FiesReader.OnTrack, FiesReader.PacketDone;
    if r.state == Begin {
      AtPacketEnd(r);
      SizeIsTold(r);
    } else {
      InsidePayload(r);
    }
  }

  lemma SizeIsTold(r: FiesReader)
    requires r.PacketDone()
    ensures r.DeclaredSize(r.mark.pos) >= SIZEOF_PACKET
  {
    hide Bytes, U16Of, U64Of;
  }

  /** Where the reader is inside of the payload of packet number `k`, and that something is left of it. */
  ghost predicate InPayload(r: FiesReader, log: seq<Packet>, k: nat)
    requires AllSizable(log) && k <= |log|
    reads r
  {
    && r.mark.pos == Offset(log, k) && r.OnTrack()
    && (r.state == ExtentRead || (r.state == SnapshotListRead && r.ListGoesOn())) && r.extentAt < r.extent.length
    && r.Position() - r.extentAt == r.mark.pos + SIZEOF_PACKET
       + (if r.state == ExtentRead then SIZEOF_EXTENT else SIZEOF_LIST)
    && r.Position() + (r.extent.length - r.extentAt) == r.packetEnd == r.mark.pos + r.DeclaredSize(r.mark.pos)
    && r.pktType != PACKET_FILE && r.pktType != PACKET_META
  }

  twostate lemma EagerFromInside(r: FiesReader, new env: Environment, new flags: nat, new log: seq<Packet>, new k: nat,
                                 new k': nat)
    requires Eager(r, env, flags, log) && AllSizable(log) && k < |log| && old(InPayload(r, log, k))
    requires r.InsideStep() && r.sane && r.Valid() && (if r.Live() then Following(r, env, log, k') else r.Excused())
    ensures GoesWell(r, env, log, k') && (r.Live() ==> r.Position() > old(r.Position()))
  {
    hide Faithful, Comfortable, FiesReader.Willing, FiesReader.ReadsWhole, FiesReader.Valid, FiesReader.OnTrack,
         FiesReader.PacketDone, FiesReader.BodyRefused, FiesReader.Mistaken, FiesReader.Choked,
         FiesReader.CallersFault, Following, FiesReader.DeclaredSize, FiesReader.Misread, FiesReader.ListMoved,
         FiesReader.ListGoesOn, FiesReader.Whole, Offset;
    if !r.Live() {
      DeathIsMistake(r, env, flags, log, k);
    } else if r.state == Begin {
      AtPacketEnd(r);
    } else {
      InsidePayload(r);
    }
  }

  /** What an eager step needs to know beforehand. */
  lemma BeforeEager(r: FiesReader, env: Environment, flags: nat, log: seq<Packet>, k: nat)
    requires Eager(r, env, flags, log) && r.Valid() && r.Live() && GoesWell(r, env, log, k) && !Complete(r, log)
    ensures RunIs(r, env, log, k)
    ensures AllSizable(log) && k <= |log|
    ensures r.state == Header ==> r.HeaderFits(Bytes(r.input, 0, SIZEOF_HEADER))
    ensures r.state == Begin ==> k < |log| && r.Position() == Offset(log, k)
    ensures r.state != Header && r.state != Begin ==> k < |log| && InPayload(r, log, k)
  {
    hide Faithful, FiesReader.Valid, FiesReader.OnTrack, FiesReader.HeaderFits, FiesReader.Willing,
         FiesReader.ReadsWhole, FiesReader.ListGoesOn, FiesReader.DeclaredSize, InStep, Run, Offset, Bytes,
         Comfortable;
    FollowsToTheEnd(r, env, flags, log, k);
    if r.state == Header {
      HeaderIsFine(r, env, flags, log, k);
    } else if r.state != Begin {
      InsidePayload(r);
      if r.state == SnapshotListRead {
        ListGoesOnHere(r, env, flags, log, k);
      } else {
        r.InCore();
        r.InPayload();
      }
    }
  }

  /** One step of a reader in front of the end of the stream; an eager one makes progress. */
  method TakeEarlyStep(r: FiesReader, ghost env: Environment, ghost flags: nat, ghost log: seq<Packet>, ghost k: nat,
                       ghost eager: bool)
    returns (ghost k': nat)
    requires r.Valid() && r.Live()
    requires Faithful(r, env, flags, log) ==> RunIs(r, env, log, k) && !Complete(r, log)
    requires eager ==> Eager(r, env, flags, log) && GoesWell(r, env, log, k)
    modifies r, r.buffer
    ensures r.Valid()
    ensures Faithful(r, env, flags, log) ==> RunIs(r, env, log, k')
    ensures eager ==> GoesWell(r, env, log, k') && (r.Live() ==> r.Position() > old(r.Position()))
  {
    hide Faithful, FiesReader.Valid, FiesReader.OnTrack, FiesReader.HeaderFits, FiesReader.Willing, InPayload,
         Following, FiesReader.HeaderStep, FiesReader.BeginStep, FiesReader.InsideStep, Offset, Bytes,
         FiesReader.Excused, Complete, InStep;
    if eager {
      BeforeEager(r, env, flags, log, k);
    }
    ghost var fine := Faithful(r, env, flags, log);
    k' := TakeStep(r, env, flags, log, k, fine);
    if eager {
      AfterEager(r, env, flags, log, k, k');
    }
  }

  /** What an eager step achieved. */
  twostate lemma AfterEager(r: FiesReader, new env: Environment, new flags: nat, new log: seq<Packet>, new k: nat,
                            new k': nat)
    requires Eager(r, env, flags, log) && AllSizable(log) && k <= |log| && r.Stepped() && r.Valid()
             && RunIs(r, env, log, k')
    requires old(r.state) == Header ==> old(Following(r, env, log, k)) && r.HeaderFits(Bytes(r.input, 0, SIZEOF_HEADER))
    requires old(r.state) == Begin ==> k < |log| && old(r.Position()) == Offset(log, k)
    requires old(r.state) != Header && old(r.state) != Begin ==> k < |log| && old(InPayload(r, log, k))
    ensures GoesWell(r, env, log, k') && (r.Live() ==> r.Position() > old(r.Position()))
  {
    hide Faithful, FiesReader.Valid, FiesReader.HeaderFits, FiesReader.Willing, InPayload, Following,
         FiesReader.HeaderStep, FiesReader.BeginStep, FiesReader.InsideStep, Offset, Bytes, FiesReader.Excused,
         Complete, InStep, FiesReader.Tidy, FiesReader.Mistaken, FiesReader.Settled;
    if old(r.state) == Header {
      EagerFromHeader(r, env, flags, log, k, k');
    } else if old(r.state) == Begin {
      EagerFromBegin(r, env, flags, log, k, k');
    } else {
      EagerFromInside(r, env, flags, log, k, k');
    }
  }

  /** A reader that follows the log does not stand behind it. */
  lemma WithinLog(r: FiesReader, env: Environment, flags: nat, log: seq<Packet>, k: nat)
    requires Faithful(r, env, flags, log) && r.Valid() && r.Live() && GoesWell(r, env, log, k)
    ensures r.Position() <= Offset(log, |log|)
    ensures Complete(r, log) ==> InStep(env, log, r.files, r.newfile, r.effects) && r.taken == Offset(log, |log|)
  {
    hide Faithful, FiesReader.Valid, FiesReader.OnTrack, FiesReader.DeclaredSize, InStep, Run, Offset, Bytes;
    PacketsAreSizable(r, env, flags, log);
    FollowsToTheEnd(r, env, flags, log, k);
    StreamEnds(flags, log, k);
    if r.state != Header && r.state != Begin {
      InsidePayload(r);
      PacketAhead(r, env, flags, log, k);
    }
  }

  /**
   * Feeds a stream to a new reader until `end` bytes of it are consumed. With willing callbacks and
   * enough steps the reader comes to the end of the stream, has handled all packets, and took no
   * byte behind the last one, unless it mistook the id of a FILE_END, which does not happen as
   * long as the stream fits the buffer.
   */
  method FollowToEnd(r: FiesReader, steps: nat, end: nat, ghost env: Environment, ghost flags: nat,
                     ghost log: seq<Packet>)
    returns (ghost k: nat)
    requires r.Valid() && r.Live() && r.sane && r.Tidy() && r.state == Header && Following(r, env, log, 0)
    requires AllSizable(log) && end == Offset(log, |log|)
    modifies r, r.buffer
    ensures r.Valid()
    ensures Faithful(r, env, flags, log) ==> RunIs(r, env, log, k)
    ensures Eager(r, env, flags, log) && steps > end ==>
              if r.Live() then Complete(r, log) && r.taken == end && InStep(env, log, r.files, r.newfile, r.effects)
              else r.Mistaken() && end + SIZEOF_FILE_END > BUFFER_CAPACITY
  {
    hide Faithful, Following, Comfortable, FiesReader.Valid, FiesReader.Excused, FiesReader.Willing, InStep, Offset;
    k := 0;
    RunBegins(r, env, log);
    r.StandsSomewhere();
    ghost var eager := Eager(r, env, flags, log);
    var i := 0;
    while i < steps && r.Live() && !(r.state == Begin && r.taken == end + (r.filled - r.at))
      invariant r.Valid()
      invariant Faithful(r, env, flags, log) ==> RunIs(r, env, log, k)
      invariant eager ==> GoesWell(r, env, log, k) && (r.Live() ==> i <= r.Position())
      decreases steps - i
    {
      k := TakeEarlyStep(r, env, flags, log, k, eager);
      i := i + 1;
    }
    if eager && r.Live() {
      WithinLog(r, env, flags, log, k);
    }
  }

  lemma RunBegins(r: FiesReader, env: Environment, log: seq<Packet>)
    requires r.Live() && r.sane && r.state == Header && Following(r, env, log, 0)
    ensures RunIs(r, env, log, 0)
  {
  }

  lemma NewReaderFollows(r: FiesReader, env: Environment, log: seq<Packet>)
    requires AllSizable(log) && r.state == Header && r.Position() == 0 && r.files == map[] && r.effects == []
             && r.newfile == None
    ensures Following(r, env, log, 0)
  {
    Beginning(env, log);
  }
}
