/** The resumable stream reader, byte by byte (lib/fies_reader.c). */
module Reader {
  import opened Common
  import opened Protocol

  // ----- constants

  const SIZEOF_HEADER: nat := 12
  const SIZEOF_PACKET: nat := 16
  const SIZEOF_EXTENT: nat := 24
  const SIZEOF_SOURCE: nat := 12
  const SIZEOF_FILE_END: nat := 4
  const SIZEOF_LIST: nat := 8
  const SIZEOF_ENTRY: nat := 2
  const SIZEOF_OWNER: nat := 8
  const SIZEOF_TIME: nat := 12

  const PACKET_END: nat := 1
  const PACKET_FILE: nat := 2
  const PACKET_META: nat := 3
  const PACKET_EXTENT: nat := 4
  const PACKET_FILE_END: nat := 5
  const PACKET_SNAPSHOTS: nat := 6

  const META_END: nat := 1
  const META_OWNER: nat := 2
  const META_TIME: nat := 3
  const META_XATTR: nat := 5

  const EIO: int := 5
  const EAGAIN: int := 11
  const EFAULT: int := 14
  const EINVAL: int := 22
  const ENAMETOOLONG: int := 36
  const ENOTSUP: int := 95
  const ENOBUFS: int := 105

  // ----- data

  datatype State =
    | Header | Begin | NewFileGet | NewFileCreate | FileMetaGet | FileMetaDo | FileEndGet | SnapshotListGet
    | ExtentGet | ExtentStart | ExtentGetCopyInfo | ExtentRead | ExtentZeroOut | ExtentPunchHole
    | SnapshotListRead | Botched

  /** One name for every place that throws. */
  datatype Complaint =
    | Underflow | CapacityExceeded | ReadFailed | ReadMisbehaved | Overrun
    | BadMagic | BadVersion | MissingFlags | RejectedFlags
    | BadPacketMagic | BadPacketSize | MissingMetas | StrayMeta | FileTooLarge | BadFileEndSize
    | BadListPacket | BadPacketType
    | DuplicateId | UnknownLinkTarget | UnexpectedLink | NoLinkTarget | BadLinkLength | UnknownFileType
    | TruncatedFile | BadNameLength | NotSupported | CreateFailed
    | BadMetaId | MetaFileDisappeared | BadMetaType | BadMetaSize | BadXAttrData
    | EndFileDisappeared | FinishFailed
    | UnknownExtentFile | ExtentTooLong | BadExtentFlags | BadZeroSize | BadHoleSize | BadCopySize | BadExtentKind
    | BadDataSize
    | DroppedFile | NoWriteCallback | WriteFailed | WriteMisbehaved | SendMisbehaved | BufferingFailed
    | NoPunchCallback | PunchFailed | UnknownSource | NoCloneCallback | CloneFailed
    | UnknownListFile | BadListSize | NameTooLong | OversizedList
    | BotchedState | Unknown

  /** A known file; the handle of the receiver is 0 if there is none. */
  datatype Entry = Entry(id: nat, size: nat, mode: nat, handle: nat)

  datatype ExtentHeader = ExtentHeader(file: nat, flags: nat, offset: nat, length: nat)

  /** How a handler ends: it returns a code, or it jumps back to the main loop. */
  datatype Result = Return(rc: int) | Jump

  datatype Made = NoCallback | Made(rc: int, handle: nat)

  /**
   * The callbacks. Each answer may depend on the number of the call, so that a callback can do
   * anything; a call that moves bytes is also told how many are wanted.
   */
  datatype Funcs = Funcs(
    read: (nat, nat) -> int,
    make: (nat, nat) -> Made,
    meta: (nat, nat) -> Option<int>,
    pwrite: Option<(nat, nat) -> int>,
    send: Option<(nat, nat) -> int>,
    punch: Option<nat -> int>,
    clone: Option<nat -> int>,
    finish: Option<nat -> int>,
    snapshots: Option<nat -> int>)

  /** What the receiver was made to do. */
  datatype Effect =
    | Created(id: nat, mode: nat, size: nat, name: seq<byte>, link: seq<byte>, node: Option<NodeId>, handle: nat)
    | Linked(handle: nat, name: seq<byte>)
    | Wrote(handle: nat, offset: nat, data: seq<byte>)
    | Sent(handle: nat, offset: nat, data: seq<byte>)
    | Zeroed(handle: nat, offset: nat, length: nat)
    | Punched(handle: nat, offset: nat, length: nat)
    | Cloned(handle: nat, offset: nat, source: nat, sourceOffset: nat, length: nat)
    | Listed(handle: nat, names: seq<seq<byte>>)
    | Described(handle: nat, kind: nat, data: seq<byte>)
    | Finished(handle: nat)

  /** Where a packet begins in the stream, and what was known and done by then. */
  datatype Mark = Mark(pos: nat, effects: seq<Effect>, files: map<nat, Entry>, newfile: Option<Entry>)

  // ----- the stream

  type Stream = nat -> byte

  function Bytes(input: Stream, from: nat, n: nat): (r: seq<byte>)
    ensures |r| == n
  {
    seq(n, i requires 0 <= i < n => input(from + i))
  }

  lemma BytesSplit(input: Stream, from: nat, m: nat, n: nat)
    ensures Bytes(input, from, m + n) == Bytes(input, from, m) + Bytes(input, from + m, n)
  {
  }

  // ----- little endian numbers

  function U16Of(b: seq<byte>, i: nat): (r: nat)
    requires i + 2 <= |b|
    ensures r < 0x1_0000
  {
    b[i] as int + 0x100 * b[i + 1] as int
  }

  function U32Of(b: seq<byte>, i: nat): (r: nat)
    requires i + 4 <= |b|
    ensures r < U32
  {
    U16Of(b, i) + 0x1_0000 * U16Of(b, i + 2)
  }

  function U64Of(b: seq<byte>, i: nat): (r: nat)
    requires i + 8 <= |b|
    ensures r < U64
  {
    U32Of(b, i) + U32 * U32Of(b, i + 4)
  }

  // ----- bodies of packets

  datatype FileHeader = FileHeader(id: nat, mode: nat, size: nat, name: seq<byte>, link: seq<byte>)

  /** The body holds the names it announces. */
  predicate HasNames(b: seq<byte>): (r: bool)
    ensures r ==> SIZEOF_FILE <= |b|
  {
    SIZEOF_FILE <= |b| && SIZEOF_FILE + U16Of(b, 16) + U16Of(b, 18) <= |b|
  }

  function ParseFile(b: seq<byte>): FileHeader
    requires HasNames(b)
  {
    var n, l := U16Of(b, 16), U16Of(b, 18);
    FileHeader(U32Of(b, 0), U32Of(b, 4), U64Of(b, 8), b[SIZEOF_FILE..SIZEOF_FILE + n],
               b[SIZEOF_FILE + n..SIZEOF_FILE + n + l])
  }

  /** The device numbers as they are read: eight bytes behind the place where the name begins. */
  function NodeOf(b: seq<byte>): NodeId
    requires SIZEOF_FILE + 2 * SIZEOF_DEVICE <= |b|
  {
    NodeId(U32Of(b, SIZEOF_FILE + SIZEOF_DEVICE), U32Of(b, SIZEOF_FILE + SIZEOF_DEVICE + 4))
  }

  /** The numbers were read from the packet and, if the name is short, from what lies behind it. */
  ghost predicate NodeFrom(b: seq<byte>, node: Option<NodeId>) {
    node.Some? && exists behind: seq<byte> {:trigger b + behind} ::
      SIZEOF_FILE + 2 * SIZEOF_DEVICE <= |b + behind| && node.value == NodeOf(b + behind)
  }

  function ParseExtent(b: seq<byte>): (e: ExtentHeader)
    requires SIZEOF_EXTENT <= |b|
    ensures e.offset < U64 && e.length < U64
  {
    ExtentHeader(U32Of(b, 0), U32Of(b, 4), U64Of(b, 8), U64Of(b, 16))
  }

  // ----- tiling

  /** Writes and sends to one file that carry `bytes` to offset `offset`, in order, without gap or overlap. */
  ghost predicate Carried(pieces: seq<Effect>, handle: nat, offset: nat, bytes: seq<byte>) {
    if pieces == [] then bytes == []
    else
      var n := |pieces| - 1;
      var last := pieces[n];
      && (last.Wrote? || last.Sent?) && last.handle == handle
      && |last.data| <= |bytes|
      && last.offset == (offset + (|bytes| - |last.data|)) % U64
      && last.data == bytes[|bytes| - |last.data|..]
      && Carried(pieces[..n], handle, offset, bytes[..|bytes| - |last.data|])
  }

  lemma {:induction false} CarriedStep(pieces: seq<Effect>, handle: nat, offset: nat, bytes: seq<byte>, e: Effect)
    requires Carried(pieces, handle, offset, bytes)
    requires (e.Wrote? || e.Sent?) && e.handle == handle && e.offset == (offset + |bytes|) % U64
    ensures Carried(pieces + [e], handle, offset, bytes + e.data)
  {
    assert (pieces + [e])[..|pieces|] == pieces;
    assert (bytes + e.data)[..|bytes|] == bytes;
  }

  /** Zero writes to one file that cover `n` bytes from offset `offset` on, in order, without gap or overlap. */
  ghost predicate Blanked(pieces: seq<Effect>, handle: nat, offset: nat, n: nat) {
    if pieces == [] then n == 0
    else
      var k := |pieces| - 1;
      var last := pieces[k];
      && last.Zeroed? && last.handle == handle && last.length <= n
      && last.offset == (offset + (n - last.length)) % U64
      && Blanked(pieces[..k], handle, offset, n - last.length)
  }

  lemma {:induction false} BlankedStep(pieces: seq<Effect>, handle: nat, offset: nat, n: nat, k: nat)
    requires Blanked(pieces, handle, offset, n)
    ensures Blanked(pieces + [Zeroed(handle, (offset + n) % U64, k)], handle, offset, n + k)
  {
    assert (pieces + [Zeroed(handle, (offset + n) % U64, k)])[..|pieces|] == pieces;
  }

  /** A receiver without a handle is told nothing. */
  function ToldTo(handle: nat, e: Effect): seq<Effect> {
    if handle == 0 then [] else [e]
  }

  /** `b` ends with `part`. */
  ghost predicate EndsWith(b: seq<Effect>, part: seq<Effect>) {
    |part| <= |b| && b[|b| - |part|..] == part
  }

  lemma EndsWithStep(b: seq<Effect>, part: seq<Effect>, e: Effect)
    requires EndsWith(b, part)
    ensures EndsWith(b + [e], part + [e])
  {
  }

  /** Files are never forgotten or changed. */
  ghost predicate Grows(a: map<nat, Entry>, b: map<nat, Entry>) {
    forall k :: k in a ==> k in b && b[k] == a[k]
  }

  /** One more piece with the next bytes of the stream. */
  lemma {:induction false} CarriedMore(input: Stream, start: nat, n: nat, k: nat, pieces: seq<Effect>, handle: nat,
                                       offset: nat, e: Effect)
    requires Carried(pieces, handle, offset, Bytes(input, start, n))
    requires (e.Wrote? || e.Sent?) && e.handle == handle && e.offset == (offset + n) % U64
             && e.data == Bytes(input, start + n, k)
    ensures Carried(pieces + [e], handle, offset, Bytes(input, start, n + k))
  {
    BytesSplit(input, start, n, k);
    CarriedStep(pieces, handle, offset, Bytes(input, start, n), e);
  }

  // ----- snapshot lists

  /** The entry of one name: its length in 16 bits, little endian, and its bytes. */
  function EntryBytes(name: seq<byte>): seq<byte>
    requires |name| <= 0xFFFF
  {
    [|name| % 256, |name| / 256] + name
  }

  /** The bytes of a list whose last name is not empty, which the reader takes. */
  ghost predicate GoodList(bytes: seq<byte>) {
    exists names {:trigger NamesOk(names)} :: NamesOk(names) && EndsInName(names) && ListBytes(names) == bytes
  }

  /** The list has a last name, and that is not empty. */
  predicate EndsInName(names: seq<seq<byte>>) {
    names != [] && names[|names| - 1] != []
  }

  ghost predicate NamesOk(names: seq<seq<byte>>) {
    forall i :: 0 <= i < |names| ==> |names[i]| <= 0xFFFF
  }

  function ListBytes(names: seq<seq<byte>>): seq<byte>
    requires forall i :: 0 <= i < |names| ==> |names[i]| <= 0xFFFF
  {
    if names == [] then []
    else ListBytes(names[..|names| - 1]) + EntryBytes(names[|names| - 1])
  }

  lemma {:induction false} ListConcat(a: seq<seq<byte>>, b: seq<seq<byte>>)
    requires NamesOk(a) && NamesOk(b)
    ensures NamesOk(a + b) && ListBytes(a + b) == ListBytes(a) + ListBytes(b)
  {
    hide EntryBytes;
    if b == [] {
      assert a + b == a;
    } else {
      var n := |b| - 1;
      FrontOfConcat(a, b);
      ListConcat(a, b[..n]);
      Associates(ListBytes(a), ListBytes(b[..n]), EntryBytes(b[n]));
    }
  }

  lemma FrontOfConcat(a: seq<seq<byte>>, b: seq<seq<byte>>)
    requires b != []
    ensures (a + b)[..|a + b| - 1] == a + b[..|b| - 1] && (a + b)[|a + b| - 1] == b[|b| - 1]
  {
  }

  lemma ListOfOne(name: seq<byte>)
    requires |name| <= 0xFFFF
    ensures NamesOk([name]) && ListBytes([name]) == EntryBytes(name)
  {
    assert [name][..0] == [];
  }

  /** The first entry tells where it ends. */
  lemma {:induction false} ListFront(names: seq<seq<byte>>)
    requires NamesOk(names) && names != []
    ensures NamesOk(names[1..])
    ensures ListBytes(names) == EntryBytes(names[0]) + ListBytes(names[1..])
  {
    assert names == [names[0]] + names[1..];
    ListOfOne(names[0]);
    ListConcat([names[0]], names[1..]);
  }

  /** Entries are a prefix code: a list whose bytes begin another one's is a prefix of it. */
  lemma {:induction false} ListPrefix(a: seq<seq<byte>>, b: seq<seq<byte>>)
    requires NamesOk(a) && NamesOk(b) && ListBytes(a) <= ListBytes(b)
    ensures a <= b
  {
    if a != [] {
      ListFront(a);
      if b != [] {
        ListFront(b);
        var x, y := ListBytes(a), ListBytes(b);
        assert x[0] == y[0] && x[1] == y[1];
        assert |a[0]| == |b[0]|;
        EntryOf(x, a[0], ListBytes(a[1..]));
        EntryOf(y, b[0], ListBytes(b[1..]));
        assert x[..2 + |a[0]|] == y[..2 + |b[0]|];
        ListPrefix(a[1..], b[1..]);
        assert a == [a[0]] + a[1..] && b == [b[0]] + b[1..];
      }
    }
  }

  lemma EntryOf(bytes: seq<byte>, name: seq<byte>, rest: seq<byte>)
    requires |name| <= 0xFFFF && bytes == EntryBytes(name) + rest
    ensures bytes[2..2 + |name|] == name && bytes[2 + |name|..] == rest && bytes[..2 + |name|] == EntryBytes(name)
    ensures |bytes| >= 2 + |name| && U16Of(bytes, 0) == |name|
  {
  }

  /** A list can be read in one way only. */
  lemma {:induction false} ListBytesInjective(a: seq<seq<byte>>, b: seq<seq<byte>>)
    requires NamesOk(a) && NamesOk(b) && ListBytes(a) == ListBytes(b)
    ensures a == b
  {
    ListPrefix(a, b);
    ListPrefix(b, a);
  }

  lemma GoodListIsNotEmpty(bytes: seq<byte>)
    requires GoodList(bytes)
    ensures bytes != []
  {
  }

  /** What follows the names read so far in a good list. */
  lemma {:induction false} NextName(bytes: seq<byte>, read: seq<seq<byte>>, n: nat)
    requires GoodList(bytes) && NamesOk(read) && n < |bytes| && ListBytes(read) == bytes[..n]
    ensures n + 3 <= |bytes| && n + 2 + U16Of(bytes, n) <= |bytes|
  {
    hide ListBytes, EntryBytes;
    var names :| NamesOk(names) && EndsInName(names) && ListBytes(names) == bytes;
    ListPrefix(read, names);
    var rest := names[|read|..];
    assert names == read + rest;
    ListConcat(read, rest);
    NoBytes();
    FirstOfRest(rest);
    assert bytes == bytes[..n] + ListBytes(rest);
  }

  lemma NoBytes()
    ensures ListBytes([]) == []
  {
  }

  lemma {:induction false} FirstOfRest(rest: seq<seq<byte>>)
    requires NamesOk(rest) && EndsInName(rest)
    ensures |ListBytes(rest)| >= 3 && 2 + U16Of(ListBytes(rest), 0) <= |ListBytes(rest)|
  {
    ListFront(rest);
    EntryOf(ListBytes(rest), rest[0], ListBytes(rest[1..]));
  }

  lemma NumbersOfPrefix(b: seq<byte>, n: nat)
    requires n <= |b|
    ensures forall i: nat {:trigger U16Of(b, i)} :: i + 2 <= n ==> U16Of(b[..n], i) == U16Of(b, i)
    ensures forall i: nat {:trigger U32Of(b, i)} :: i + 4 <= n ==> U32Of(b[..n], i) == U32Of(b, i)
    ensures forall i: nat {:trigger U64Of(b, i)} :: i + 8 <= n ==> U64Of(b[..n], i) == U64Of(b, i)
  {
  }

  lemma NumbersInside(b: seq<byte>, from: nat, to: nat)
    requires from <= to <= |b|
    ensures forall i: nat {:trigger U32Of(b[from..to], i)} :: i + 4 <= to - from ==>
              U32Of(b[from..to], i) == U32Of(b, from + i)
  {
  }

  // ----- checks

  /** What is wrong with a FILE packet, in the order of the checks. */
  function FileComplaint(fileType: nat, known: bool, name: seq<byte>, link: seq<byte>, maxLength: nat)
    : Option<Complaint>
  {
    var extra := if fileType == M_FLNK then |link| else if IsNode(fileType) then SIZEOF_DEVICE else 0;
    if known && fileType != M_FHARD then Some(DuplicateId)
    else if fileType == M_FHARD && !known then Some(UnknownLinkTarget)
    else if fileType != M_FLNK && link != [] then Some(UnexpectedLink)
    else if fileType == M_FLNK && link == [] then Some(NoLinkTarget)
    else if fileType == M_FLNK && 0 in link then Some(BadLinkLength)
    else if !IsNode(fileType) && fileType !in {M_FLNK, M_FREG, M_FHARD, M_FDIR, M_FREF} then Some(UnknownFileType)
    else if |name| + extra > maxLength then Some(TruncatedFile)
    else if 0 in name then Some(BadNameLength)
    else None
  }

  function HeaderComplaint(h: FileHeader, files: map<nat, Entry>, maxLength: nat): Option<Complaint> {
    FileComplaint(FileType(h.mode), h.id in files, h.name, h.link, maxLength)
  }

  /** Names that do not fit the packet are complained about. */
  lemma CutNamesAreNoticed(h: FileHeader, files: map<nat, Entry>, maxLength: nat)
    ensures |h.name| + |h.link| > maxLength ==> HeaderComplaint(h, files, maxLength).Some?
  {
  }

  lemma FileComplaintIsHarmless(h: FileHeader, files: map<nat, Entry>, maxLength: nat)
    ensures var c := HeaderComplaint(h, files, maxLength);
            && (c.Some? ==> c.value !in {DroppedFile, MetaFileDisappeared, Overrun})
            && (c.None? ==> (h.id in files <==> FileType(h.mode) == M_FHARD))
  {
  }

  /** Complaints about a callback. */
  predicate IsFault(c: Complaint) {
    c in {ReadFailed, ReadMisbehaved, NotSupported, CreateFailed, FinishFailed, NoWriteCallback, WriteFailed,
          WriteMisbehaved,
          SendMisbehaved, NoPunchCallback, PunchFailed, NoCloneCallback, CloneFailed}
  }

  /** What is wrong with a packet of the given kind and size, inside of an announcement or not. */
  function PacketProblem(announcing: bool, kind: nat, size: nat): (r: Option<Complaint>)
    ensures r.Some? ==> r.value !in {DroppedFile, MetaFileDisappeared, Overrun, CapacityExceeded, EndFileDisappeared}
  {
    if announcing then if kind != PACKET_META then Some(MissingMetas) else None
    else if kind == PACKET_META then Some(StrayMeta)
    else if kind == PACKET_FILE then if size > SIZEOF_FILE + 0xFFFF then Some(FileTooLarge) else None
    else if kind == PACKET_FILE_END then if size != SIZEOF_FILE_END then Some(BadFileEndSize) else None
    else if kind == PACKET_EXTENT then None
    else if kind == PACKET_SNAPSHOTS then if size < SIZEOF_LIST then Some(BadListPacket) else None
    else Some(BadPacketType)
  }

  /** The body of a FILE packet is one the reader does not take. */
  ghost predicate FileRefused(files: map<nat, Entry>, b: seq<byte>) {
    !HasNames(b) || HeaderComplaint(ParseFile(b), files, |b| - SIZEOF_FILE).Some?
  }

  /** What is wrong with the body of a meta packet. */
  function MetaProblem(b: seq<byte>): Option<Complaint>
    requires SIZEOF_META <= |b|
  {
    var kind := U32Of(b, 0);
    if kind == META_END || kind >= META_CUSTOM then None
    else if kind == META_OWNER then if |b| != SIZEOF_META + SIZEOF_OWNER then Some(BadMetaSize) else None
    else if kind == META_TIME then if |b| != SIZEOF_META + SIZEOF_TIME then Some(BadMetaSize) else None
    else if kind == META_XATTR then
      var head := SIZEOF_META + SIZEOF_XATTR;
      if |b| < head || |b| != head + U32Of(b, SIZEOF_META) + 1 + U32Of(b, SIZEOF_META + 4) then Some(BadMetaSize)
      else
        var n := U32Of(b, SIZEOF_META);
        if b[head + n] != 0 || 0 in b[head..head + n] then Some(BadXAttrData) else None
    else Some(BadMetaType)
  }

  ghost predicate MetaRefused(newfile: Option<Entry>, b: seq<byte>) {
    |b| < SIZEOF_META || newfile.None? || U32Of(b, 4) != newfile.value.id || MetaProblem(b).Some?
  }

  ghost predicate ExtentRefused(files: map<nat, Entry>, b: seq<byte>) {
    || |b| < SIZEOF_EXTENT
    || ExtentComplaint(files, |b|, ParseExtent(b[..SIZEOF_EXTENT])).Some?
    || (ParseExtent(b[..SIZEOF_EXTENT]).flags == FL_COPY
        && (|b| < SIZEOF_EXTENT + SIZEOF_SOURCE || U32Of(b[SIZEOF_EXTENT..SIZEOF_EXTENT + SIZEOF_SOURCE], 0) !in files))
  }

  ghost predicate EndRefused(files: map<nat, Entry>, b: seq<byte>) {
    |b| < SIZEOF_FILE_END || U32Of(b, 0) !in files
  }

  ghost predicate ListRefused(files: map<nat, Entry>, b: seq<byte>) {
    |b| < SIZEOF_LIST || U32Of(b[..SIZEOF_LIST], 0) !in files || !GoodList(b[SIZEOF_LIST..])
  }

  /** The body of a packet of the given kind, which begins where `m` says, is one the reader does not take. */
  ghost predicate IsRefused(m: Mark, kind: nat, b: seq<byte>) {
    if m.newfile.Some? then MetaRefused(m.newfile, b)
    else if kind == PACKET_FILE then FileRefused(m.files, b)
    else if kind == PACKET_FILE_END then EndRefused(m.files, b)
    else if kind == PACKET_EXTENT then ExtentRefused(m.files, b)
    else kind == PACKET_SNAPSHOTS && ListRefused(m.files, b)
  }

  /** What is wrong with an extent header; the sum is one of 64 bit numbers. */
  function ExtentComplaint(files: map<nat, Entry>, pktSize: nat, e: ExtentHeader): (r: Option<Complaint>)
    ensures r.Some? ==> r.value !in {DroppedFile, MetaFileDisappeared, Overrun}
    ensures r.None? ==> e.file in files && (e.offset + e.length) % U64 <= files[e.file].size
  {
    if e.file !in files then Some(UnknownExtentFile)
    else if (e.offset + e.length) % U64 > files[e.file].size then Some(ExtentTooLong)
    else FormComplaint(pktSize, e)
  }

  /** What is wrong with an extent header, apart from its file and its range. */
  function FormComplaint(pktSize: nat, e: ExtentHeader): (r: Option<Complaint>)
    ensures r.Some? ==> r.value !in {DroppedFile, MetaFileDisappeared, Overrun}
  {
    if e.flags != Extype(e.flags) then Some(BadExtentFlags)
    else if e.flags == FL_ZERO then if pktSize != SIZEOF_EXTENT then Some(BadZeroSize) else None
    else if e.flags == FL_HOLE then if pktSize != SIZEOF_EXTENT then Some(BadHoleSize) else None
    else if e.flags == FL_COPY then if pktSize != SIZEOF_EXTENT + SIZEOF_SOURCE then Some(BadCopySize) else None
    else if e.flags != FL_DATA then Some(BadExtentKind)
    else if e.length != (pktSize - SIZEOF_EXTENT) % U64 then Some(BadDataSize)
    else None
  }

  /** The state that handles the body of an extent. */
  function BodyState(e: ExtentHeader): State {
    if e.flags == FL_ZERO then ExtentZeroOut
    else if e.flags == FL_HOLE then ExtentPunchHole
    else if e.flags == FL_COPY then ExtentGetCopyInfo
    else if e.length == 0 then Begin
    else ExtentRead
  }

  /**
   * The checks let an extent pass that leaves its file if and only if its end, as a number of 64
   * bits, wraps around into the file.
   */
  lemma SizeCheckMissesIff(files: map<nat, Entry>, pktSize: nat, e: ExtentHeader)
    requires e.file in files && files[e.file].size < U64 && e.offset < U64 && e.length < U64
    ensures ExtentComplaint(files, pktSize, e) == None && e.offset + e.length > files[e.file].size <==>
            FormComplaint(pktSize, e) == None && U64 <= e.offset + e.length <= U64 + files[e.file].size
  {
    hide FormComplaint;
  }

  /** The error the packet level names for a complaint about a FILE packet. */
  function FileError(c: Complaint): Error {
    match c
    case DuplicateId => DuplicateFileId
    case UnknownLinkTarget => HardlinkToUnknownFile
    case UnexpectedLink => NonSymlinkWithLink
    case NoLinkTarget => SymlinkWithoutTarget
    case BadLinkLength => LinkLengthMismatch
    case UnknownFileType => SpecialFile
    case TruncatedFile => TruncatedFilePacket
    case _ => NameLengthMismatch
  }

  /** On FILE packets of the right size the checks decide as the packet level does, error for error. */
  lemma FileChecksAgree(env: Environment, s: ReaderState, p: Packet)
    requires p.File? && |p.name| + |p.link| + NodeSize(p.node) <= 0xFFFF
    ensures var n := |p.name| + |p.link| + NodeSize(p.node);
            var c := FileComplaint(FileType(p.mode), p.id in s.files, p.name, p.link, n);
            var r := ApplyFile(env, s, p);
            if c.Some? then r == Throw(FileError(c.value)) else r.Ok?
  {
    hide Opened;
  }

  function BodySize(body: ExtentBody): nat {
    match body
    case NoBody => 0
    case Payload(data) => |data|
    case Source(_, _) => SIZEOF_SOURCE
  }

  /** An extent that the packet level applies passes the header checks. */
  lemma ExtentChecksAgree(s: ReaderState, files: map<nat, Entry>, e: ExtentHeader, body: ExtentBody)
    requires forall k :: k in s.files ==> k in files && files[k].size == s.files[k].size
    requires e.offset < U64 && e.length < U64 && e.offset + e.length < U64
    requires ApplyExtent(s, e.file, e.flags, e.offset, e.length, body).Ok?
    ensures ExtentComplaint(files, SIZEOF_EXTENT + BodySize(body), e) == None
  {
    hide Overwrite, Zeros;
  }

  /** The flags of a stream that the user insists on, and those the user rejects. */
  predicate HasAll(flags: nat, required: bv32)
    requires flags < U32
  {
    flags as bv32 & required == required
  }

  predicate HasAny(flags: nat, rejected: bv32)
    requires flags < U32
  {
    flags as bv32 & rejected != 0
  }

  // ----- the reader

  class FiesReader {
    const input: Stream
    const outside: Stream
    const funcs: Funcs
    const required: bv32
    const rejected: bv32
    const buffer: array<byte>
    var at: nat
    var filled: nat
    var taken: nat
    var calls: nat
    var state: State
    var eof: bool
    var errc: int
    var errstr: Option<Complaint>
    var files: map<nat, Entry>
    var newfile: Option<Entry>
    var pktType: nat
    var pktSize: nat
    var extent: ExtentHeader
    var extentAt: nat
    var snapshots: seq<seq<byte>>
    var snapshotFile: Option<Entry>
    /** Everything the receiver was made to do, and the part of it that belongs to the current extent. */
    ghost var effects: seq<Effect>
    ghost var pieces: seq<Effect>
    /** Where the current packet ends in the stream, and how things stood when it began. */
    ghost var packetEnd: nat
    ghost var mark: Mark
    /** The id of the last FILE_END was read where that packet no longer was. */
    ghost var stale: bool
    /** The numbers the last device node was made with. */
    ghost var node: Option<NodeId>
    /** No packet so far was shorter than its fixed part, and no extent header had to be resumed. */
    ghost var sane: bool

    /** Every callback is there and does what it is asked for, all of it and at once. */
    ghost predicate Willing() {
      && ReadsAll()
      && (forall n: nat, t: nat {:trigger funcs.make(n, t)} ::
            funcs.make(n, t).Made? && funcs.make(n, t).rc >= 0 && funcs.make(n, t).handle != 0)
      && funcs.pwrite.Some?
         && (forall n: nat, k: nat {:trigger funcs.pwrite.value(n, k)} :: funcs.pwrite.value(n, k) == k)
      && (funcs.send.Some? ==> forall n: nat, k: nat {:trigger funcs.send.value(n, k)} ::
         funcs.send.value(n, k) in {k, -ENOTSUP})
      && funcs.punch.Some? && (forall n: nat {:trigger funcs.punch.value(n)} :: funcs.punch.value(n) >= 0)
      && funcs.clone.Some? && (forall n: nat {:trigger funcs.clone.value(n)} :: funcs.clone.value(n) >= 0)
      && (funcs.finish.Some? ==> forall n: nat {:trigger funcs.finish.value(n)} ::
            funcs.finish.value(n) >= 0 || funcs.finish.value(n) == -ENOTSUP)
      && funcs.snapshots.Some?
    }

    ghost predicate ReadsAll() {
      forall n: nat, k: nat {:trigger funcs.read(n, k)} :: funcs.read(n, k) == k
    }

    /** The run ended because the stream did, or because a callback failed, is missing or misbehaved. */
    ghost predicate CallersFault()
      reads `errc, `errstr
    {
      !Willing() && (errc == 0 || (errstr.Some? && IsFault(errstr.value)))
    }

    /** A body that is only handled as a whole does not fit behind the part of it that is buffered. */
    ghost predicate Choked()
      reads `at, `filled, `errc, `errstr, `pktSize
    {
      errc != 0 && errstr == Some(CapacityExceeded) && filled - at < pktSize && filled - at + pktSize > BUFFER_CAPACITY
    }

    /** The id of a FILE_END was looked up elsewhere, which takes more of a stream than the buffer holds. */
    ghost predicate Mistaken()
      reads `errc, `errstr, `stale, `sane, `packetEnd
    {
      errc != 0 && errstr == Some(EndFileDisappeared) && stale
        && (sane ==> packetEnd + SIZEOF_FILE_END > BUFFER_CAPACITY)
    }

    /** Of the bodies only those of FILE and meta packets are handled as a whole. */
    ghost predicate BodyChoked()
      reads `at, `filled, `errc, `errstr, `pktType, `pktSize
    {
      Choked() && (pktType == PACKET_FILE || pktType == PACKET_META)
    }

    /** A list nobody wants to have was not read as a list. */
    ghost predicate Misread()
      reads `errc, `errstr
    {
      errc != 0 && errstr == Some(BadListSize) && funcs.snapshots.None?
    }

    /** The run ended for a reason that lies neither in the stream nor in a callback. */
    ghost predicate Stumbled()
      reads `at, `filled, `errc, `errstr, `pktType, `pktSize, `stale, `sane, `packetEnd
    {
      Mistaken() || Misread() || BodyChoked()
    }

    ghost predicate Excused()
      reads `at, `filled, `errc, `errstr, `pktType, `pktSize, `stale, `sane, `packetEnd
    {
      CallersFault() || Stumbled()
    }

    // ----- the buffer

    /** How many bytes of the stream were consumed. */
    ghost function Position(): int
      reads `at, `filled, `taken
    {
      taken - (filled - at)
    }

    /** The buffer holds the next bytes of the stream. */
    ghost predicate Window()
      reads `at, `filled, `taken, buffer
    {
      && at <= filled <= buffer.Length && filled <= taken
      && forall i {:trigger buffer[i]} :: at <= i < filled ==> buffer[i] == input(taken - filled + i)
    }

    predicate Live()
      reads `errc, `eof
    {
      errc == 0 && !eof
    }

    method Throw(err: int, msg: Complaint) returns (r: Result)
      requires err > 0 && Ground()
      requires msg != DroppedFile && msg != MetaFileDisappeared && (msg == Overrun ==> !sane)
      modifies `errc, `errstr
      ensures r.Jump? && errc == -err && errstr == Some(msg) && Ground() && !Live()
    {
      hide Window, TableOk, PacketFits;
      errc, errstr := -err, Some(msg);
      return Jump;
    }

    /** Moves the buffered bytes to the front. */
    method ShiftBuffer()
      requires Ground()
      modifies `at, `filled, buffer
      ensures Ground() && at == 0 && filled == old(filled - at)
      ensures forall k :: filled <= k < buffer.Length ==> buffer[k] == old(buffer[k])
    {
      hide TableOk, PacketFits;
      if at > 0 {
        var n := filled - at;
        var i := 0;
        while i < n
          invariant i <= n
          modifies buffer
          invariant forall k :: 0 <= k < i ==> buffer[k] == input(taken - filled + at + k)
          invariant forall k :: at + i <= k < filled ==> buffer[k] == input(taken - filled + k)
          invariant forall k :: i <= k < buffer.Length ==> buffer[k] == old(buffer[k])
        {
          buffer[i] := buffer[at + i];
          i := i + 1;
        }
        filled := n;
        at := 0;
      }
    }

    /** The read callback's bytes arrive behind the buffered ones. */
    method Receive(n: nat)
      requires Ground() && filled + n <= buffer.Length
      modifies `filled, `taken, buffer
      ensures Ground() && filled == old(filled) + n && taken == old(taken) + n
      ensures forall k :: filled <= k < buffer.Length ==> buffer[k] == old(buffer[k])
    {
      hide TableOk, PacketFits;
      var i := 0;
      while i < n
        invariant i <= n
        modifies buffer
        invariant forall k :: at <= k < filled ==> buffer[k] == input(taken - filled + k)
        invariant forall k :: filled <= k < filled + i ==> buffer[k] == input(taken - filled + k)
        invariant forall k :: filled + i <= k < buffer.Length ==> buffer[k] == old(buffer[k])
      {
        buffer[filled + i] := input(taken + i);
        i := i + 1;
      }
      filled, taken := filled + n, taken + n;
    }

    method Eat(cnt: nat, next: State) returns (r: Result)
      requires Ground() && Live()
      modifies `at, `state, `errc, `errstr
      ensures Ground()
      ensures cnt <= old(filled - at) ==>
                r == Return(0) && at == old(at) + cnt && state == next && Live()
                && errstr == old(errstr)
      ensures cnt > old(filled - at) ==>
                r.Jump? && errstr == Some(Underflow) && errc != 0 && at == old(at)
                && state == old(state)
    {
      hide TableOk, PacketFits;
      if cnt > filled - at {
        r := Throw(EFAULT, Underflow);
        return;
      }
      at, state := at + cnt, next;
      return Return(0);
    }

    /** The capped branch computes a buffer size that is too small once the buffer is more than half full. */
    ghost predicate MayOverrun(len: nat)
      reads `at, `filled, buffer
    {
      2 * (filled - at) > buffer.Length && (filled - at) + len > buffer.Length
    }

    /**
     * The capped branch asks for no bytes at all if the buffer is half full, and takes that for the end
     * of the stream.
     */
    ghost predicate AsksForNothing(len: nat)
      reads `at, `filled, buffer
    {
      2 * (filled - at) == buffer.Length && (filled - at) + len > buffer.Length
    }

    /** The read callback delivers all that is asked for, or the run ends. */
    ghost predicate ReadsWhole() {
      forall n: nat, k: nat {:trigger funcs.read(n, k)} ::
        funcs.read(n, k) == k || funcs.read(n, k) == 0 || (funcs.read(n, k) < 0 && funcs.read(n, k) != -EAGAIN)
    }

    /** Buffering `len` bytes moves those that are there to the front. */
    predicate Shifts(len: nat)
      reads `at, `filled
    {
      filled - at < len && at > 0 && filled + len > BUFFER_CAPACITY
    }

    /** Moves what is buffered to the front if the space behind it is too small. */
    method MakeRoom(len: nat)
      requires Ground() && filled - at < len
      modifies `at, `filled, buffer
      ensures Ground() && filled - at == old(filled - at)
      ensures at == if old(Shifts(len)) then 0 else old(at)
      ensures filled + len > buffer.Length ==> at == 0
      ensures forall k :: filled <= k < buffer.Length ==> buffer[k] == old(buffer[k])
    {
      hide Ground;
      WindowBounds();
      if filled + len > buffer.Length {
        ShiftBuffer();
      }
    }

    /** Takes up to `need` bytes from the read callback. */
    method Fetch(need: nat) returns (r: Result)
      requires Ground() && Live() && (sane ==> filled + need <= buffer.Length)
      modifies `filled, `taken, `calls, `eof, `errc, `errstr, buffer
      ensures Ground() && Position() == old(Position())
      ensures r.Return? ==> Live() && errstr == old(errstr) && r.rc != 0
      ensures r.Return? && r.rc > 0 ==> r.rc <= need && filled == old(filled) + r.rc
      ensures r.Return? && r.rc < 0 ==> r.rc == -EAGAIN
      ensures r.Return? && ReadsWhole() ==> r.rc == need
      ensures r.Jump? || r.rc < 0 ==> filled == old(filled)
      ensures r.Jump? ==> !Live() && (errc == 0 || errstr in {Some(ReadFailed), Some(ReadMisbehaved), Some(Overrun)})
      ensures errc == 0 ==> errstr == old(errstr)
      ensures r.Jump? ==> CallersFault() || (errc == 0 && need == 0) || (errc != 0 && errstr == Some(Overrun))
      ensures r.Jump? && errc != 0 && errstr == Some(Overrun) ==> filled + need > buffer.Length
      ensures ReadsAll() && r.Jump? ==> if errc == 0 then need == 0 else filled + need > buffer.Length
      ensures ReadsAll() && r.Return? ==> 0 < need <= buffer.Length - old(filled)
      ensures taken >= old(taken)
      ensures forall k :: filled <= k < buffer.Length ==> buffer[k] == old(buffer[k])
    {
      hide Ground;
      WindowBounds();
      var rc := funcs.read(calls, need);
      calls := calls + 1;
      if rc < 0 {
        if rc == -EAGAIN {
          return Return(rc);
        }
        r := Throw(-rc, ReadFailed);
        return;
      }
      if rc == 0 {
        eof := true;
        return Jump;
      }
      if rc > need {
        r := Throw(EIO, ReadMisbehaved);
        return;
      }
      if filled + rc > buffer.Length {
        r := Throw(EFAULT, Overrun);
        return;
      }
      Receive(rc);
      return Return(rc);
    }

    lemma WindowBounds()
      requires Ground()
      ensures at <= filled <= buffer.Length == BUFFER_CAPACITY && filled <= taken && pktSize < U64
    {
    }

    /**
     * Buffers up to `len` bytes, all of them if `failShort`. It never takes a byte of the stream
     * that was not asked for.
     */
    method BufferSome(len: nat, failShort: bool) returns (r: Result)
      requires Ground() && Live() && (sane && !failShort ==> !MayOverrun(len))
      modifies `at, `filled, `taken, `calls, `eof, `errc, `errstr, buffer
      ensures Ground() && Position() == old(Position())
      ensures old(filled - at) <= filled - at
      ensures !old(MayOverrun(len)) || failShort ==>
                filled - at <= if len > old(filled - at) then len else old(filled - at)
      ensures r.Return? ==> Live() && errstr == old(errstr) && (r.rc >= 0 || r.rc == -EAGAIN)
      ensures r.Return? && r.rc >= 0 && failShort ==> filled - at >= len
      ensures r.Return? && ReadsWhole() ==> r.rc >= 0
      ensures r.Return? && r.rc >= 0 && len > 0 ==> filled - at > 0
      ensures r.Return? && ReadsWhole() && old(filled - at) + len <= buffer.Length ==> filled - at >= len
      ensures r.Jump? || (r.rc < 0 && !failShort) ==> filled - at == old(filled - at)
      ensures r.Jump? ==>
                || CallersFault() || (errc != 0 && errstr in {Some(CapacityExceeded), Some(Overrun)})
                || (errc == 0 && !failShort && old(AsksForNothing(len)))
      ensures r.Jump? ==> !Live()
      ensures r.Jump? ==>
                errc == 0
                || errstr in {Some(CapacityExceeded), Some(ReadFailed), Some(ReadMisbehaved), Some(Overrun)}
      ensures errc == 0 ==> errstr == old(errstr)
      ensures r.Jump? ==> old(filled - at) < len
      ensures r.Jump? && errc != 0 && errstr == Some(CapacityExceeded) <==>
                failShort && old(filled - at) < len && old(filled - at) + len > buffer.Length
      ensures r.Jump? && errc != 0 && errstr == Some(Overrun) ==> !failShort && old(MayOverrun(len))
      ensures ReadsAll() && !failShort ==>
                && (r.Jump? && errc == 0 <==> old(AsksForNothing(len)))
                && (r.Jump? && errc != 0 <==> old(MayOverrun(len) && filled - at < len))
      ensures taken >= old(taken)
      ensures at == if old(Shifts(len)) then 0 else old(at)
      ensures failShort ==> forall k :: filled <= k < buffer.Length ==> buffer[k] == old(buffer[k])
    {
      hide Ground, CallersFault;
      WindowBounds();
      if filled - at >= len {
        return Return(0);
      }
      MakeRoom(len);
      if filled - at + len > buffer.Length {
        if failShort {
          r := Throw(ENOBUFS, CapacityExceeded);
          return;
        }
        r := FetchCapped(len);
        return;
      }
      var need := len - (filled - at);
      r := Fetch(need);
      if failShort && r.Return? && r.rc >= 0 && r.rc < need {
        return Return(-EAGAIN);
      }
    }

    /** The capped branch of BufferSome: it counts the buffered bytes twice. */
    method FetchCapped(len: nat) returns (r: Result)
      requires Ground() && Live() && at == 0 && filled < len && filled + len > buffer.Length
               && (sane ==> !MayOverrun(len))
      modifies `filled, `taken, `calls, `eof, `errc, `errstr, buffer
      ensures Ground() && Position() == old(Position()) && old(filled) <= filled && taken >= old(taken)
      ensures !old(MayOverrun(len)) ==> filled <= len
      ensures r.Return? ==>
                Live() && errstr == old(errstr) && (r.rc > 0 || r.rc == -EAGAIN)
                && (r.rc > 0 ==> filled > old(filled))
      ensures r.Return? && ReadsWhole() ==> r.rc > 0
      ensures r.Jump? || r.rc < 0 ==> filled == old(filled)
      ensures r.Jump? ==> !Live() && (errc == 0 || errstr in {Some(ReadFailed), Some(ReadMisbehaved), Some(Overrun)})
      ensures r.Jump? ==> CallersFault() || if errc == 0 then old(AsksForNothing(len)) else errstr == Some(Overrun)
      ensures errc == 0 ==> errstr == old(errstr)
      ensures r.Jump? && errc != 0 && errstr == Some(Overrun) ==> old(MayOverrun(len))
      ensures ReadsAll() ==>
                && (r.Jump? && errc == 0 <==> old(AsksForNothing(len)))
                && (r.Jump? && errc != 0 <==> old(MayOverrun(len)))
    {
      hide Ground, CallersFault;
      WindowBounds();
      var n := buffer.Length - filled;
      var need := (n - filled) % U64; // an unsigned difference
      r := Fetch(need);
      WindowBounds();
    }

    /** Buffers all of `len` bytes; -EAGAIN if the callback had less. */
    method BufferAtLeast(len: nat) returns (r: Result)
      requires Valid() && Live()
      requires state != ExtentRead && state != SnapshotListRead && (sane ==> len <= Ahead())
      modifies `at, `filled, `taken, `calls, `eof, `errc, `errstr, buffer
      ensures Valid() && Position() == old(Position())
      ensures r.Return? ==> Live() && (r.rc == 0 || r.rc == -EAGAIN)
      ensures r.Return? && r.rc >= 0 ==> filled - at >= len
      ensures r.Return? && ReadsWhole() ==> r.rc == 0
      ensures r.Jump? ==> !Live() && (CallersFault() || Choking(len))
      ensures r.Jump? ==> filled - at == old(filled - at) < len
      ensures old(AtMark()) ==> AtMark()
      ensures taken >= old(taken)
      ensures at == if old(Shifts(len)) then 0 else old(at)
      ensures forall k :: filled <= k < buffer.Length ==> buffer[k] == old(buffer[k])
      ensures filled - at <= if len > old(filled - at) then len else old(filled - at)
    {
      hide Valid, Ground, PacketTold, CallersFault, Willing, ReadsWhole;
      Grounded();
      WindowBounds();
      r := BufferSome(len, true);
      HeaderIsBuffered();
      if r.Return? && r.rc > 0 {
        r := Return(0);
      }
    }

    lemma WillingIsWhole()
      ensures Willing() ==> ReadsWhole() && WritesWhole() && WritesAtMost()
    {
    }

    /** There is no room for `len` bytes behind those that are buffered. */
    ghost predicate Choking(len: nat)
      reads `at, `filled, `errc, `errstr
    {
      errc != 0 && errstr == Some(CapacityExceeded) && filled - at + len > BUFFER_CAPACITY
    }

    /** Buffering what comes in front of a payload changes nothing else. */
    twostate lemma HeaderIsBuffered()
      requires old(Valid() && Live()) && state != ExtentRead && state != SnapshotListRead
      requires Ground() && Position() == old(Position())
      requires unchanged(`state, `files, `newfile, `pktType, `pktSize, `extent, `extentAt, `snapshots, `snapshotFile)
      requires unchanged(`effects, `pieces, `packetEnd, `sane)
      requires filled - at == old(filled - at) || filled - at <= Ahead() || !sane
      ensures Valid()
    {
      hide Ground;
    }

    // ----- the invariant

    /** The receiver takes every write whole, or fails for good. */
    ghost predicate WritesWhole() {
      funcs.pwrite.Some? ==>
        forall n: nat, k: nat {:trigger funcs.pwrite.value(n, k)} ::
          funcs.pwrite.value(n, k) == k || (funcs.pwrite.value(n, k) < 0 && funcs.pwrite.value(n, k) != -EAGAIN)
    }

    /**
     * The current packet is not shorter than its fixed part, and a payload that has to wait in the
     * buffer fits into half of it.
     */
    ghost predicate PacketFits()
      reads `pktType, `pktSize
    {
      && (pktType == PACKET_EXTENT ==>
            pktSize >= SIZEOF_EXTENT && (WritesWhole() || 2 * (pktSize - SIZEOF_EXTENT) <= buffer.Length))
      && (pktType == PACKET_SNAPSHOTS ==> 2 * (pktSize - SIZEOF_LIST) <= buffer.Length)
    }

    /** How far the state may read ahead. */
    ghost function Ahead(): int
      reads `state, `pktSize, `extent, `extentAt
    {
      match state
      case Header => SIZEOF_HEADER
      case Begin => SIZEOF_PACKET
      case NewFileGet | NewFileCreate | FileMetaGet | FileMetaDo | FileEndGet => pktSize
      case ExtentGet | ExtentStart => SIZEOF_EXTENT
      case ExtentGetCopyInfo => SIZEOF_SOURCE
      case SnapshotListGet => SIZEOF_LIST
      case ExtentRead | SnapshotListRead => extent.length - extentAt
      case _ => 0
    }

    /** How much of the current packet is not consumed yet. */
    ghost function Rest(): int
      reads `state, `pktSize, `extent, `extentAt
    {
      match state
      case NewFileGet | NewFileCreate | FileMetaGet | FileMetaDo | FileEndGet => pktSize
      case ExtentGet | ExtentStart | SnapshotListGet => pktSize
      case ExtentGetCopyInfo => SIZEOF_SOURCE
      case ExtentRead | SnapshotListRead => extent.length - extentAt
      case _ => 0
    }

    /** The packet ends where its header said, and nothing behind it was taken from the stream. */
    ghost predicate Framed()
      reads `state, `at, `filled, `taken, `pktType, `pktSize, `extent, `extentAt, `packetEnd
    {
      && filled - at <= Ahead()
      && (state != Header && state != Botched ==> Position() + Rest() == packetEnd)
      && (state == ExtentGet || state == ExtentStart ==> pktType == PACKET_EXTENT && pktSize >= SIZEOF_EXTENT)
      && (state == SnapshotListGet ==> pktType == PACKET_SNAPSHOTS && pktSize >= SIZEOF_LIST)
    }

    /** A payload that has to wait in the buffer fits into half of it. */
    ghost predicate Roomy()
      reads `state, `extent
    {
      && (state == ExtentRead ==> 2 * extent.length <= buffer.Length || WritesWhole())
      && (state == SnapshotListRead ==> 2 * extent.length <= buffer.Length)
    }

    /** No part of a larger payload waits in the buffer between two steps. */
    ghost predicate Drained()
      reads `state, `at, `filled, `extent
    {
      state == ExtentRead && 2 * extent.length > buffer.Length ==> filled == at
    }

    /** Files are listed under their ids, and a new file is one of them. */
    ghost predicate TableOk()
      reads `files, `newfile
    {
      && (forall k :: k in files ==> files[k].id == k && (Willing() ==> files[k].handle != 0))
      && (newfile.Some? ==> newfile.value.id in files && files[newfile.value.id] == newfile.value)
    }

    /** The files that states refer to are in the table, and the end of a file has its one size. */
    ghost predicate RefsOk()
      reads `files, `newfile, `state, `extent, `snapshotFile, `pktSize
    {
      && (state == FileEndGet ==> pktSize == SIZEOF_FILE_END)
      && (state == FileMetaGet || state == FileMetaDo ==> newfile.Some?)
      && (state == ExtentGetCopyInfo || state == ExtentRead || state == ExtentZeroOut || state == ExtentPunchHole ==>
            extent.file in files)
      && (state == SnapshotListRead ==>
            snapshotFile.Some? && snapshotFile.value.id in files
            && files[snapshotFile.value.id] == snapshotFile.value)
    }

    /** Nothing behind a packet that is done was taken from the stream. */
    ghost predicate Tidy()
      reads `at, `filled, `state, `eof, `errc, `sane
    {
      Live() && sane && state == Begin ==> filled == at
    }

    /** The part of the payload in front of `pos` was carried to the file. */
    ghost predicate DataOk(pos: int)
      reads `state, `extent, `extentAt, `files, `pieces, `effects
    {
      state == ExtentRead ==>
        && extentAt < extent.length < U64 && extentAt <= pos
        && DataTo(pos - extentAt, extentAt)
    }

    /** The first `n` bytes of the payload that begins at `start` were carried to the file. */
    ghost predicate DataTo(start: int, n: nat)
      reads `extent, `files, `pieces, `effects
    {
      && start >= 0 && EndsWith(effects, pieces)
      && (extent.file in files && files[extent.file].handle != 0 ==>
            Carried(pieces, files[extent.file].handle, extent.offset, Bytes(input, start, n)))
    }

    /** The names read so far are those of the list in front of `pos`. */
    ghost predicate ListOk(pos: int)
      reads `state, `extent, `extentAt, `snapshots
    {
      && (state != SnapshotListRead ==> snapshots == [])
      && (state == SnapshotListRead ==>
            (extentAt < extent.length || extentAt == 0) && extent.length < U64 && extentAt <= pos
              && ListTo(pos - extentAt, extentAt))
    }

    /** The names are those in the first `n` bytes of the list that begins at `start`. */
    ghost predicate ListTo(start: int, n: nat)
      reads `snapshots
    {
      && start >= 0
      && (funcs.snapshots.None? ==> snapshots == [])
      && (funcs.snapshots.Some? ==> NamesOk(snapshots) && ListBytes(snapshots) == Bytes(input, start, n))
    }

    ghost predicate Valid()
      reads `at, `filled, `taken, `state, `eof, `errc, `errstr, `files, `newfile, `pktType, `pktSize, `extent, `extentAt
      reads `snapshots, `snapshotFile, `effects, `pieces, `packetEnd, `sane, buffer
    {
      Core() && (Live() && sane ==> Drained())
    }

    ghost predicate Core()
      reads `at, `filled, `taken, `state, `eof, `errc, `errstr, `files, `newfile, `pktType, `pktSize, `extent, `extentAt
      reads `snapshots, `snapshotFile, `effects, `pieces, `packetEnd, `sane, buffer
    {
      Base() && (Live() ==> DataOk(Position()))
    }

    /** Everything but the payload that was carried so far. */
    ghost predicate Base()
      reads `at, `filled, `taken, `state, `eof, `errc, `errstr, `files, `newfile, `pktType, `pktSize, `extent, `extentAt
      reads `snapshots, `snapshotFile, `packetEnd, `sane, buffer
    {
      Steady() && (Live() ==> ListOk(Position()))
    }

    /** Everything but the payload and the names. */
    ghost predicate Steady()
      reads `at, `filled, `taken, `state, `eof, `errc, `errstr, `files, `newfile, `pktType, `pktSize, `extent, `extentAt
      reads `snapshotFile, `packetEnd, `sane, buffer
    {
      Ground() && (Live() ==> RefsOk() && (sane ==> Framed() && Roomy()))
    }

    /** What the header of the current packet declares. */
    ghost predicate PacketTold()
      reads `pktType, `pktSize, `packetEnd, `mark
    {
      && pktType == U16Of(Bytes(input, mark.pos, SIZEOF_PACKET), 2)
      && pktSize + SIZEOF_PACKET == DeclaredSize(mark.pos)
      && packetEnd == mark.pos + DeclaredSize(mark.pos)
      && PacketProblem(mark.newfile.Some?, pktType, pktSize) == None
    }

    ghost predicate Untouched()
      reads `files, `newfile, `mark
    {
      files == mark.files && newfile == mark.newfile
    }

    /** Only the header of the current packet was consumed, and nothing was done about its body. */
    ghost predicate AtMark()
      reads `at, `filled, `taken, `files, `newfile, `pktType, `pktSize, `packetEnd, `effects, `mark
    {
      Position() == mark.pos + SIZEOF_PACKET && effects == mark.effects && Untouched() && PacketTold()
    }

    /** The body of the current packet. */
    ghost function Body(): (r: seq<byte>)
      reads `pktSize, `mark
      ensures |r| == pktSize
    {
      Bytes(input, mark.pos + SIZEOF_PACKET, pktSize)
    }

    /** A FILE packet was handled. */
    ghost predicate FileDone()
      reads `files, `newfile, `effects, `pktSize, `mark, `node
    {
      && (HasNames(Body()) ==> Entered(ParseFile(Body()), mark.files, mark.newfile, mark.effects))
      && (SIZEOF_FILE <= pktSize ==> !FileRefused(mark.files, Body()))
      && (HasNames(Body()) ==> Numbered(Body()))
    }

    /** A device node has the numbers in the body of its packet; other files have none. */
    ghost predicate Numbered(b: seq<byte>)
      requires HasNames(b)
      reads `node
    {
      if IsNode(FileType(ParseFile(b).mode)) then NodeFrom(b, node) else node == None
    }

    /** A meta packet of the new file was handled; the last one ends its announcement. */
    ghost predicate MetaDone()
      reads `files, `newfile, `effects, `pktSize, `mark
    {
      var b := Body();
      && Noted(mark.effects) && pktSize <= BUFFER_CAPACITY
      && (SIZEOF_META <= pktSize ==> !MetaRefused(mark.newfile, b))
      && (SIZEOF_META <= pktSize ==>
        var kind, id := U32Of(b, 0), U32Of(b, 4);
        && mark.newfile.Some? && id == mark.newfile.value.id && id in files && files == mark.files
        && newfile == (if kind == META_END then None else mark.newfile)
        && (effects == mark.effects
            || effects == mark.effects + [Described(mark.files[id].handle, kind, b[SIZEOF_META..])])
        && (kind < META_CUSTOM && mark.files[id].handle != 0 && Listens(kind) ==>
              effects == mark.effects + [Described(mark.files[id].handle, kind, b[SIZEOF_META..])]))
    }

    /** The user wants to know about meta packets of this kind. */
    ghost predicate Listens(kind: nat) {
      forall n: nat {:trigger funcs.meta(n, kind)} :: funcs.meta(n, kind).Some?
    }

    /** At most a piece of meta data was passed on. */
    ghost predicate Noted(before: seq<Effect>)
      reads `effects
    {
      || effects == before
      || (|effects| == |before| + 1 && effects[..|before|] == before && effects[|before|].Described?)
    }

    /**
     * The end of a file was handled: the receiver of the packet's own file was told, unless the
     * id was read where the packet no longer was.
     */
    ghost predicate EndDone()
      reads `files, `newfile, `effects, `pktSize, `mark, `stale
    {
      && Untouched() && mark.effects <= effects
      && (forall i :: |mark.effects| <= i < |effects| ==> effects[i].Finished?)
      && (!stale && SIZEOF_FILE_END <= pktSize ==>
            U32Of(Body(), 0) in files && effects == mark.effects + FinishedFor(U32Of(Body(), 0)))
    }

    /** All that was done since the packet began are the pieces of its extent. */
    ghost predicate Since()
      reads `effects, `pieces, `mark
    {
      effects == mark.effects + pieces
    }

    /** The write callback never claims more than it was given. */
    ghost predicate WritesAtMost() {
      funcs.pwrite.Some? ==>
        forall n: nat, k: nat {:trigger funcs.pwrite.value(n, k)} :: funcs.pwrite.value(n, k) <= k
    }

    /** The first `n` bytes of a zero extent were zeroed. */
    ghost predicate BlankTo(n: nat)
      reads `extent, `files, `pieces
    {
      && extent.file in files && n <= extent.length < U64
      && (files[extent.file].handle != 0 ==> Blanked(pieces, files[extent.file].handle, extent.offset, n))
    }

    /** The current extent is the one in the stream, and as much of it was done as the state says. */
    ghost predicate ExtentMoved()
      reads `at, `filled, `taken, `state, `extent, `extentAt, `files, `effects, `pieces, `mark, `pktSize
    {
      var body := mark.pos + SIZEOF_PACKET + SIZEOF_EXTENT;
      && extent == ParseExtent(Bytes(input, mark.pos + SIZEOF_PACKET, SIZEOF_EXTENT))
      && ExtentComplaint(files, pktSize, extent) == None && extent.file in files
      && (state == Begin || state == BodyState(extent))
      && match state
         case ExtentZeroOut => Position() == body && Since() && (WritesAtMost() ==> BlankTo(extentAt))
         case ExtentPunchHole | ExtentGetCopyInfo => Position() == body && effects == mark.effects
         case ExtentRead => Position() - extentAt == body && Since()
         case Begin => ExtentDone(body)
         case _ => false
    }

    /** All of the current extent, whose body begins at `body`, was done. */
    ghost predicate ExtentDone(body: nat)
      requires extent.file in files
      reads `extent, `files, `effects, `pieces, `mark
    {
      var handle := files[extent.file].handle;
      if extent.flags == FL_ZERO then Since() && (WritesAtMost() ==> BlankTo(extent.length))
      else if extent.flags == FL_HOLE then
        effects == mark.effects + ToldTo(handle, Punched(handle, extent.offset, extent.length))
      else if extent.flags == FL_COPY then
        var source := Bytes(input, body, SIZEOF_SOURCE);
        && U32Of(source, 0) in files
        && effects == mark.effects + ToldTo(handle, Cloned(handle, extent.offset, files[U32Of(source, 0)].handle,
                                                           U64Of(source, 4), extent.length))
      else if extent.length == 0 then effects == mark.effects
      else Since() && Whole(body)
    }

    lemma BodyBegins()
      requires extent == ParseExtent(Bytes(input, mark.pos + SIZEOF_PACKET, SIZEOF_EXTENT)) && extent.file in files
      requires ExtentComplaint(files, pktSize, extent) == None
      requires state == BodyState(extent) && extentAt == 0 && pieces == [] && effects == mark.effects
      requires Position() == mark.pos + SIZEOF_PACKET + SIZEOF_EXTENT
      ensures ExtentMoved()
    {
      hide Bytes, U32Of, ExtentComplaint;
      assert mark.effects + [] == mark.effects;
    }

    /** What holds even after an error. */
    ghost predicate Ground()
      reads `at, `filled, `taken, `errstr, `files, `newfile, `pktType, `pktSize, `sane, buffer
    {
      && Window() && buffer.Length == BUFFER_CAPACITY
      && TableOk() && pktSize < U64
      && errstr != Some(DroppedFile) && errstr != Some(MetaFileDisappeared)
      && (sane ==> PacketFits() && errstr != Some(Overrun))
    }

    constructor (input: Stream, outside: Stream, funcs: Funcs, required: bv32, rejected: bv32)
      ensures Valid() && state == Header && files == map[] && Position() == 0 && sane && Live()
      ensures newfile == None && pktType == 0 && effects == [] && fresh(buffer)
      ensures this.input == input && this.funcs == funcs && this.required == required && this.rejected == rejected
      ensures this.outside == outside && at == filled == taken == 0 && snapshots == [] && errstr == None
      ensures buffer.Length == BUFFER_CAPACITY
      ensures forall i :: 0 <= i < buffer.Length ==> buffer[i] == 0
    {
      this.input, this.outside, this.funcs, this.required, this.rejected := input, outside, funcs, required, rejected;
      buffer := new byte[BUFFER_CAPACITY](_ => 0);
      at, filled, taken, calls := 0, 0, 0, 0;
      state, eof, errc, errstr := Header, false, 0, None;
      files, newfile, pktType, pktSize := map[], None, 0, 0;
      extent, extentAt := ExtentHeader(0, 0, 0, 0), 0;
      snapshots, snapshotFile := [], None;
      effects, pieces, packetEnd, sane := [], [], 0, true;
      mark, stale, node := Mark(0, [], map[], None), false, None;
    }

    /** What memory holds at the given place; behind the buffer it is anything. */
    function Memory(from: nat, n: nat): (r: seq<byte>)
      reads buffer
      ensures |r| == n
    {
      seq(n, i requires 0 <= i < n reads buffer =>
        if from + i < buffer.Length then buffer[from + i] else outside(from + i))
    }

    lemma MemoryIsStream(n: nat)
      requires Ground() && n <= filled - at
      ensures Memory(at, n) == Bytes(input, Position(), n)
    {
    }

    /** Consumes the last `cnt` bytes of a packet, which are buffered. */
    method EatLast(cnt: nat) returns (r: Result)
      requires Ground() && Live()
      requires sane ==> filled - at <= cnt && Position() + cnt == packetEnd
      requires snapshots == []
      modifies `at, `state, `errc, `errstr
      ensures Valid() && (r.Return? <==> Live()) && (r.Return? ==> r.rc == 0)
      ensures Live() ==> state == Begin && Position() == old(Position()) + cnt
      ensures r.Jump? ==> errstr == Some(Underflow)
      ensures cnt <= old(filled - at) <==> r.Return?
      ensures r.Jump? ==> state == old(state) && at == old(at)
      ensures Tidy()
    {
      hide Ground, Bytes;
      r := Eat(cnt, Begin);
    }

    /** The packet is done. */
    method Finish()
      requires Ground() && Live() && snapshots == []
      requires sane ==> filled == at && Position() == packetEnd
      modifies `state
      ensures Valid() && state == Begin
      ensures Tidy()
    {
      hide Ground, Bytes;
      state := Begin;
    }

    // ----- header and files

    /** The magic string, version 1, and flags the user can live with. */
    predicate HeaderFits(hdr: seq<byte>)
      requires |hdr| == SIZEOF_HEADER
    {
      && hdr[..4] == [0x46, 0x49, 0x45, 0x53] && U32Of(hdr, 4) == 1
      && HasAll(U32Of(hdr, 8), required) && !HasAny(U32Of(hdr, 8), rejected)
    }

    /** A step of a reader that waits for the header of the stream. */
    twostate predicate HeaderStep()
      reads this
    {
      && effects == old(effects) && files == old(files) && newfile == old(newfile)
      && (pktType, pktSize, sane) == old((pktType, pktSize, sane)) && old(Position()) >= 0
      && (Live() ==>
            if state == Header then Position() == old(Position()) && !ReadsWhole()
            else
              && state == Begin && Position() == old(Position()) + SIZEOF_HEADER
              && HeaderFits(Bytes(input, old(Position()), SIZEOF_HEADER)))
      && Tidy()
      && (!Live() ==> state != Begin && (CallersFault() || !HeaderFits(Bytes(input, old(Position()), SIZEOF_HEADER))))
    }

    method ReadHeader() returns (r: Result)
      requires Valid() && Live() && state == Header
      modifies `at, `filled, `taken, `calls, `eof, `errc, `errstr, `state, `packetEnd, buffer
      ensures Valid() && (r.Return? <==> Live()) && HeaderStep()
      ensures taken >= old(taken)
    {
      hide Valid, Ground, Bytes, HeaderFits, Memory, ReadsWhole, CallersFault;
      InHeader();
      r := BufferAtLeast(SIZEOF_HEADER);
      if r.Jump? || r.rc < 0 {
        return;
      }
      r := TakeHeader();
    }

    /** Checks the stream header, which is buffered, and consumes it. */
    method TakeHeader() returns (r: Result)
      requires Valid() && Live() && state == Header && SIZEOF_HEADER <= filled - at && Position() >= 0
      modifies `at, `errc, `errstr, `state, `packetEnd
      ensures Valid() && (r.Return? <==> Live()) && (r.Return? ==> r.rc == 0)
      ensures Live() <==> HeaderFits(Bytes(input, old(Position()), SIZEOF_HEADER))
      ensures if Live() then state == Begin && Position() == old(Position()) + SIZEOF_HEADER else state == Header
      ensures Tidy()
    {
      hide Valid, Ground, Bytes, HeaderFits, Memory;
      InHeader();
      MemoryIsStream(SIZEOF_HEADER);
      r := CheckHeader(Memory(at, SIZEOF_HEADER));
      if r.Jump? {
        DeadIsValid();
        return;
      }
      packetEnd := Position() + SIZEOF_HEADER;
      r := EatLast(SIZEOF_HEADER);
    }

    lemma InHeader()
      requires Valid() && Live() && state == Header
      ensures Ground() && snapshots == [] && (sane ==> filled - at <= SIZEOF_HEADER) && Position() >= 0
    {
      hide TableOk, PacketFits;
    }

    /** The four checks of the stream header. */
    method CheckHeader(hdr: seq<byte>) returns (r: Result)
      requires Ground() && Live() && |hdr| == SIZEOF_HEADER
      modifies `errc, `errstr
      ensures Ground() && (r.Return? <==> Live()) && (r.Return? ==> errstr == old(errstr))
      ensures r.Return? <==> HeaderFits(hdr)
    {
      hide Ground, HasAll, HasAny, U32Of;
      if hdr[..4] != [0x46, 0x49, 0x45, 0x53] {
        r := Throw(EINVAL, BadMagic);
        return;
      }
      if U32Of(hdr, 4) != 1 {
        r := Throw(ENOTSUP, BadVersion);
        return;
      }
      var flags := U32Of(hdr, 8);
      if !HasAll(flags, required) {
        r := Throw(EINVAL, MissingFlags);
        return;
      }
      if HasAny(flags, rejected) {
        r := Throw(EINVAL, RejectedFlags);
        return;
      }
      return Return(0);
    }

    method NewFile() returns (r: Result)
      requires Valid() && Live() && state == NewFileCreate
      modifies `files, `newfile, `calls, `effects, `at, `state, `errc, `errstr, `node
      ensures Valid() && (r.Return? <==> Live()) && (r.Return? ==> r.rc == 0)
      ensures Grows(old(files), files)
      ensures Live() ==> state == Begin && Position() == old(Position()) + pktSize
      ensures forall k :: k in files && k !in old(files) ==> files == old(files)[k := files[k]]
      ensures Live() && HasNames(Bytes(input, old(Position()), pktSize)) ==>
                Entered(ParseFile(Bytes(input, old(Position()), pktSize)), old(files), old(newfile), old(effects))
      ensures pktSize <= old(filled - at) && HasNames(Bytes(input, old(Position()), pktSize)) ==>
                var complaint := HeaderComplaint(ParseFile(Bytes(input, old(Position()), pktSize)), old(files),
                                                 pktSize - SIZEOF_FILE);
                if complaint.Some? then errc != 0 && errstr == complaint else Live() || CallersFault()
      ensures Live() && SIZEOF_FILE <= pktSize ==> !FileRefused(old(files), Bytes(input, old(Position()), pktSize))
      ensures Live() && HasNames(Bytes(input, old(Position()), pktSize)) ==>
                Numbered(Bytes(input, old(Position()), pktSize))
      ensures Live() && old(AtMark()) ==> FileDone()
      ensures !Live() && old(AtMark()) && pktSize <= old(filled - at) ==>
                CallersFault() || FileRefused(mark.files, Body())
      ensures !Live() ==> state != Begin && at == old(at)
      ensures Tidy()
    {
      hide PacketTold, CallersFault, Ground, RefsOk, Framed, Roomy, DataOk, ListOk, Grows, NodeFrom, NodeOf, FileType,
           IsNode;
      hide Bytes, HeaderComplaint, Memory, U16Of, U32Of, U64Of, HasNames, ParseFile, Entered;
      WindowBounds();
      if SIZEOF_FILE <= pktSize <= filled - at {
        LengthsAreParsed();
        if HasNames(Bytes(input, Position(), pktSize)) {
          FileIsParsed();
          NodeIsRead();
        }
      }
      var file := Memory(at, SIZEOF_FILE);
      var nameLength, linkLength := U16Of(file, 16), U16Of(file, 18);
      var name := Memory(at + SIZEOF_FILE, nameLength);
      var link := Memory(at + SIZEOF_FILE + nameLength, linkLength);
      var h := FileHeader(U32Of(file, 0), U32Of(file, 4), U64Of(file, 8), name, link);
      CutNamesAreNoticed(h, files, (pktSize - SIZEOF_FILE) % U64);
      var numbers := Memory(at + SIZEOF_FILE + SIZEOF_DEVICE, SIZEOF_DEVICE);
      r := Make(h, (pktSize - SIZEOF_FILE) % U64, NodeId(U32Of(numbers, 0), U32Of(numbers, 4)));
    }

    /** The numbers are those at their fixed place in the packet, as far as that is in the packet. */
    lemma NodeIsRead()
      requires Ground() && SIZEOF_FILE <= pktSize <= filled - at
      ensures var numbers := Memory(at + SIZEOF_FILE + SIZEOF_DEVICE, SIZEOF_DEVICE);
              NodeFrom(Bytes(input, Position(), pktSize), Some(NodeId(U32Of(numbers, 0), U32Of(numbers, 4))))
    {
      hide Bytes, U32Of;
      MemoryIsStream(pktSize);
      var head := SIZEOF_FILE + SIZEOF_DEVICE;
      var behind := Memory(at + pktSize, 2 * SIZEOF_DEVICE);
      var all := Memory(at, pktSize) + behind;
      assert all == Memory(at, pktSize + 2 * SIZEOF_DEVICE);
      assert all[head..head + SIZEOF_DEVICE] == Memory(at + head, SIZEOF_DEVICE);
      NumbersInside(all, head, head + SIZEOF_DEVICE);
    }

    /** The lengths of the names are in the packet if its fixed part is. */
    lemma LengthsAreParsed()
      requires Ground() && SIZEOF_FILE <= pktSize <= filled - at
      ensures var b, file := Bytes(input, Position(), pktSize), Memory(at, SIZEOF_FILE);
              HasNames(b) <==> SIZEOF_FILE + U16Of(file, 16) + U16Of(file, 18) <= pktSize
      ensures pktSize < U64
    {
      hide Bytes;
      MemoryIsStream(pktSize);
      var b := Bytes(input, Position(), pktSize);
      assert Memory(at, SIZEOF_FILE) == b[..SIZEOF_FILE];
      NumbersOfPrefix(b, SIZEOF_FILE);
    }

    /** Checks the header of a file, which has `maxLength` bytes for its names, and has it created. */
    method Make(h: FileHeader, maxLength: nat, numbers: NodeId) returns (r: Result)
      requires Valid() && Live() && state == NewFileCreate
      modifies `files, `newfile, `calls, `effects, `at, `state, `errc, `errstr, `node
      ensures Live() ==> node == if IsNode(FileType(h.mode)) then Some(numbers) else None
      ensures Valid() && (r.Return? <==> Live()) && (r.Return? ==> r.rc == 0)
      ensures Grows(old(files), files)
      ensures Live() ==> state == Begin && Position() == old(Position()) + pktSize && pktSize <= old(filled - at)
      ensures forall k :: k in files && k !in old(files) ==> files == old(files)[k := files[k]]
      ensures Live() ==> Entered(h, old(files), old(newfile), old(effects))
      ensures HeaderComplaint(h, old(files), maxLength).Some? ==>
                errc != 0 && errstr == HeaderComplaint(h, old(files), maxLength)
      ensures r.Jump? && HeaderComplaint(h, old(files), maxLength).None? ==>
                var made := funcs.make(old(calls), FileType(h.mode));
                || (errstr == Some(Underflow) && pktSize > old(filled - at))
                || (errstr == Some(NotSupported)
                   && (made.NoCallback? || (h.id in old(files) && old(files)[h.id].handle == 0)))
                || (errstr == Some(CreateFailed) && made.Made? && made.rc < 0)
      ensures r.Jump? && HeaderComplaint(h, old(files), maxLength).None? && pktSize <= old(filled - at) ==>
                CallersFault()
      ensures !Live() ==> state != Begin && at == old(at)
      ensures Tidy()
    {
      hide Valid, Ground, Grows, HeaderComplaint, FileType, Entered, IsNode, Willing, CallersFault;
      GrowsItself(files);
      Grounded();
      FileComplaintIsHarmless(h, files, maxLength);
      r := CheckFile(h, maxLength);
      if r.Jump? {
        DeadIsValid();
        return;
      }
      var handle;
      r, handle := Create(FileType(h.mode));
      if r.Jump? {
        DeadIsValid();
        return;
      }
      node := if IsNode(FileType(h.mode)) then Some(numbers) else None;
      r := Enter(Entry(h.id, h.size, h.mode, handle), h.name, h.link);
    }

    /** The checks of a FILE packet; the file that a hard link names needs a handle. */
    method CheckFile(h: FileHeader, maxLength: nat) returns (r: Result)
      requires Ground() && Live()
      modifies `errc, `errstr
      ensures Ground() && (r.Return? <==> Live()) && (r.Return? ==> errstr == old(errstr))
      ensures HeaderComplaint(h, files, maxLength).Some? ==> errc != 0 && errstr == HeaderComplaint(h, files, maxLength)
      ensures r.Jump? && HeaderComplaint(h, files, maxLength).None? ==>
                errstr == Some(NotSupported) && h.id in files && files[h.id].handle == 0 && CallersFault()
    {
      hide Ground, HeaderComplaint, FileType, Willing;
      HandlesAreGiven();
      FileComplaintIsHarmless(h, files, maxLength);
      var complaint := HeaderComplaint(h, files, maxLength);
      if complaint.Some? {
        r := Throw(if complaint.value == UnknownFileType then EFAULT else EINVAL, complaint.value);
        return;
      }
      if FileType(h.mode) == M_FHARD && files[h.id].handle == 0 {
        r := Throw(ENOTSUP, NotSupported);
        return;
      }
      return Return(0);
    }

    /** Has a file of the given type created, or a link made. */
    method Create(fileType: nat) returns (r: Result, handle: nat)
      requires Ground() && Live()
      modifies `calls, `errc, `errstr
      ensures Ground() && (r.Return? <==> Live()) && (r.Return? ==> errstr == old(errstr))
      ensures r.Return? && Willing() ==> handle != 0
      ensures r.Jump? ==>
                var made := funcs.make(old(calls), fileType);
                if made.NoCallback? then errstr == Some(NotSupported) else made.rc < 0 && errstr == Some(CreateFailed)
      ensures r.Jump? ==> errc != 0 && CallersFault()
    {
      hide Ground;
      var made := funcs.make(calls, fileType);
      calls := calls + 1;
      handle := 0;
      if made.NoCallback? {
        r := Throw(ENOTSUP, NotSupported);
        return;
      }
      if made.rc < 0 {
        r := Throw(-made.rc, CreateFailed);
        return;
      }
      return Return(made.rc), made.handle;
    }

    /** What follows from a FILE packet with body `h`. */
    ghost predicate Entered(h: FileHeader, files0: map<nat, Entry>, newfile0: Option<Entry>, effects0: seq<Effect>)
      reads `files, `newfile, `effects, `node
    {
      && h.id in files && (h.id in files0 <==> FileType(h.mode) == M_FHARD)
      && if FileType(h.mode) == M_FHARD then
           files == files0 && newfile == None && effects == effects0 + [Linked(files[h.id].handle, h.name)]
         else
           var entry := Entry(h.id, h.size, h.mode, files[h.id].handle);
           && files == files0[h.id := entry]
           && newfile == (if FileType(h.mode) == M_FREF then newfile0 else Some(entry))
           && effects == effects0 + [Created(h.id, h.mode, h.size, h.name, h.link, node, entry.handle)]
    }

    lemma FileIsParsed()
      requires Ground() && pktSize <= filled - at && HasNames(Bytes(input, Position(), pktSize))
      ensures var h, file := ParseFile(Bytes(input, Position(), pktSize)), Memory(at, SIZEOF_FILE);
              var n, l := U16Of(file, 16), U16Of(file, 18);
              && h == FileHeader(U32Of(file, 0), U32Of(file, 4), U64Of(file, 8),
                                 Memory(at + SIZEOF_FILE, n), Memory(at + SIZEOF_FILE + n, l))
              && SIZEOF_FILE <= pktSize < U64
    {
      hide U32Of, U64Of, Bytes;
      MemoryIsStream(pktSize);
      var b := Bytes(input, Position(), pktSize);
      var file := Memory(at, SIZEOF_FILE);
      assert file == b[..SIZEOF_FILE];
      NumbersOfPrefix(b, SIZEOF_FILE);
    }

    /** Enters a file that was created, or notes the hard link. */
    method Enter(entry: Entry, name: seq<byte>, link: seq<byte>) returns (r: Result)
      requires Valid() && Live() && state == NewFileCreate
      requires (entry.id in files <==> FileType(entry.mode) == M_FHARD) && (Willing() ==> entry.handle != 0)
      modifies `files, `newfile, `effects, `at, `state, `errc, `errstr
      ensures Valid() && (r.Return? <==> Live()) && (r.Return? ==> r.rc == 0)
      ensures Grows(old(files), files)
      ensures Live() ==> state == Begin && Position() == old(Position()) + pktSize
      ensures pktSize <= old(filled - at) <==> Live()
      ensures r.Jump? ==> errstr == Some(Underflow) && at == old(at)
      ensures files == old(files) || files == old(files)[entry.id := entry]
      ensures Entered(FileHeader(entry.id, entry.mode, entry.size, name, link), old(files), old(newfile), old(effects))
      ensures !Live() ==> state != Begin
      ensures Tidy()
    {
      hide Valid, Ground, FileType, Entered;
      AtWholeBody();
      Record(entry, name, link);
      r := EatLast(pktSize);
    }

    /** The part of Enter that changes the table. */
    method Record(entry: Entry, name: seq<byte>, link: seq<byte>)
      requires Ground() && (Willing() ==> entry.handle != 0)
      requires entry.id in files <==> FileType(entry.mode) == M_FHARD
      modifies `files, `newfile, `effects
      ensures Ground() && Grows(old(files), files)
      ensures files == old(files) || files == old(files)[entry.id := entry]
      ensures Entered(FileHeader(entry.id, entry.mode, entry.size, name, link), old(files), old(newfile), old(effects))
    {
      hide Window, PacketFits, FileType, Willing;
      var fileType := FileType(entry.mode);
      if fileType == M_FHARD {
        newfile, effects := None, effects + [Linked(files[entry.id].handle, name)];
      } else {
        files := files[entry.id := entry];
        effects := effects + [Created(entry.id, entry.mode, entry.size, name, link, node, entry.handle)];
        if fileType != M_FREF {
          newfile := Some(entry);
        }
      }
    }

    /** The part of a packet that the next state needs is buffered. */
    method MoveOn(next: State)
      requires Valid() && Live()
      requires (state, next) in {(NewFileGet, NewFileCreate), (FileMetaGet, FileMetaDo), (ExtentGet, ExtentStart)}
      modifies `state
      ensures Valid() && state == next
    {
      hide Ground, Bytes;
      state := next;
    }

    method GetNewFile() returns (r: Result)
      requires Valid() && Live() && state == NewFileGet
      modifies `at, `filled, `taken, `calls, `eof, `errc, `errstr, `state, `files, `newfile, `effects, `node, buffer
      ensures Valid() && (r.Return? <==> Live()) && (r.Return? ==> r.rc <= 0)
      ensures Grows(old(files), files)
      ensures old(AtMark()) && Live() ==> if state == NewFileGet then AtMark() else state == Begin && FileDone()
      ensures old(AtMark()) && !Live() ==> CallersFault() || Choked() || FileRefused(mark.files, Body())
      ensures !Live() && Choked() ==> filled - at == old(filled - at)
      ensures Live() && ReadsWhole() ==> state == Begin
      ensures taken >= old(taken)
      ensures !Live() ==> state != Begin
      ensures Tidy()
    {
      hide Valid, AtMark, FileDone, FileRefused, Bytes, Grows, HasNames, Entered, HeaderComplaint, Numbered,
           CallersFault, ReadsWhole;
      GrowsItself(files);
      r := BufferAtLeast(pktSize);
      if r.Jump? || r.rc < 0 {
        return;
      }
      MoveOn(NewFileCreate);
      r := NewFile();
    }

    /**
     * The id that the handler of a FILE_END looks up: it is read where the packet stood before more
     * was buffered, so after a shift it is whatever that place of the buffer holds by now.
     */
    ghost function EndId(): nat
      requires Position() >= 0
      reads `at, `filled, `taken, buffer
    {
      if Shifts(SIZEOF_FILE_END) then U32Of(Memory(at, SIZEOF_FILE_END), 0)
      else U32Of(Bytes(input, Position(), SIZEOF_FILE_END), 0)
    }

    method GetFileEnd() returns (r: Result)
      requires Valid() && Live() && state == FileEndGet
      modifies `at, `filled, `taken, `calls, `eof, `errc, `errstr, `state, `effects, `stale, buffer
      ensures Valid() && (r.Return? <==> Live()) && (r.Return? ==> r.rc <= 0)
      ensures stale <==> old(Shifts(SIZEOF_FILE_END))
      ensures stale && sane ==> packetEnd + SIZEOF_FILE_END > BUFFER_CAPACITY
      ensures Live() && state == FileEndGet ==> effects == old(effects) && Position() == old(Position())
      ensures Live() && state != FileEndGet ==>
                && state == Begin && old(EndId()) in files
                && effects == old(effects) + FinishedFor(old(EndId()))
      // the throw marked as impossible
      ensures !Live() ==> CallersFault() || (errc != 0 && errstr == Some(EndFileDisappeared) && old(EndId()) !in files)
      ensures !Live() ==> Position() == old(Position())
      ensures ReadsWhole() && old(EndId()) !in files ==> !Live()
      ensures Live() && old(AtMark()) ==> if state == FileEndGet then AtMark() else EndDone()
      ensures !Live() && old(AtMark()) ==> CallersFault() || Mistaken() || EndRefused(files, Body())
      ensures Live() && Willing() ==> state == Begin
      ensures taken >= old(taken)
      ensures !Live() ==> state != Begin
      ensures Tidy()
    {
      hide Valid, Ground, Bytes, Memory, U32Of, PacketTold, ReadsWhole, Willing, CallersFault;
      WillingIsWhole();
      EndSize();
      var id;
      r, id := BufferEnd();
      if r.Return? && r.rc == 0 {
        r := EndFile(id);
      }
    }

    lemma EndSize()
      requires Valid() && Live() && state == FileEndGet
      ensures pktSize == SIZEOF_FILE_END && Ground() && Position() >= 0
      ensures sane ==> filled <= packetEnd
    {
      hide TableOk, PacketFits;
    }

    /** Buffers a FILE_END and reads the id from where the buffer stood before. */
    method BufferEnd() returns (r: Result, id: nat)
      requires Valid() && Live() && state == FileEndGet && pktSize == SIZEOF_FILE_END && Position() >= 0
      modifies `at, `filled, `taken, `calls, `eof, `errc, `errstr, `stale, buffer
      ensures Valid() && Position() == old(Position()) && (r.Return? <==> Live()) && (r.Return? ==> r.rc <= 0)
      ensures r.Return? && r.rc == 0 ==> id == old(EndId()) && pktSize <= filled - at
      ensures stale <==> old(Shifts(SIZEOF_FILE_END))
      ensures r.Return? && ReadsWhole() ==> r.rc == 0
      ensures r.Jump? ==> CallersFault()
      ensures taken >= old(taken)
    {
      hide Valid, Ground, Bytes, U32Of, ReadsWhole;
      Grounded();
      WindowBounds();
      var end := at;
      ghost var there := Memory(at, SIZEOF_FILE_END);
      stale := Shifts(SIZEOF_FILE_END);
      id := 0;
      r := BufferAtLeast(pktSize);
      if r.Jump? || r.rc < 0 {
        return;
      }
      Grounded();
      WindowBounds();
      if stale {
        assert Memory(end, SIZEOF_FILE_END) == there;
      } else {
        MemoryIsStream(SIZEOF_FILE_END);
      }
      id := U32Of(Memory(end, SIZEOF_FILE_END), 0);
    }

    /** What the receiver of a file is told at its end. */
    ghost function FinishedFor(id: nat): seq<Effect>
      requires id in files
      reads `files
    {
      if funcs.finish.Some? then ToldTo(files[id].handle, Finished(files[id].handle)) else []
    }

    /** Ends a file; while its receiver asks for more time the packet is not consumed. */
    method EndFile(id: nat) returns (r: Result)
      requires Valid() && Live() && state == FileEndGet && pktSize <= filled - at
      modifies `at, `calls, `errc, `errstr, `state, `effects
      ensures Valid() && (r.Return? <==> Live()) && (r.Return? ==> r.rc <= 0)
      ensures Live() && state == FileEndGet ==> effects == old(effects) && at == old(at)
      ensures Live() && state != FileEndGet ==>
                state == Begin && id in files
                && effects == old(effects) + FinishedFor(id)
      ensures r.Jump? ==> if id in files then CallersFault() else errc != 0 && errstr == Some(EndFileDisappeared)
      ensures id !in files ==> r.Jump?
      ensures r.Jump? ==> at == old(at)
      ensures Live() && Willing() ==> state == Begin
      ensures !Live() ==> state != Begin
      ensures Tidy()
    {
      hide Ground, RefsOk, Roomy, Bytes, Memory, U32Of;
      if id !in files {
        r := Throw(EFAULT, EndFileDisappeared);
        return;
      }
      r := FinishFile(files[id].handle);
      if r.Return? && r.rc == 0 {
        r := EatLast(pktSize);
      }
    }

    /** Tells the receiver that a file is complete; it may ask for more time. */
    method FinishFile(handle: nat) returns (r: Result)
      requires Ground() && Live()
      modifies `calls, `errc, `errstr, `effects
      ensures Ground() && (r.Return? <==> Live())
              && (r.Return? ==> (r.rc == 0 || r.rc == -EAGAIN) && errstr == old(errstr))
      ensures r.Return? ==>
                effects
                == old(effects) + if r.rc == 0 && funcs.finish.Some? && handle != 0 then [Finished(handle)] else []
      ensures r.Return? && Willing() ==> r.rc == 0
      ensures r.Jump? ==> CallersFault()
    {
      hide Ground;
      if funcs.finish.Some? && handle != 0 {
        var rc := funcs.finish.value(calls);
        calls := calls + 1;
        if rc == -EAGAIN {
          return Return(rc);
        }
        if rc < 0 && rc != -ENOTSUP {
          r := Throw(-rc, FinishFailed);
          return;
        }
        effects := effects + [Finished(handle)];
      }
      return Return(0);
    }

    // ----- meta packets

    /** The callback for one kind of meta data, if there is one. */
    method CallMeta(handle: nat, kind: nat, ghost data: seq<byte>) returns (rc: int)
      modifies `calls, `effects
      ensures effects
              == old(effects)
                 + if handle != 0 && funcs.meta(old(calls), kind).Some? then [Described(handle, kind, data)] else []
    {
      rc := 0;
      if handle != 0 {
        var answer := funcs.meta(calls, kind);
        calls := calls + 1;
        if answer.Some? {
          effects := effects + [Described(handle, kind, data)];
          rc := answer.value;
        }
      }
    }

    method HandleFileMeta() returns (r: Result)
      requires Valid() && Live() && state == FileMetaDo
      modifies `newfile, `calls, `at, `state, `errc, `errstr, `effects
      ensures Valid() && (r.Return? <==> Live())
      ensures Live() ==> state == Begin && Position() == old(Position()) + pktSize
      ensures newfile == old(newfile) || newfile == None
      ensures Live() ==> Noted(old(effects))
      ensures Live() && SIZEOF_META <= pktSize ==>
                var b := Bytes(input, old(Position()), pktSize);
                MetaApplied(U32Of(b, 0), U32Of(b, 4), b[SIZEOF_META..], old(newfile), old(effects), old(calls))
      ensures Live() && old(AtMark()) ==> MetaDone()
      ensures Live() && old(AtMark()) && SIZEOF_META <= pktSize ==> !MetaRefused(mark.newfile, Body())
      ensures !Live() && old(AtMark()) && pktSize <= old(filled - at) ==> MetaRefused(mark.newfile, Body())
      ensures !Live() ==> state != Begin && at == old(at)
      ensures Tidy()
    {
      hide Valid, PacketTold, Ground, Bytes, Memory, U32Of, MetaComplaint, MetaProblem;
      AtWholeBody();
      WindowBounds();
      if SIZEOF_META <= pktSize <= filled - at {
        MetaIsParsed();
        MetaIsJudged();
      }
      var meta := Memory(at, SIZEOF_META);
      r := TakeMeta(U32Of(meta, 0), U32Of(meta, 4),
                    if SIZEOF_META <= pktSize then Memory(at + SIZEOF_META, pktSize - SIZEOF_META) else []);
    }

    /** A meta packet of the given kind for file `id`, with its body. */
    method TakeMeta(kind: nat, id: nat, ghost data: seq<byte>) returns (r: Result)
      requires Valid() && Live() && state == FileMetaDo
      modifies `newfile, `calls, `at, `state, `errc, `errstr, `effects
      ensures Valid() && (r.Return? <==> Live())
      ensures Live() ==> state == Begin && Position() == old(Position()) + pktSize && pktSize <= old(filled - at)
      ensures newfile == old(newfile) || newfile == None
      ensures Live() ==>
                MetaApplied(kind, id, data, old(newfile), old(effects), old(calls))
                && old(MetaComplaint(kind)).None?
      ensures r.Jump? ==>
                || (errstr == Some(Underflow) && pktSize > old(filled - at))
                || (old(newfile).Some? && errstr.Some?
                    && errstr == if id != old(newfile).value.id then Some(BadMetaId) else old(MetaComplaint(kind)))
      ensures !Live() ==> state != Begin && at == old(at)
      ensures Tidy()
    {
      hide Valid, Ground, MetaComplaint, CallersFault;
      AtWholeBody();
      if id != newfile.value.id {
        r := Throw(EINVAL, BadMetaId);
        DeadIsValid();
        return;
      }
      if id !in files {
        assert false; // MetaFileDisappeared is never thrown
      }
      var complaint := MetaComplaint(kind);
      if complaint.Some? {
        r := Throw(EINVAL, complaint.value);
        DeadIsValid();
        return;
      }
      var retval := NoteMeta(kind, id, data);
      r := EatLast(pktSize);
      if r.Return? {
        r := Return(retval);
      }
    }

    /** The part of TakeMeta that tells the receiver, and ends the announcement. */
    method NoteMeta(kind: nat, id: nat, ghost data: seq<byte>) returns (retval: int)
      requires Ground() && newfile.Some? && newfile.value.id == id && id in files
      modifies `newfile, `calls, `effects
      ensures Ground() && MetaApplied(kind, id, data, old(newfile), old(effects), old(calls))
    {
      hide Ground;
      retval := 0;
      if kind < META_CUSTOM {
        retval := CallMeta(files[id].handle, kind, data);
      }
      if kind == META_END {
        ForgetNewFile();
      }
    }

    /** The packet was about the new file, whose receiver was told if it wants to know. */
    ghost predicate MetaApplied(kind: nat, id: nat, data: seq<byte>, newfile0: Option<Entry>, effects0: seq<Effect>,
                                calls0: nat)
      reads `newfile, `effects, `files
    {
      && newfile0.Some? && newfile0.value.id == id && id in files
      && newfile == (if kind == META_END then None else newfile0)
      && effects == effects0 + if kind < META_CUSTOM && files[id].handle != 0 && funcs.meta(calls0, kind).Some?
                               then [Described(files[id].handle, kind, data)] else []
    }

    /** The checks look at nothing but the packet. */
    lemma MetaIsJudged()
      requires Ground() && SIZEOF_META <= pktSize <= filled - at
      ensures var b := Bytes(input, Position(), pktSize); MetaComplaint(U32Of(b, 0)) == MetaProblem(b)
    {
      hide U32Of, Bytes;
      var b := Bytes(input, Position(), pktSize);
      var head := SIZEOF_META + SIZEOF_XATTR;
      MemoryIsStream(pktSize);
      if head <= pktSize {
        var xattr := Memory(at + SIZEOF_META, SIZEOF_XATTR);
        assert xattr == b[SIZEOF_META..head];
        NumbersInside(b, SIZEOF_META, head);
        var n := U32Of(xattr, 0);
        if head + n < pktSize {
          var name := Memory(at + head, n + 1);
          assert forall i :: 0 <= i <= n ==> name[i] == b[head + i];
          assert name[..n] == b[head..head + n];
        }
      }
    }

    lemma MetaIsParsed()
      requires Ground() && SIZEOF_META <= pktSize <= filled - at
      ensures var b, meta := Bytes(input, Position(), pktSize), Memory(at, SIZEOF_META);
              && U32Of(b, 0) == U32Of(meta, 0) && U32Of(b, 4) == U32Of(meta, 4)
              && b[SIZEOF_META..] == Memory(at + SIZEOF_META, pktSize - SIZEOF_META)
    {
      hide U32Of, Bytes;
      MemoryIsStream(pktSize);
      var b := Bytes(input, Position(), pktSize);
      assert Memory(at, SIZEOF_META) == b[..SIZEOF_META];
      NumbersOfPrefix(b, SIZEOF_META);
    }

    method ForgetNewFile()
      requires Ground()
      modifies `newfile
      ensures Ground() && newfile == None
    {
      newfile := None;
    }

    /** What is wrong with the body of a meta packet. */
    function MetaComplaint(kind: nat): (r: Option<Complaint>)
      reads `at, `pktSize, buffer
      ensures r.Some? ==> r.value !in {DroppedFile, MetaFileDisappeared, Overrun}
    {
      if kind == META_END || kind >= META_CUSTOM then None
      else if kind == META_OWNER then
        if pktSize != SIZEOF_META + SIZEOF_OWNER then Some(BadMetaSize) else None
      else if kind == META_TIME then
        if pktSize != SIZEOF_META + SIZEOF_TIME then Some(BadMetaSize) else None
      else if kind == META_XATTR then
        var xattr := Memory(at + SIZEOF_META, SIZEOF_XATTR);
        var nameLength, valueLength := U32Of(xattr, 0), U32Of(xattr, 4);
        var name := Memory(at + SIZEOF_META + SIZEOF_XATTR, nameLength + 1);
        if pktSize != SIZEOF_META + SIZEOF_XATTR + nameLength + 1 + valueLength then Some(BadMetaSize)
        else if name[nameLength] != 0 || 0 in name[..nameLength] then Some(BadXAttrData)
        else None
      else Some(BadMetaType)
    }

    method GetFileMeta() returns (r: Result)
      requires Valid() && Live() && state == FileMetaGet
      modifies `at, `filled, `taken, `calls, `eof, `errc, `errstr, `state, `newfile, `effects, buffer
      ensures Valid() && (r.Return? <==> Live())
      ensures old(AtMark()) && Live() ==> if state == FileMetaGet then AtMark() else state == Begin && MetaDone()
      ensures old(AtMark()) && !Live() ==> CallersFault() || Choked() || MetaRefused(mark.newfile, Body())
      ensures !Live() && Choked() ==> filled - at == old(filled - at)
      ensures Live() && ReadsWhole() ==> state == Begin
      ensures taken >= old(taken)
      ensures !Live() ==> state != Begin
      ensures Tidy()
    {
      hide Valid, AtMark, MetaDone, MetaRefused, Bytes, U32Of, CallersFault, ReadsWhole;
      r := BufferAtLeast(pktSize);
      if r.Jump? || r.rc < 0 {
        return;
      }
      MoveOn(FileMetaDo);
      r := HandleFileMeta();
    }

    // ----- extents

    /** Offers `n` bytes to the write callback; without a handle they count as written. */
    method Pwrite(handle: nat, n: nat) returns (r: Result)
      requires Ground() && Live()
      modifies `calls, `errc, `errstr
      ensures Ground() && (r.Return? <==> Live())
      ensures r.Return? ==> Live() && errstr == old(errstr) && (r.rc >= 0 || r.rc == -EAGAIN)
      ensures r.Return? && (handle == 0 || WritesWhole()) ==> r.rc == n
      ensures r.Return? && WritesAtMost() ==> r.rc <= n
      ensures r.Return? && Willing() ==> r.rc == n
      ensures r.Jump? ==> CallersFault()
    {
      hide Ground;
      if handle == 0 {
        return Return(n);
      }
      if funcs.pwrite.None? {
        r := Throw(ENOTSUP, NoWriteCallback);
        return;
      }
      var put := funcs.pwrite.value(calls, n);
      calls := calls + 1;
      if put >= 0 || put == -EAGAIN {
        return Return(put);
      }
      r := Throw(-put, WriteFailed);
    }

    method ZeroExtent() returns (r: Result)
      requires Valid() && Live() && state == ExtentZeroOut
      modifies `calls, `errc, `errstr, `effects, `pieces, `state, `extentAt
      ensures Valid() && (r.Return? <==> Live()) && (r.Return? ==> r.rc <= 0)
      ensures Live() ==> state == Begin || state == ExtentZeroOut
      ensures old(Since()) ==> Since()
      ensures Live() && WritesAtMost() && old(BlankTo(extentAt)) ==>
                BlankTo(if state == Begin then extent.length else extentAt)
      ensures Live() && Willing() ==> state == Begin
      ensures !Live() ==> CallersFault()
      ensures !Live() ==> state != Begin
      ensures Tidy()
    {
      hide Valid, Ground, Blanked, Since, Willing, CallersFault;
      AtEmptyBody();
      if extent.file !in files {
        assert false; // DroppedFile is never thrown
      }
      var handle := files[extent.file].handle;
      var remaining := (extent.length - extentAt) % U64;
      var offset := (extent.offset + extentAt) % U64;
      r := Pwrite(handle, remaining);
      if r.Jump? || r.rc < 0 {
        if r.Jump? {
          DeadIsValid();
        }
        return;
      }
      TakeZeros(handle, offset, r.rc, remaining);
      return Return(0);
    }

    /** Accounts for `put` of the `remaining` zeros. */
    method TakeZeros(handle: nat, offset: nat, put: nat, remaining: nat)
      requires Valid() && Live() && state == ExtentZeroOut && extent.file in files
               && handle == files[extent.file].handle
      modifies `effects, `pieces, `state, `extentAt
      ensures Valid() && Live() && state == if put == remaining then Begin else ExtentZeroOut
      ensures old(Since()) ==> Since()
      ensures old(BlankTo(extentAt)) && remaining == extent.length - old(extentAt) && put <= remaining
              && offset == (extent.offset + old(extentAt)) % U64 ==>
                BlankTo(if state == Begin then extent.length else extentAt)
      ensures Tidy()
    {
      hide Valid, Ground, Blanked, Since;
      Blank(handle, offset, put);
      AtEmptyBody();
      if put == remaining {
        Finish();
      } else {
        MoveZeros(put);
      }
    }

    /** Notes a zero write. */
    ghost method Blank(handle: nat, offset: nat, put: nat)
      requires Valid() && state == ExtentZeroOut
      modifies `effects, `pieces
      ensures Valid()
      ensures old(Since()) ==> Since()
      ensures pieces == old(pieces) + ToldTo(handle, Zeroed(handle, offset, put))
      ensures handle != 0 && Blanked(old(pieces), handle, extent.offset, extentAt)
              && offset == (extent.offset + extentAt) % U64 ==>
                Blanked(pieces, handle, extent.offset, extentAt + put)
    {
      hide Ground, RefsOk, Bytes;
      var e := Zeroed(handle, offset, put);
      assert old(Since()) ==> effects + ToldTo(handle, e) == mark.effects + (pieces + ToldTo(handle, e));
      if handle != 0 && Blanked(pieces, handle, extent.offset, extentAt) {
        BlankedStep(pieces, handle, extent.offset, extentAt, put);
      }
      effects, pieces := effects + ToldTo(handle, e), pieces + ToldTo(handle, e);
    }

    method MoveZeros(put: nat)
      requires Valid() && state == ExtentZeroOut
      modifies `extentAt
      ensures Valid() && extentAt == (old(extentAt) + put) % U64
    {
      extentAt := (extentAt + put) % U64;
    }

    method PunchHole() returns (r: Result)
      requires Valid() && Live() && state == ExtentPunchHole
      modifies `calls, `errc, `errstr, `effects, `state
      ensures Valid() && (r.Return? <==> Live()) && (r.Return? ==> r.rc == 0)
      ensures Live() ==> state == Begin && extent.file in files
      ensures Live() ==>
                var handle := files[extent.file].handle;
                effects == old(effects) + ToldTo(handle, Punched(handle, extent.offset, extent.length))
      ensures !Live() ==> CallersFault()
      ensures !Live() ==> state != Begin
      ensures Tidy()
    {
      hide Valid, Ground;
      AtEmptyBody();
      if extent.file !in files {
        assert false; // DroppedFile is never thrown
      }
      r := Punch(files[extent.file].handle, extent.offset, extent.length);
      if r.Jump? {
        DeadIsValid();
      } else {
        Finish();
      }
    }

    method Punch(handle: nat, offset: nat, len: nat) returns (r: Result)
      requires Ground() && Live()
      modifies `calls, `errc, `errstr, `effects
      ensures Ground() && (r.Return? <==> Live()) && (r.Return? ==> r.rc == 0)
      ensures r.Return? ==>
                errstr == old(errstr) && effects == old(effects) + ToldTo(handle, Punched(handle, offset, len))
      ensures r.Jump? ==> CallersFault()
    {
      hide Ground;
      if handle == 0 {
        return Return(0);
      }
      if funcs.punch.None? {
        r := Throw(ENOTSUP, NoPunchCallback);
        return;
      }
      var rc := funcs.punch.value(calls);
      calls := calls + 1;
      if rc < 0 {
        r := Throw(-rc, PunchFailed);
        return;
      }
      effects := effects + [Punched(handle, offset, len)];
      return Return(0);
    }

    method Clone(handle: nat, offset: nat, source: nat, sourceOffset: nat, len: nat) returns (r: Result)
      requires Ground() && Live()
      modifies `calls, `errc, `errstr, `effects
      ensures Ground() && (r.Return? <==> Live())
      ensures r.Return? ==> Live() && errstr == old(errstr) && r.rc >= 0
      ensures r.Return? ==> effects == old(effects) + ToldTo(handle, Cloned(handle, offset, source, sourceOffset, len))
      ensures r.Jump? ==> CallersFault()
    {
      hide Ground;
      if handle == 0 {
        return Return(0);
      }
      if funcs.clone.None? {
        r := Throw(ENOTSUP, NoCloneCallback);
        return;
      }
      var rc := funcs.clone.value(calls);
      calls := calls + 1;
      if rc < 0 {
        r := Throw(-rc, CloneFailed);
        return;
      }
      effects := effects + [Cloned(handle, offset, source, sourceOffset, len)];
      return Return(rc);
    }

    /** The range that the next bytes of the stream name was cloned. */
    twostate predicate Copied()
      reads this
    {
      && state == Begin && old(Position()) >= 0 && extent.file in files
      && var source, handle := Bytes(input, old(Position()), SIZEOF_SOURCE), files[extent.file].handle;
      && U32Of(source, 0) in files
      && effects == old(effects) + ToldTo(handle, Cloned(handle, extent.offset, files[U32Of(source, 0)].handle,
                                                         U64Of(source, 4), extent.length))
    }

    /** The bytes of a COPY extent are cloned from a known file. */
    method GetExtentCopyInfo() returns (r: Result)
      requires Valid() && Live() && state == ExtentGetCopyInfo
      modifies `at, `filled, `taken, `calls, `eof, `errc, `errstr, `effects, `state, buffer
      ensures Valid() && (r.Return? <==> Live()) && (r.Return? ==> r.rc <= 0)
      ensures Live() ==>
                (state == ExtentGetCopyInfo && effects == old(effects) && Position() == old(Position()))
                || Copied()
      ensures Live() && ReadsWhole() ==> state == Begin
      ensures !Live() ==> CallersFault() || U32Of(Bytes(input, old(Position()), SIZEOF_SOURCE), 0) !in files
      ensures taken >= old(taken)
      ensures !Live() ==> state != Begin
      ensures Tidy()
    {
      hide Ground, RefsOk, Roomy, DataOk, Bytes, Memory, U32Of, U64Of;
      r := BufferAtLeast(SIZEOF_SOURCE);
      if r.Jump? || r.rc < 0 {
        return;
      }
      ExtentFileIsListed();
      if extent.file !in files {
        assert false; // DroppedFile is never thrown
      }
      r := CloneExtent();
    }

    /** Clones the range of the current extent from the source in the buffer. */
    method CloneExtent() returns (r: Result)
      requires Valid() && Live() && state == ExtentGetCopyInfo && SIZEOF_SOURCE <= filled - at && extent.file in files
      modifies `at, `calls, `errc, `errstr, `effects, `state
      ensures Valid() && (r.Return? <==> Live()) && (r.Return? ==> r.rc <= 0)
      ensures Live() ==> Copied()
      ensures !Live() ==> CallersFault() || U32Of(Bytes(input, old(Position()), SIZEOF_SOURCE), 0) !in files
      ensures !Live() ==> state != Begin
      ensures Tidy()
    {
      hide Valid, Ground, Bytes, Memory, U32Of, U64Of, CallersFault;
      AtCopyInfo();
      MemoryIsStream(SIZEOF_SOURCE);
      var source := Memory(at, SIZEOF_SOURCE);
      var id := U32Of(source, 0);
      if id !in files {
        r := Throw(EFAULT, UnknownSource);
        DeadIsValid();
        return;
      }
      r := Clone(files[extent.file].handle, extent.offset, files[id].handle, U64Of(source, 4), extent.length);
      if r.Return? {
        r := EatLast(SIZEOF_SOURCE);
      } else {
        DeadIsValid();
      }
    }

    lemma ExtentFileIsListed()
      requires RefsOk() && (state == ExtentGetCopyInfo || state == ExtentRead || state == ExtentZeroOut
               || state == ExtentPunchHole)
      ensures extent.file in files
    {
    }

    /** The current DATA extent, whose payload begins at `start`, was carried to its file as a whole. */
    ghost predicate Whole(start: int)
      reads `files, `extent, `pieces, `effects
    {
      extent.file in files && DataTo(start, extent.length)
    }

    /** Accounts for the next `k` bytes of the payload. */
    ghost method Carry(e: Effect, k: nat)
      requires state == ExtentRead && DataOk(Position()) && extent.file in files
      requires files[extent.file].handle != 0 ==>
                 && e.handle == files[extent.file].handle && (e.Wrote? || e.Sent?)
                 && e.offset == (extent.offset + extentAt) % U64 && e.data == Bytes(input, Position(), k)
      modifies `effects, `pieces
      ensures DataTo(Position() - extentAt, extentAt + k)
      ensures old(Since()) ==> Since()
    {
      hide Carried, Bytes;
      assert old(Since()) ==> effects + [e] == mark.effects + (pieces + [e]);
      if files[extent.file].handle != 0 {
        CarriedMore(input, Position() - extentAt, extentAt, k, pieces, e.handle, extent.offset, e);
        EndsWithStep(effects, pieces, e);
        effects, pieces := effects + [e], pieces + [e];
      }
    }

    /** Consumes `put` carried bytes of the payload, and ends the extent with the last one. */
    method Consume(put: nat, remaining: nat) returns (r: Result)
      requires Base() && Live() && state == ExtentRead
      requires extentAt + remaining == extent.length < U64 && put <= remaining && put <= filled - at
      requires Position() - extentAt >= 0 && DataTo(Position() - extentAt, extentAt + put)
      requires sane && put < remaining && 2 * extent.length > buffer.Length ==> put == filled - at
      modifies `state, `extentAt, `at, `errc, `errstr
      ensures Valid() && Live() && r == Return(0) && filled - at == old(filled - at) - put
      ensures put == remaining ==> state == Begin && Whole(old(Position() - extentAt))
      ensures put < remaining ==>
                state == ExtentRead && extentAt == old(extentAt) + put
                && Position() == old(Position()) + put
      ensures Tidy()
    {
      hide Base, Valid, Ground, DataTo, WritesWhole;
      AtPayload();
      WindowBounds();
      r := Eat(put, ExtentRead);
      if put == remaining {
        Finish();
      } else {
        extentAt := extentAt + put;
        PayloadGoesOn();
      }
    }

    /** Hands buffered payload to the write callback. */
    method WriteBuffered(remaining: nat) returns (r: Result)
      requires Core() && Live() && state == ExtentRead && filled > at && remaining == extent.length - extentAt
      modifies `calls, `errc, `errstr, `at, `state, `extentAt, `effects, `pieces
      ensures Valid() && (r.Return? <==> Live())
      ensures r.Return? ==> r.rc == 0 || r.rc == -EAGAIN
      ensures r.Return? && state != ExtentRead ==> r.rc == 0 && state == Begin && Whole(old(Position() - extentAt))
      ensures r.Return? && state == ExtentRead ==>
                Position() - extentAt == old(Position() - extentAt)
                && extentAt >= old(extentAt)
      ensures r.Return? && state == ExtentRead && r.rc == 0 ==> filled == at && extentAt > old(extentAt)
      ensures r.Return? && Willing() ==> r.rc == 0
      ensures old(Since()) ==> Since()
      ensures !Live() ==> CallersFault()
      ensures !Live() ==> state != Begin
      ensures Tidy()
    {
      hide Valid, Core, Base, Ground, Since, DataTo, Bytes, Memory, Whole, WritesWhole, Willing;
      InPayload();
      AtPayload();
      var handle := files[extent.file].handle;
      var has := Min(filled - at, remaining);
      r := Pwrite(handle, has);
      if r.Jump? {
        DeadIsValid();
        return;
      }
      if r.rc < 0 {
        PayloadGoesOn();
        return;
      }
      if r.rc > has {
        r := Throw(EINVAL, WriteMisbehaved);
        DeadIsValid();
        return;
      }
      r := TakeWritten(handle, r.rc, remaining);
    }

    /** Accounts for `put` of the buffered bytes. */
    method TakeWritten(handle: nat, put: nat, remaining: nat) returns (r: Result)
      requires Core() && Live() && state == ExtentRead && remaining == extent.length - extentAt && put <= remaining
               && put <= filled - at
      requires extent.file in files && handle == files[extent.file].handle && filled > at
      requires handle == 0 || WritesWhole() ==> put == Min(filled - at, remaining)
      modifies `errc, `errstr, `at, `state, `extentAt, `effects, `pieces
      ensures Valid() && Live() && r.Return? && (r.rc == 0 || r.rc == -EAGAIN)
      ensures state != ExtentRead ==> r.rc == 0 && state == Begin && Whole(old(Position() - extentAt))
      ensures state == ExtentRead ==> Position() - extentAt == old(Position() - extentAt) && extentAt >= old(extentAt)
      ensures state == ExtentRead && r.rc == 0 ==> filled == at && extentAt > old(extentAt)
      ensures put == Min(old(filled - at), remaining) ==> r.rc == 0
      ensures old(Since()) ==> Since()
      ensures Tidy()
    {
      hide Since, Ground, RefsOk, ListOk, Framed, DataTo, Bytes, Memory, Whole, WritesWhole;
      WindowBounds();
      MemoryIsStream(put);
      Carry(Wrote(handle, (extent.offset + extentAt) % U64, Memory(at, put)), put);
      r := Consume(put, remaining);
      if put < remaining && filled > at { // short write
        r := Return(-EAGAIN);
      }
    }

    /** Has the next payload bytes moved straight from the stream, which must not be ahead of the payload. */
    method Send(handle: nat, n: nat) returns (r: Result)
      requires Ground() && Live() && filled == at && funcs.send.Some?
      modifies `calls, `errc, `errstr
      ensures Ground() && (r.Return? <==> Live())
      ensures r.Return? ==> Live() && errstr == old(errstr)
      ensures r.Return? && r.rc < 0 ==> r.rc == -EAGAIN || r.rc == -ENOTSUP
      ensures r.Return? && handle == 0 ==> r.rc == -ENOTSUP
      ensures r.Return? && Willing() ==> r.rc == n || r.rc == -ENOTSUP
      ensures r.Jump? ==> CallersFault()
    {
      hide Ground;
      if handle == 0 {
        return Return(-ENOTSUP);
      }
      var put := funcs.send.value(calls, n);
      calls := calls + 1;
      if put >= 0 || put == -EAGAIN || put == -ENOTSUP {
        return Return(put);
      }
      r := Throw(-put, WriteFailed);
    }

    /** Payload that the send callback took from the stream is consumed. */
    method Skip(n: nat)
      requires Ground() && filled == at
      modifies `taken
      ensures Ground() && Position() == old(Position()) + n
      ensures taken == old(taken) + n
    {
      hide TableOk, PacketFits;
      taken := taken + n;
    }

    /** Like Consume, for bytes that never were in the buffer. */
    method ConsumeSent(put: nat, remaining: nat)
      requires Base() && Live() && state == ExtentRead && filled == at
      requires extentAt + remaining == extent.length < U64 && put <= remaining
      requires Position() - extentAt >= 0 && DataTo(Position() - extentAt, extentAt + put)
      modifies `state, `extentAt, `taken
      ensures Valid() && filled == at
      ensures put == remaining ==> state == Begin && Whole(old(Position() - extentAt))
      ensures put < remaining ==>
                state == ExtentRead && extentAt == old(extentAt) + put
                && Position() == old(Position()) + put
      ensures taken == old(taken) + put
      ensures Tidy()
    {
      hide Base, Valid, Ground, DataTo, WritesWhole;
      AtPayload();
      WindowBounds();
      Skip(put);
      if put == remaining {
        Finish();
      } else {
        extentAt := extentAt + put;
        PayloadGoesOn();
      }
    }

    /** The send half; `unsupported` if the payload has to go through the buffer. */
    method SendDirect(remaining: nat) returns (r: Result, unsupported: bool)
      requires Valid() && Live() && state == ExtentRead && filled == at && remaining == extent.length - extentAt
               && funcs.send.Some?
      modifies `calls, `errc, `errstr, `taken, `state, `extentAt, `effects, `pieces
      ensures Valid() && (r.Return? <==> Live())
      ensures r.Return? && !unsupported ==> r.rc == 0 || r.rc == -EAGAIN
      ensures r.Return? && state != ExtentRead ==> r.rc == 0 && state == Begin && Whole(old(Position() - extentAt))
      ensures r.Return? && state == ExtentRead ==> Position() - extentAt == old(Position() - extentAt)
      ensures unsupported ==>
                r.Return? && state == ExtentRead && extentAt == old(extentAt) && filled == at
                && Position() == old(Position())
      ensures r.Return? && Willing() && !unsupported ==> state == Begin
      ensures old(Since()) ==> Since()
      ensures !Live() ==> CallersFault()
      ensures taken >= old(taken)
      ensures !Live() ==> state != Begin
      ensures Tidy()
    {
      hide Valid, Core, Base, Ground, Since, DataTo, Bytes, Whole, WritesWhole, Willing, Position, PacketFits;
      InCore();
      InPayload();
      unsupported := false;
      var handle := files[extent.file].handle;
      r := Send(handle, remaining);
      if r.Jump? {
        DeadIsValid();
        return;
      }
      if r.rc == -ENOTSUP {
        return r, true;
      }
      if r.rc < 0 {
        return;
      }
      if r.rc > remaining {
        r := Throw(EINVAL, SendMisbehaved);
        DeadIsValid();
        return;
      }
      Carry(Sent(handle, (extent.offset + extentAt) % U64, Bytes(input, Position(), r.rc)), r.rc);
      ConsumeSent(r.rc, remaining);
      r := Return(0);
    }

    lemma InPayload()
      requires Core() && Live() && state == ExtentRead
      ensures Base() && Ground() && extent.file in files
      ensures extentAt < extent.length < U64 && extentAt <= Position() && DataTo(Position() - extentAt, extentAt)
    {
      hide Ground, ListOk, Framed, Roomy, DataTo;
    }

    lemma InCore()
      requires Valid() || Core()
      ensures Core() && at <= filled
    {
      hide TableOk, PacketFits, RefsOk, ListOk, Framed, DataTo, Drained;
    }

    /** Carries payload to its file: through the buffer, or directly when nothing is buffered. */
    method ReadExtent() returns (r: Result)
      requires Valid() && Live() && state == ExtentRead
      modifies `at, `filled, `taken, `calls, `eof, `errc, `errstr, `state, `extentAt, `effects, `pieces, buffer
      ensures Valid() && (r.Return? <==> Live()) && (r.Return? ==> r.rc <= 0)
      ensures Live() && state != ExtentRead ==> state == Begin && Whole(old(Position() - extentAt))
      ensures Live() && state == ExtentRead ==> Position() - extentAt == old(Position() - extentAt)
      ensures Live() && Willing() ==> state == Begin || extentAt > old(extentAt)
      ensures old(Since()) ==> Since()
      ensures !Live() && sane ==> CallersFault()
      ensures taken >= old(taken)
      ensures !Live() ==> state != Begin
      ensures Tidy()
    {
      hide Valid, Core, Base, Whole, Since, Willing, CallersFault, ReadsWhole, DataTo, Ground;
      WillingIsWhole();
      InCore();
      InPayload();
      if extent.file !in files {
        assert false; // DroppedFile is never thrown
      }
      var remaining: nat := extent.length - extentAt;
      var buffered := funcs.send.None? || files[extent.file].handle == 0;
      while true
        invariant Valid() && Live() && state == ExtentRead && 0 < remaining == extent.length - extentAt
        invariant Position() - extentAt == old(Position() - extentAt)
        invariant funcs.send.None? ==> buffered
        invariant extentAt >= old(extentAt)
        invariant old(Since()) ==> Since()
        invariant taken >= old(taken)
        decreases remaining, if buffered then 0 else 1
      {
        var done;
        r, done := ReadThroughBuffer(remaining, buffered);
        if done {
          return;
        }
        remaining := extent.length - extentAt;
        var unsupported;
        r, unsupported := SendDirect(remaining);
        if !unsupported {
          return;
        }
        buffered := true;
      }
    }

    /** The half of ReadExtent that writes what is buffered, and buffers more before if it is told to. */
    method ReadThroughBuffer(remaining: nat, buffered: bool) returns (r: Result, done: bool)
      requires Valid() && Live() && state == ExtentRead && 0 < remaining == extent.length - extentAt
               && (funcs.send.None? ==> buffered)
      modifies `at, `filled, `taken, `calls, `eof, `errc, `errstr, `state, `extentAt, `effects, `pieces, buffer
      ensures Valid() && (r.Return? <==> Live()) && (r.Return? ==> r.rc <= 0)
      ensures Live() && state != ExtentRead ==> state == Begin && Whole(old(Position() - extentAt))
      ensures Live() && state == ExtentRead ==>
                Position() - extentAt == old(Position() - extentAt)
                && extentAt >= old(extentAt)
      ensures done && Live() && Willing() ==> state == Begin || extentAt > old(extentAt)
      ensures !done ==>
                && Live() && state == ExtentRead && filled == at && funcs.send.Some? && extentAt < extent.length
                && (buffered || old(filled > at) ==> extentAt > old(extentAt))
      ensures old(Since()) ==> Since()
      ensures !Live() && sane ==> CallersFault()
      ensures taken >= old(taken)
      ensures !Live() ==> state != Begin
      ensures Tidy()
    {
      hide Valid, Core, Base, Whole, Since, Willing, CallersFault, ReadsWhole, DataTo, Ground;
      WillingIsWhole();
      r, done := Return(0), true;
      if buffered {
        r := BufferPayload(remaining);
        if r.Jump? || r.rc < 0 {
          return;
        }
        if filled == at {
          assert false; // BufferingFailed is never thrown
        }
      }
      InCore();
      if filled > at {
        r := WriteBuffered(remaining);
        if r.Jump? || r.rc < 0 || state == Begin || funcs.send.None? {
          return;
        }
      }
      InCore();
      InPayload();
      r, done := Return(0), false;
    }

    /** Buffers payload; in a sane run the buffer computation cannot fail. */
    method BufferPayload(remaining: nat) returns (r: Result)
      requires Valid() && Live() && (state == ExtentRead || state == SnapshotListRead)
      requires 0 < remaining == extent.length - extentAt
      modifies `at, `filled, `taken, `calls, `eof, `errc, `errstr, buffer
      ensures Core() && (r.Return? <==> Live()) && Position() == old(Position())
      ensures r.Return? && r.rc >= 0 ==> filled > at
      ensures r.Return? && r.rc < 0 ==> r.rc == -EAGAIN
      ensures state == SnapshotListRead || r.Jump? || r.rc < 0 ==> Valid()
      ensures r.Jump? && errc != 0 ==> errstr in {Some(ReadFailed), Some(ReadMisbehaved), Some(Overrun)}
      ensures r.Jump? && sane ==> CallersFault()
      ensures r.Return? && ReadsWhole() ==> r.rc >= 0
      ensures r.Return? && ReadsWhole() && sane && state == SnapshotListRead ==> filled - at >= remaining
      ensures taken >= old(taken)
    {
      hide Valid, Core, Ground, CallersFault, ReadsWhole;
      RoomForPayload(remaining);
      r := BufferSome(remaining, false);
      MoreIsBuffered();
    }

    /** Buffering more of a payload changes nothing else. */
    twostate lemma MoreIsBuffered()
      requires old(Valid() && Live()) && (state == ExtentRead || state == SnapshotListRead)
      requires Ground() && Position() == old(Position())
      requires unchanged(`state, `files, `newfile, `pktType, `pktSize, `extent, `extentAt, `snapshots, `snapshotFile)
      requires unchanged(`effects, `pieces, `packetEnd, `sane)
      requires filled - at <= extent.length - extentAt || !sane
      ensures Core() && (state == SnapshotListRead || filled - at == old(filled - at) ==> Valid())
    {
      hide Ground, DataTo, ListTo, WritesWhole;
    }

    lemma RoomForPayload(remaining: nat)
      requires Valid() && Live() && (state == ExtentRead || state == SnapshotListRead)
               && remaining == extent.length - extentAt
      ensures sane ==> !AsksForNothing(remaining) && !MayOverrun(remaining) && filled - at <= remaining
      ensures sane && state == SnapshotListRead ==> filled - at + remaining <= buffer.Length
      ensures Ground()
    {
      hide TableOk, DataTo;
    }

    /** The current extent copies from a file nobody announced. */
    ghost predicate SourceUnknown()
      reads `extent, `files, `mark
    {
      extent.flags == FL_COPY
      && U32Of(Bytes(input, mark.pos + SIZEOF_PACKET + SIZEOF_EXTENT, SIZEOF_SOURCE), 0) !in files
    }

    predicate InBody()
      reads `state
    {
      state == ExtentZeroOut || state == ExtentPunchHole || state == ExtentGetCopyInfo || state == ExtentRead
    }

    /** Takes over the extent header and starts with the body. */
    method StartExtent() returns (r: Result)
      requires Valid() && Live() && state != SnapshotListRead && (sane ==> state == ExtentStart)
      modifies `at, `filled, `taken, `calls, `eof, `errc, `errstr, `state, `extent, `extentAt, `effects, `pieces, buffer
      ensures Valid() && (r.Return? <==> Live()) && (r.Return? ==> r.rc <= 0)
      ensures Live() ==> InBody() || state == Begin
      ensures Live() && state == Begin && BodyState(extent) == ExtentRead ==> Whole(old(Position()) + SIZEOF_EXTENT)
      ensures Live() && Willing() ==> state == Begin || state == ExtentRead
      ensures Live() && old(AtMark()) ==> ExtentMoved()
      ensures !Live() && sane && old(AtMark()) && SIZEOF_EXTENT <= old(filled - at) ==>
                CallersFault() || ExtentRefused(mark.files, Body())
      ensures taken >= old(taken)
      ensures !Live() && old(state) != Begin ==> state != Begin
      ensures Tidy()
    {
      hide Valid, Whole, AtMark, InBody, BodyState, Bytes, ParseExtent, ExtentMoved, ExtentComplaint, ExtentRefused,
           Willing, CallersFault, Position, Tidy;
      StandsSomewhere();
      r := AcceptExtent();
      HeaderIsTaken();
      if r.Return? {
        r := BeginBody();
      }
    }

    /** Starts with the body of an extent, if it has any. */
    method BeginBody() returns (r: Result)
      requires Valid() && Live() && state == BodyState(extent) && extentAt == 0 && Tidy()
      modifies `at, `filled, `taken, `calls, `eof, `errc, `errstr, `state, `extentAt, `effects, `pieces, buffer
      ensures Valid() && (r.Return? <==> Live()) && (r.Return? ==> r.rc <= 0)
      ensures Live() ==> InBody() || state == Begin
      ensures Live() && state == Begin && BodyState(extent) == ExtentRead ==> Whole(old(Position()))
      ensures Live() && Willing() ==> state == Begin || state == ExtentRead
      ensures Live() && old(ExtentMoved()) ==> ExtentMoved()
      ensures !Live() && sane && old(ExtentMoved()) ==> CallersFault() || ExtentRefused(files, Body())
      ensures taken >= old(taken)
      ensures !Live() ==> state != Begin
      ensures Tidy()
    {
      hide Valid, Whole, Bytes, ParseExtent, ExtentComplaint, ExtentMoved, ExtentRefused, Willing, CallersFault,
           SourceUnknown;
      MovedIsRead();
      r := Return(0);
      if state != Begin {
        r := HandleBody();
        SourceIsRefused();
      }
    }

    lemma MovedIsRead()
      ensures ExtentMoved() ==> extent == ParseExtent(Bytes(input, mark.pos + SIZEOF_PACKET, SIZEOF_EXTENT))
    {
      hide Bytes, ParseExtent, ExtentComplaint;
    }

    /** The bookkeeping of AcceptExtent. */
    twostate lemma HeaderIsTaken()
      requires unchanged(`filled, `taken, `files, `mark, `pktSize, `effects) && old(Position()) >= 0
      requires Live() ==>
                 && extent == ParseExtent(Bytes(input, old(Position()), SIZEOF_EXTENT)) && extent.file in files
                 && ExtentComplaint(files, pktSize, extent) == None
                 && state == BodyState(extent) && extentAt == 0 && pieces == []
                 && Position() == old(Position()) + SIZEOF_EXTENT
      requires !Live() && SIZEOF_EXTENT <= old(filled - at) ==>
                 ExtentComplaint(files, pktSize, ParseExtent(Bytes(input, old(Position()), SIZEOF_EXTENT))).Some?
      ensures old(AtMark()) ==> mark.files == files
      ensures old(AtMark()) && Live() ==> ExtentMoved()
      ensures old(AtMark()) && !Live() && SIZEOF_EXTENT <= old(filled - at) ==> ExtentRefused(mark.files, Body())
    {
      hide PacketTold, Bytes, ParseExtent, ExtentComplaint, ExtentRefused, ExtentMoved;
      if old(AtMark()) {
        if Live() {
          BodyBegins();
        }
        HeaderIsRefused();
      }
    }

    /** The parts of the body that are looked at. */
    lemma BodyParts()
      ensures forall n: nat {:trigger Body()[..n]} :: n <= pktSize ==>
                Body()[..n] == Bytes(input, mark.pos + SIZEOF_PACKET, n)
      ensures forall n: nat {:trigger Body()[n..]} :: n <= pktSize ==>
                Body()[n..] == Bytes(input, mark.pos + SIZEOF_PACKET + n, pktSize - n)
      ensures var from, to := SIZEOF_EXTENT, SIZEOF_EXTENT + SIZEOF_SOURCE;
              to <= pktSize ==> Body()[from..to] == Bytes(input, mark.pos + SIZEOF_PACKET + from, SIZEOF_SOURCE)
    {
    }

    lemma HeaderIsRefused()
      ensures ExtentComplaint(files, pktSize,
                ParseExtent(Bytes(input, mark.pos + SIZEOF_PACKET, SIZEOF_EXTENT))).Some? ==>
                ExtentRefused(files, Body())
    {
      hide Bytes, ExtentComplaint, U32Of;
      BodyParts();
    }

    lemma SourceIsRefused()
      ensures extent == ParseExtent(Bytes(input, mark.pos + SIZEOF_PACKET, SIZEOF_EXTENT)) && SourceUnknown() ==>
                ExtentRefused(files, Body())
    {
      hide Bytes, ParseExtent, U32Of;
      BodyParts();
    }

    /** The handler of the current extent's body. */
    method HandleBody() returns (r: Result)
      requires Valid() && Live() && InBody()
      modifies `at, `filled, `taken, `calls, `eof, `errc, `errstr, `state, `extentAt, `effects, `pieces, buffer
      ensures Valid() && (r.Return? <==> Live()) && (r.Return? ==> r.rc <= 0)
      ensures Live() ==> state == old(state) || state == Begin
      ensures Live() && state == Begin && old(state) == ExtentRead ==> Whole(old(Position() - extentAt))
      ensures Live() && Willing() ==> state == Begin || (state == ExtentRead && extentAt > old(extentAt))
      ensures Live() && old(ExtentMoved()) ==> ExtentMoved()
      ensures !Live() && sane && old(ExtentMoved()) ==> CallersFault() || SourceUnknown()
      ensures taken >= old(taken)
      ensures !Live() ==> state != Begin
      ensures Tidy()
    {
      hide Valid, Whole, ExtentMoved, SourceUnknown, CallersFault, Willing, ReadsWhole, BlankTo, Since, Bytes, U32Of,
           U64Of;
      WillingIsWhole();
      StandsSomewhere();
      match state
      case ExtentZeroOut =>
        r := ZeroExtent();
        ZerosMoved();
      case ExtentPunchHole =>
        r := PunchHole();
        HoleMoved();
      case ExtentGetCopyInfo =>
        r := GetExtentCopyInfo();
        CopyMoved();
      case ExtentRead =>
        r := ReadExtent();
        PayloadMoved();
    }

    twostate lemma ZerosMoved()
      requires old(state) == ExtentZeroOut && (Live() ==> state == Begin || state == ExtentZeroOut)
      requires unchanged(`at, `filled, `taken, `extent, `files, `mark, `pktSize) && (old(Since()) ==> Since())
      requires Live() && WritesAtMost() && old(BlankTo(extentAt)) ==>
                BlankTo(if state == Begin then extent.length else extentAt)
      ensures Live() && old(ExtentMoved()) ==> ExtentMoved()
    {
      hide BlankTo, Since, Bytes, ParseExtent, ExtentComplaint;
    }

    twostate lemma HoleMoved()
      requires old(state) == ExtentPunchHole && (Live() ==> state == Begin && extent.file in files)
      requires unchanged(`at, `filled, `taken, `extent, `files, `mark, `pktSize)
      requires Live() ==>
                 effects == old(effects) + ToldTo(files[extent.file].handle,
                                                  Punched(files[extent.file].handle, extent.offset, extent.length))
      ensures Live() && old(ExtentMoved()) ==> ExtentMoved()
    {
      hide Bytes, ParseExtent, ExtentComplaint;
    }

    twostate lemma CopyMoved()
      requires old(state) == ExtentGetCopyInfo && old(Position()) >= 0
      requires unchanged(`extent, `files, `mark, `pktSize)
      requires Live() ==>
                (state == ExtentGetCopyInfo && effects == old(effects) && Position() == old(Position()))
                || Copied()
      ensures Live() && old(ExtentMoved()) ==> ExtentMoved()
      ensures old(ExtentMoved()) && U32Of(Bytes(input, old(Position()), SIZEOF_SOURCE), 0) !in files ==> SourceUnknown()
    {
      hide Bytes, U32Of, U64Of, ParseExtent, ExtentComplaint;
    }

    twostate lemma PayloadMoved()
      requires old(state) == ExtentRead && unchanged(`extent, `files, `mark, `pktSize) && (old(Since()) ==> Since())
      requires Live() ==>
                 if state == ExtentRead then Position() - extentAt == old(Position() - extentAt)
                 else state == Begin && Whole(old(Position() - extentAt))
      ensures Live() && old(ExtentMoved()) ==> ExtentMoved()
    {
      hide Since, Whole, Bytes, ParseExtent, ExtentComplaint;
    }

    /** The header half: checks it and consumes it. */
    method AcceptExtent() returns (r: Result)
      requires Valid() && Live() && state != SnapshotListRead && (sane ==> state == ExtentStart)
      modifies `at, `errc, `errstr, `state, `extent, `extentAt, `pieces
      ensures Valid() && (r.Return? <==> Live()) && (r.Return? ==> r.rc == 0)
      ensures r.Return? ==> extent.file in files && (extent.offset + extent.length) % U64 <= files[extent.file].size
      ensures r.Return? ==> state == BodyState(extent) && extentAt == 0 && Position() == old(Position()) + SIZEOF_EXTENT
      ensures r.Return? ==>
                extent == ParseExtent(Bytes(input, old(Position()), SIZEOF_EXTENT))
      ensures r.Jump? && SIZEOF_EXTENT <= old(filled - at) ==>
                ExtentComplaint(files, pktSize, ParseExtent(Bytes(input, old(Position()), SIZEOF_EXTENT))).Some?
      ensures r.Return? ==> pieces == [] && ExtentComplaint(files, pktSize, extent) == None
      ensures r.Jump? ==> state == old(state)
      ensures Tidy()
    {
      hide Valid, Bytes, Memory, ParseExtent, ExtentComplaint, BodyState, HeaderReady;
      AtHeader();
      if SIZEOF_EXTENT <= filled - at {
        MemoryIsStream(SIZEOF_EXTENT);
      }
      extentAt := 0;
      extent := ParseExtent(Memory(at, SIZEOF_EXTENT));
      pieces := [];
      r := EatHeader();
    }

    /** What AcceptExtent needs, apart from the header itself. */
    ghost predicate HeaderReady()
      reads `at, `filled, `taken, `eof, `errc, `errstr, `files, `newfile, `pktType, `pktSize, `snapshots, `packetEnd,
            `sane, buffer
    {
      && Ground() && Live() && snapshots == []
      && (sane ==> pktType == PACKET_EXTENT && pktSize >= SIZEOF_EXTENT)
      && (sane ==> filled - at <= SIZEOF_EXTENT && Position() + pktSize == packetEnd)
    }

    lemma AtHeader()
      requires Valid() && Live() && state != SnapshotListRead && (sane ==> state == ExtentStart)
      ensures HeaderReady() && Ground()
    {
      hide Ground, RefsOk, DataOk, Roomy;
    }

    method EatHeader() returns (r: Result)
      requires HeaderReady() && extentAt == 0 && pieces == [] && extent.length < U64
      modifies `at, `errc, `errstr, `state
      ensures Valid() && (r.Return? <==> Live()) && (r.Return? ==> r.rc == 0)
      ensures r.Return? ==> extent.file in files && (extent.offset + extent.length) % U64 <= files[extent.file].size
      ensures r.Return? ==> state == BodyState(extent) && Position() == old(Position()) + SIZEOF_EXTENT
      ensures r.Return? ==> SIZEOF_EXTENT <= old(filled - at) && ExtentComplaint(files, pktSize, extent) == None
      ensures r.Jump? ==>
                || (errstr == Some(Underflow) && SIZEOF_EXTENT > old(filled - at))
                || (ExtentComplaint(files, pktSize, extent).Some? && errstr == ExtentComplaint(files, pktSize, extent))
      ensures r.Jump? ==> state == old(state)
      ensures Tidy()
    {
      hide Valid, Ground, Bytes, Extype, ExtentComplaint, BodyState;
      WindowBounds();
      var complaint := ExtentComplaint(files, pktSize, extent);
      if complaint.Some? {
        r := Throw(EINVAL, complaint.value);
        DeadIsValid();
        return;
      }
      r := Eat(SIZEOF_EXTENT, BodyState(extent));
      if r.Jump? {
        DeadIsValid();
      } else {
        BehindHeader();
      }
    }

    /** In front of a body that is handled as a whole. */
    lemma AtWholeBody()
      requires Valid() && Live() && (state == NewFileCreate || state == FileMetaDo)
      ensures Ground() && snapshots == [] && (sane ==> filled - at <= pktSize && Position() + pktSize == packetEnd)
      ensures state == FileMetaDo ==> newfile.Some? && newfile.value.id in files
    {
      hide Window, PacketFits, Willing;
    }

    /** Behind the header of an extent without payload. */
    lemma AtEmptyBody()
      requires Valid() && Live() && (state == ExtentZeroOut || state == ExtentPunchHole)
      ensures Ground() && snapshots == [] && extent.file in files && (sane ==> filled == at && Position() == packetEnd)
    {
      hide TableOk, PacketFits;
    }

    /** Behind the header of a COPY extent. */
    lemma AtCopyInfo()
      requires Valid() && Live() && state == ExtentGetCopyInfo
      ensures Ground() && snapshots == [] && extent.file in files && Position() >= 0
      ensures sane ==> filled - at <= SIZEOF_SOURCE && Position() + SIZEOF_SOURCE == packetEnd
    {
      hide TableOk, PacketFits;
    }

    /** Inside of a payload. */
    lemma AtPayload()
      requires Base() && Live() && state == ExtentRead
      ensures Ground() && snapshots == [] && extent.file in files
      ensures sane ==>
                && filled - at <= extent.length - extentAt && Position() + (extent.length - extentAt) == packetEnd
                && (2 * extent.length <= buffer.Length || WritesWhole())
    {
      hide Ground, WritesWhole;
    }

    /** The rest of a payload is still to come. */
    lemma PayloadGoesOn()
      requires Ground() && Live() && state == ExtentRead && snapshots == [] && extent.file in files
      requires extentAt < extent.length < U64 && extentAt <= Position() && DataTo(Position() - extentAt, extentAt)
      requires sane ==>
                 && filled - at <= extent.length - extentAt && Position() + (extent.length - extentAt) == packetEnd
                 && (2 * extent.length <= buffer.Length || (WritesWhole() && filled == at))
      ensures Valid()
    {
      hide Ground, WritesWhole, DataTo;
    }

    lemma HandlesAreGiven()
      requires Ground()
      ensures Willing() ==> forall k :: k in files ==> files[k].handle != 0
    {
      hide Willing;
    }

    lemma Grounded()
      requires Valid()
      ensures Ground()
    {
    }

    lemma DeadIsValid()
      requires Ground() && !Live()
      ensures Valid()
    {
    }

    lemma BehindHeader()
      requires Ground() && Live() && snapshots == [] && extentAt == 0 && pieces == [] && extent.length < U64
               && Position() >= 0
      requires ExtentComplaint(files, pktSize, extent).None? && state == BodyState(extent)
      requires sane ==> pktType == PACKET_EXTENT && pktSize >= SIZEOF_EXTENT
      requires sane ==> filled - at <= 0 && Position() + (pktSize - SIZEOF_EXTENT) == packetEnd
      ensures Valid()
    {
      hide Window, TableOk, Extype;
      WindowBounds();
    }

    method GetExtentHeader() returns (r: Result)
      requires Valid() && Live() && state == ExtentGet
      modifies `at, `filled, `taken, `calls, `eof, `errc, `errstr, `state, `extent, `extentAt, `effects, `pieces, buffer
      ensures Valid() && (r.Return? <==> Live()) && (r.Return? ==> r.rc <= 0)
      ensures Live() ==> InBody() || state == Begin || state == ExtentGet
      ensures Live() && state == Begin && BodyState(extent) == ExtentRead ==> Whole(old(Position()) + SIZEOF_EXTENT)
      ensures Live() && old(AtMark()) ==> if state == ExtentGet then AtMark() else ExtentMoved()
      ensures !Live() && sane && old(AtMark()) ==> CallersFault() || ExtentRefused(mark.files, Body())
      ensures Live() && ReadsWhole() ==> state != ExtentGet
      ensures Live() && Willing() ==> state == Begin || state == ExtentRead
      ensures taken >= old(taken)
      ensures !Live() ==> state != Begin
      ensures Tidy()
    {
      hide Valid, AtMark, Bytes, Whole, ExtentMoved, ExtentRefused, ReadsWhole, Willing, CallersFault;
      WillingIsWhole();
      r := BufferAtLeast(SIZEOF_EXTENT);
      if r.Jump? || r.rc < 0 {
        return;
      }
      MoveOn(ExtentStart);
      r := StartExtent();
    }

    // ----- snapshot lists

    /** Hands the names to the callback, in one call. */
    method ApplySnapshotList() returns (rc: int)
      requires snapshotFile.Some? && funcs.snapshots.Some?
      modifies `calls, `effects, `snapshots, `snapshotFile
      ensures snapshots == [] && effects == old(effects) + [Listed(old(snapshotFile).value.handle, old(snapshots))]
    {
      rc := funcs.snapshots.value(calls);
      calls := calls + 1;
      effects := effects + [Listed(snapshotFile.value.handle, snapshots)];
      snapshots, snapshotFile := [], None;
    }

    /** The names of a list whose payload begins at `start` were delivered in one call. */
    ghost predicate Delivered(before: seq<Effect>, handle: nat, start: int)
      reads `extent, `effects
    {
      && start >= 0 && |effects| == |before| + 1 && effects[..|before|] == before
      && effects[|before|].Listed? && effects[|before|].handle == handle
      && NamesOk(effects[|before|].names) && ListBytes(effects[|before|].names) == Bytes(input, start, extent.length)
      && EndsInName(effects[|before|].names)
    }

    /** The list whose payload begins at `start` is still being read, or it was delivered. */
    ghost predicate ListMoved(before: seq<Effect>, handle: nat, start: int)
      reads `at, `filled, `taken, `state, `extent, `extentAt, `effects
    {
      && (state == SnapshotListRead || state == Begin)
      && (state == SnapshotListRead ==> Position() - extentAt == start && effects == before)
      && (state == Begin ==> if funcs.snapshots.Some? then Delivered(before, handle, start) else effects == before)
    }

    /** The list in the stream is still being read, or it was delivered. */
    ghost predicate ListGoes()
      reads `at, `filled, `taken, `state, `extent, `extentAt, `files, `effects, `pktSize, `snapshotFile, `mark
    {
      var id := U32Of(Bytes(input, mark.pos + SIZEOF_PACKET, SIZEOF_LIST), 0);
      && id in files && extent.length == (pktSize - SIZEOF_LIST) % U64
      && (state == SnapshotListRead ==> snapshotFile == Some(files[id]))
      && ListMoved(mark.effects, files[id].handle, mark.pos + SIZEOF_PACKET + SIZEOF_LIST)
    }

    /** Consumes `cnt` bytes of the list, whose names were taken. */
    method EatNames(cnt: nat, ghost handle: nat) returns (r: Result)
      requires Steady() && Live() && state == SnapshotListRead
      requires extentAt + cnt <= extent.length < U64 && cnt <= filled - at && Position() >= extentAt
      requires ListTo(Position() - extentAt, extentAt + cnt) && snapshotFile.Some?
               && snapshotFile.value.handle == handle
      requires extentAt + cnt == extent.length && funcs.snapshots.Some? ==> EndsInName(snapshots)
      modifies `calls, `errc, `errstr, `at, `state, `extentAt, `snapshots, `snapshotFile, `effects
      ensures Valid() && Live() && r.Return? && r.rc <= 0
      ensures ListMoved(old(effects), handle, old(Position() - extentAt))
      ensures state == Begin
              || (state == SnapshotListRead && snapshotFile == old(snapshotFile) && extentAt == old(extentAt) + cnt)
      ensures Tidy()
    {
      hide Valid, Steady, Ground, RefsOk, Roomy, ListTo, Delivered, EndsInName;
      AtList();
      extentAt := extentAt + cnt;
      if extentAt == extent.length {
        r := EndList(cnt);
      } else {
        MoveInList(cnt);
        r := Return(0);
      }
    }

    lemma AtList()
      requires Steady() && Live() && state == SnapshotListRead
      ensures Ground() && RefsOk() && snapshotFile.Some?
      ensures sane ==> Roomy()
      ensures sane ==> filled - at <= extent.length - extentAt && Position() + (extent.length - extentAt) == packetEnd
    {
      hide Ground;
    }

    method EndList(cnt: nat) returns (r: Result)
      requires Ground() && Live() && snapshotFile.Some?
      requires sane ==> filled - at <= cnt && Position() + cnt == packetEnd
      requires funcs.snapshots.Some? ==> EndsInName(snapshots)
      requires cnt <= filled - at && Position() + cnt >= extent.length
               && ListTo(Position() + cnt - extent.length, extent.length)
      modifies `calls, `errc, `errstr, `at, `state, `snapshots, `snapshotFile, `effects
      ensures Valid() && Live() && r.Return? && r.rc <= 0 && state == Begin && Position() == old(Position()) + cnt
      ensures if funcs.snapshots.Some? then
                Delivered(old(effects), old(snapshotFile).value.handle, old(Position() + cnt - extent.length))
              else effects == old(effects)
      ensures Tidy()
    {
      hide Valid, Ground, NamesOk, ListBytes, Bytes, EndsInName;
      var rc := 0;
      if funcs.snapshots.Some? {
        rc := ApplySnapshotList();
      }
      r := EatLast(cnt);
      if rc < 0 {
        r := Return(rc);
      }
    }

    method MoveInList(cnt: nat)
      requires Ground() && Live() && RefsOk()
      requires sane ==> Roomy()
      requires state == SnapshotListRead && extentAt < extent.length < U64 && cnt <= filled - at
      requires Position() + cnt >= extentAt && ListTo(Position() + cnt - extentAt, extentAt)
      requires sane ==>
                filled - at - cnt <= extent.length - extentAt
                && Position() + cnt + (extent.length - extentAt) == packetEnd
      modifies `at, `state, `errc, `errstr
      ensures Valid() && Live() && state == SnapshotListRead && Position() == old(Position()) + cnt
    {
      hide Ground, ListTo;
      var r := Eat(cnt, SnapshotListRead);
    }

    /** Takes the next name from the buffer. */
    method PushName(nameLength: nat)
      requires Base() && Live() && state == SnapshotListRead && funcs.snapshots.Some?
      requires SIZEOF_ENTRY + nameLength <= filled - at && U16Of(Memory(at, SIZEOF_ENTRY), 0) == nameLength
      modifies `snapshots
      ensures Steady() && Position() >= extentAt
      ensures ListTo(Position() - extentAt, extentAt + SIZEOF_ENTRY + nameLength)
      ensures nameLength > 0 ==> EndsInName(snapshots)
    {
      hide Ground, RefsOk, Framed, Roomy, Bytes, Memory, ListBytes;
      ghost var start, pos := Position() - extentAt, Position();
      var name := Memory(at + SIZEOF_ENTRY, nameLength);
      NameIsEntry(nameLength);
      BytesSplit(input, start, extentAt, SIZEOF_ENTRY + nameLength);
      ListOfOne(name);
      ListConcat(snapshots, [name]);
      snapshots := snapshots + [name];
    }

    lemma NameIsEntry(nameLength: nat)
      requires Ground() && SIZEOF_ENTRY + nameLength <= filled - at && U16Of(Memory(at, SIZEOF_ENTRY), 0) == nameLength
      ensures nameLength <= 0xFFFF
      ensures EntryBytes(Memory(at + SIZEOF_ENTRY, nameLength)) == Bytes(input, Position(), SIZEOF_ENTRY + nameLength)
    {
      MemoryIsStream(SIZEOF_ENTRY + nameLength);
      var entry := Memory(at, SIZEOF_ENTRY + nameLength);
      assert entry[0] == Memory(at, SIZEOF_ENTRY)[0] && entry[1] == Memory(at, SIZEOF_ENTRY)[1];
      assert entry[..2] == [nameLength % 256, nameLength / 256];
      assert entry[2..] == Memory(at + SIZEOF_ENTRY, nameLength);
    }

    lemma NoNames(got: nat)
      requires Base() && Live() && state == SnapshotListRead && funcs.snapshots.None?
      ensures ListTo(Position() - extentAt, extentAt + got)
    {
    }

    /** A good list goes on with a whole name. */
    lemma GoodListContinues()
      requires Base() && Live() && state == SnapshotListRead && ListGoesOn()
      ensures sane && funcs.snapshots.Some? && Position() >= 0
      ensures extent.length - extentAt >= SIZEOF_ENTRY + 1
      ensures SIZEOF_ENTRY + U16Of(Bytes(input, Position(), SIZEOF_ENTRY), 0) <= extent.length - extentAt
    {
      hide TableOk, PacketFits, RefsOk, Framed, Roomy;
      var bytes := Bytes(input, Position() - extentAt, extent.length);
      assert bytes[..extentAt] == Bytes(input, Position() - extentAt, extentAt);
      GoodListIsNotEmpty(bytes);
      NextName(bytes, snapshots, extentAt);
      assert bytes[extentAt..extentAt + 2] == Bytes(input, Position(), SIZEOF_ENTRY);
    }

    /** Takes one name of the list, or waits for the rest of it. */
    method ReadSnapshotList() returns (r: Result)
      requires Valid() && Live() && state == SnapshotListRead
      modifies `at, `filled, `taken, `calls, `eof, `errc, `errstr, `state, `extentAt, `snapshots, `snapshotFile,
               `effects, buffer
      ensures Valid() && (r.Return? <==> Live()) && (r.Return? ==> r.rc <= 0)
      ensures Live() ==>
                old(snapshotFile).Some?
                  && ListMoved(old(effects), old(snapshotFile).value.handle, old(Position() - extentAt))
      ensures Live() ==> state == Begin || (state == SnapshotListRead && snapshotFile == old(snapshotFile))
      ensures errc != 0 && errstr == Some(BadListSize) <==> old(extent.length - extentAt) < SIZEOF_ENTRY + 1
      ensures errc != 0 && old(ListGoesOn()) ==> errstr in {Some(ReadFailed), Some(ReadMisbehaved)}
      ensures !Live() && sane ==>
                CallersFault() || (errc != 0 && (errstr == Some(BadListSize)
                  || (errstr == Some(NameTooLong) && funcs.snapshots.Some?)))
      ensures Live() && ReadsWhole() && old(ListGoesOn()) ==> state == Begin || extentAt > old(extentAt)
      ensures taken >= old(taken)
      ensures !Live() ==> state != Begin
      ensures Tidy()
    {
      hide Valid, Core, Base, Steady, Ground, Bytes, ListGoesOn, Delivered;
      InList();
      var remaining: nat := extent.length - extentAt;
      ghost var good := ListGoesOn();
      if good {
        GoodListContinues();
      }
      if remaining < SIZEOF_ENTRY + 1 {
        r := RefuseList(EINVAL, BadListSize);
        return;
      }
      r := BufferPayload(remaining);
      if r.Jump? || r.rc < 0 {
        if r.Return? {
          WaitForList(old(effects), snapshotFile.value.handle, old(Position() - extentAt));
        }
        return;
      }
      r := NextEntry(remaining, good, snapshotFile.value.handle);
    }

    /** The part of ReadSnapshotList behind the buffering. */
    method NextEntry(remaining: nat, ghost good: bool, ghost handle: nat) returns (r: Result)
      requires Valid() && Live() && state == SnapshotListRead && filled > at
      requires SIZEOF_ENTRY + 1 <= remaining == extent.length - extentAt
      requires snapshotFile.Some? && snapshotFile.value.handle == handle
      requires good ==>
                 sane && funcs.snapshots.Some?
                 && SIZEOF_ENTRY + U16Of(Bytes(input, Position(), SIZEOF_ENTRY), 0) <= remaining
      modifies `calls, `errc, `errstr, `at, `state, `extentAt, `snapshots, `snapshotFile, `effects
      ensures Valid() && (r.Return? <==> Live()) && (r.Return? ==> r.rc <= 0)
      ensures Live() ==> ListMoved(old(effects), handle, old(Position() - extentAt))
      ensures Live() && state == SnapshotListRead ==> snapshotFile == old(snapshotFile)
      ensures Live() && good && old(filled - at) >= remaining ==> state == Begin || extentAt > old(extentAt)
      ensures errc != 0 ==> errstr == Some(NameTooLong) && !good && funcs.snapshots.Some?
      ensures !Live() ==> state != Begin
      ensures Tidy()
    {
      hide Valid, Core, Base, Steady, Ground, ListTo, Bytes, Memory, U16Of, ListMoved;
      InList();
      WaitForList(effects, handle, Position() - extentAt);
      var got := filled - at;
      if got < SIZEOF_ENTRY {
        return Return(0);
      }
      if got > remaining {
        got := remaining;
      }
      if funcs.snapshots.None? {
        NoNames(got);
        r := EatNames(got, handle);
        return;
      }
      MemoryIsStream(SIZEOF_ENTRY);
      var nameLength := U16Of(Memory(at, SIZEOF_ENTRY), 0);
      var entrySize := SIZEOF_ENTRY + nameLength;
      if entrySize > got {
        if at == 0 && filled == buffer.Length {
          r := RefuseList(ENAMETOOLONG, NameTooLong);
          return;
        }
        return Return(0);
      }
      PushName(nameLength);
      r := EatNames(entrySize, handle);
    }

    /** A good list in a sane run, for a receiver that wants it. */
    ghost predicate ListGoesOn()
      reads `at, `filled, `taken, `extent, `extentAt, `sane
    {
      sane && funcs.snapshots.Some? && Position() >= extentAt
        && GoodList(Bytes(input, Position() - extentAt, extent.length))
    }

    method RefuseList(err: int, msg: Complaint) returns (r: Result)
      requires Valid() && err > 0 && msg in {BadListSize, NameTooLong}
      modifies `errc, `errstr
      ensures Valid() && r.Jump? && !Live() && errc != 0 && errstr == Some(msg)
    {
      hide Ground, RefsOk, ListTo, DataTo;
      r := Throw(err, msg);
    }

    lemma InList()
      requires Valid() && Live() && state == SnapshotListRead
      ensures Base() && Steady() && Ground() && snapshotFile.Some? && extentAt <= extent.length < U64
              && 0 <= extentAt <= Position()
      ensures sane ==> filled - at <= extent.length - extentAt && 2 * extent.length <= buffer.Length
      ensures buffer.Length == BUFFER_CAPACITY && at <= filled
    {
      hide TableOk, PacketFits, ListTo, DataTo;
    }

    lemma WaitForList(before: seq<Effect>, handle: nat, start: int)
      requires state == SnapshotListRead && Position() - extentAt == start && effects == before
      ensures ListMoved(before, handle, start)
    {
    }

    method GetSnapshotList() returns (r: Result)
      requires Valid() && Live() && state == SnapshotListGet
      modifies `at, `filled, `taken, `calls, `eof, `errc, `errstr, `state, `extent, `extentAt, `snapshots,
               `snapshotFile, `effects, buffer
      ensures Valid() && (r.Return? <==> Live()) && (r.Return? ==> r.rc <= 0)
      ensures Live() ==> state in {SnapshotListGet, SnapshotListRead, Begin}
      ensures Live() && old(AtMark()) ==> if state == SnapshotListGet then AtMark() else ListGoes()
      ensures Live() && ReadsWhole() ==> state == Begin || state == SnapshotListRead
      ensures !Live() && sane && old(AtMark()) ==> CallersFault() || Misread() || ListRefused(mark.files, Body())
      ensures taken >= old(taken)
      ensures !Live() ==> state != Begin
      ensures Tidy()
    {
      hide Valid, Bytes, U32Of, PacketTold, ListGoes, GoodList;
      SizeIsSmall();
      r := BufferAtLeast(SIZEOF_LIST);
      if r.Jump? || r.rc < 0 {
        return;
      }
      r := StartList();
    }

    lemma SizeIsSmall()
      requires Valid()
      ensures pktSize < U64
    {
    }

    /** Takes over the header of a list and reads on. */
    method StartList() returns (r: Result)
      requires Valid() && Live() && state == SnapshotListGet && SIZEOF_LIST <= filled - at
      modifies `at, `filled, `taken, `calls, `eof, `errc, `errstr, `state, `extent, `extentAt, `snapshots,
               `snapshotFile, `effects, buffer
      ensures Valid() && (r.Return? <==> Live()) && (r.Return? ==> r.rc <= 0)
      ensures Live() ==> state == SnapshotListRead || state == Begin
      ensures Live() && old(AtMark()) ==> ListGoes()
      ensures !Live() && sane && old(AtMark()) && SIZEOF_LIST <= pktSize < U64 ==>
                CallersFault() || Misread() || ListRefused(mark.files, Body())
      ensures taken >= old(taken)
      ensures !Live() ==> state != Begin
      ensures Tidy()
    {
      hide Valid, Bytes, U32Of, PacketTold, ListRefused, ListGoesOn, ListGoes, ListMoved;
      ListIsRefused();
      r := TakeListHeader();
      if r.Return? {
        r := ContinueList();
      }
    }

    /** Takes over the header of a list. */
    method TakeListHeader() returns (r: Result)
      requires Valid() && Live() && state == SnapshotListGet && SIZEOF_LIST <= filled - at
      modifies `at, `errc, `errstr, `state, `extent, `extentAt, `snapshotFile
      ensures Valid() && (r.Return? <==> Live())
      ensures Live() ==> state == SnapshotListRead && (old(AtMark()) ==> ListGoes())
      ensures !Live() ==>
                errc != 0 && errstr == Some(UnknownListFile)
                && U32Of(Bytes(input, old(Position()), SIZEOF_LIST), 0) !in files
      ensures !Live() ==> state != Begin
    {
      hide Valid, Ground, Bytes, Memory, U32Of, PacketTold, Delivered;
      Grounded();
      MemoryIsStream(SIZEOF_LIST);
      var id := U32Of(Memory(at, SIZEOF_LIST), 0);
      if id !in files {
        r := Throw(EINVAL, UnknownListFile);
        DeadIsValid();
        return;
      }
      BeginList(id);
      return Return(0);
    }

    /** Reads on in a list. */
    method ContinueList() returns (r: Result)
      requires Valid() && Live() && state == SnapshotListRead
      modifies `at, `filled, `taken, `calls, `eof, `errc, `errstr, `state, `extentAt, `snapshots, `snapshotFile,
               `effects, buffer
      ensures Valid() && (r.Return? <==> Live()) && (r.Return? ==> r.rc <= 0)
      ensures Live() ==> state == Begin || state == SnapshotListRead
      ensures Live() ==>
                old(snapshotFile).Some?
                  && ListMoved(old(effects), old(snapshotFile).value.handle, old(Position() - extentAt))
      ensures errc != 0 && old(ListGoesOn()) ==> errstr in {Some(ReadFailed), Some(ReadMisbehaved)}
      ensures Live() && old(ListGoes()) ==> ListGoes()
      ensures Live() && ReadsWhole() && old(ListGoesOn()) ==> state == Begin || extentAt > old(extentAt)
      ensures !Live() && sane && old(ListGoes()) ==> CallersFault() || Misread() || ListRefused(files, Body())
      ensures taken >= old(taken)
      ensures !Live() ==> state != Begin
      ensures Tidy()
    {
      hide Valid, Delivered, Bytes, U32Of, GoodList, ListRefused;
      SizeIsSmall();
      ListIsRefused();
      r := ReadSnapshotList();
    }

    lemma ListIsRefused()
      ensures pktSize < SIZEOF_LIST ==> ListRefused(files, Body())
      ensures U32Of(Bytes(input, mark.pos + SIZEOF_PACKET, SIZEOF_LIST), 0) !in files ==> ListRefused(files, Body())
      ensures SIZEOF_LIST <= pktSize
              && !GoodList(Bytes(input, mark.pos + SIZEOF_PACKET + SIZEOF_LIST, pktSize - SIZEOF_LIST)) ==>
                ListRefused(files, Body())
    {
      hide Bytes, GoodList, U32Of;
      BodyParts();
    }

    /** Notes the file and the size of the list, and consumes its header. */
    method BeginList(id: nat)
      requires Valid() && Live() && state == SnapshotListGet && id in files && SIZEOF_LIST <= filled - at
      modifies `at, `state, `errc, `errstr, `extent, `extentAt, `snapshotFile
      ensures Valid() && Live() && state == SnapshotListRead && Position() == old(Position()) + SIZEOF_LIST
      ensures snapshotFile == Some(files[id]) && extentAt == 0 && extent.length == (pktSize - SIZEOF_LIST) % U64
    {
      hide Valid, Ground, TableOk;
      AtListHeader();
      WindowBounds();
      snapshotFile := Some(files[id]);
      extentAt := 0;
      extent := extent.(length := (pktSize - SIZEOF_LIST) % U64);
      EatListHeader();
    }

    lemma AtListHeader()
      requires Valid() && Live() && state == SnapshotListGet
      ensures Ground() && snapshots == []
      ensures forall id :: id in files ==> files[id].id == id
      ensures sane ==> 2 * (pktSize - SIZEOF_LIST) <= buffer.Length
      ensures sane ==> filled - at <= SIZEOF_LIST && Position() + pktSize == packetEnd && pktSize >= SIZEOF_LIST
    {
      hide Window, DataTo;
    }

    method EatListHeader()
      requires Ground() && Live() && snapshots == []
      requires sane ==> 2 * (pktSize - SIZEOF_LIST) <= buffer.Length
      requires sane ==> filled - at <= SIZEOF_LIST && Position() + pktSize == packetEnd && pktSize >= SIZEOF_LIST
      requires snapshotFile.Some? && snapshotFile.value.id in files
               && files[snapshotFile.value.id] == snapshotFile.value
      requires extentAt == 0 && extent.length == (pktSize - SIZEOF_LIST) % U64 && SIZEOF_LIST <= filled - at
      modifies `at, `state, `errc, `errstr
      ensures Valid() && Live() && state == SnapshotListRead && Position() == old(Position()) + SIZEOF_LIST
    {
      hide Ground;
      WindowBounds();
      var r := Eat(SIZEOF_LIST, SnapshotListRead);
    }

    // ----- packets

    /** The size a packet header at the given place of the stream declares. */
    function DeclaredSize(pos: nat): nat {
      U64Of(Bytes(input, pos, SIZEOF_PACKET), 8)
    }

    /** Kind and size of the body of a packet, as the header at the given place declares them. */
    ghost function Declared(pos: nat): (nat, nat) {
      (U16Of(Bytes(input, pos, SIZEOF_PACKET), 2), (DeclaredSize(pos) - SIZEOF_PACKET) % U64)
    }

    /** Which state handles the body of a packet, after a header that follows the rules. */
    function PacketState(): (r: State)
      reads `newfile, `pktType
    {
      if newfile.Some? then FileMetaGet
      else if pktType == PACKET_FILE then NewFileGet
      else if pktType == PACKET_FILE_END then FileEndGet
      else if pktType == PACKET_EXTENT then ExtentGet
      else SnapshotListGet
    }

    function PacketComplaint(): (r: Option<Complaint>)
      reads `newfile, `pktType, `pktSize
      ensures r.Some? ==> r.value !in {DroppedFile, MetaFileDisappeared, Overrun, CapacityExceeded, EndFileDisappeared}
    {
      PacketProblem(newfile.Some?, pktType, pktSize)
    }

    /** The packet header at the given place is one the reader does not take. */
    ghost predicate HeaderRefused(pos: nat)
      reads `newfile
    {
      HeaderUnfit(pos, newfile.Some?)
    }

    ghost predicate HeaderUnfit(pos: nat, announcing: bool) {
      var h := Bytes(input, pos, SIZEOF_PACKET);
      var kind := U16Of(h, 2);
      || h[..2] != [0x46, 0x49] || DeclaredSize(pos) < SIZEOF_PACKET
      || PacketProblem(announcing, kind, DeclaredSize(pos) - SIZEOF_PACKET).Some?
    }

    /** The packet that begins where `m` says is one the reader does not take. */
    ghost predicate Refused(m: Mark)
      reads `pktType, `pktSize, `packetEnd, `mark
    {
      HeaderUnfit(m.pos, m.newfile.Some?) || (mark == m && PacketTold() && BodyRefused())
    }

    /** A step of a reader between two packets. */
    twostate predicate BeginStep()
      requires old(Position()) >= 0
      reads this
    {
      var stood := old(Standing());
      && (sane <==> old(sane) && PacketFits())
      && ((pktType, pktSize) == old((pktType, pktSize)) || (pktType, pktSize) == Declared(old(Position())))
      && (Live() ==> Waited(stood) || Marked(stood))
      && (Live() && ReadsWhole() ==> Marked(stood) && state != ExtentGet && Tidy())
      && (Live() && Willing() ==> Settled())
      && (!Live() && sane ==> Excused() || Refused(stood))
      && (!Live() && sane && BodyChoked() ==> filled == at && (pktType, pktSize) == Declared(old(Position())))
      && (!Live() && Mistaken() ==> packetEnd == old(Position()) + DeclaredSize(old(Position())))
      && (!Live() && state == Begin ==> Waited(stood))
      && (taken < old(Position()) + SIZEOF_PACKET ==>
            Waited(stood) && (!Live() ==> CallersFault()) && (pktType, pktSize) == old((pktType, pktSize)))
    }

    method ReadPacket() returns (r: Result)
      requires Valid() && Live() && state == Begin
      modifies this, buffer
      ensures Valid() && (r.Return? <==> Live()) && Grows(old(files), files) && BeginStep()
      ensures taken >= old(taken)
    {
      hide Valid, OnTrack, PacketDone, AtMark, BodyRefused, Excused, BodyChoked, Mistaken, HeaderRefused, ReadsWhole,
           Bytes, Willing, CallersFault, Grows, BeginStep, Declared, DeclaredSize, PacketComplaint, PacketTold;
      GrowsItself(files);
      StandsSomewhere();
      r := ReadPacketHeader();
      if r.Jump? || r.rc < 0 {
        return;
      }
      BeginsOnTrack();
      r := HandlePacket();
      PacketBegan();
    }

    /** The packet header is not there yet, or the reader does not take it. */
    twostate lemma NoPacketBegan(r: Result)
      requires old(state) == Begin && old(Position()) >= 0 && unchanged(`effects, `files, `newfile)
      requires r.Return? <==> Live()
      requires if r.Return? then r.rc < 0 && state == Begin && Position() == old(Position()) && !ReadsWhole()
               else CallersFault() || HeaderRefused(old(Position()))
      requires r.Jump? ==> errc == 0 || errstr !in {Some(CapacityExceeded), Some(EndFileDisappeared)}
      requires (pktType, pktSize) == old((pktType, pktSize)) || (pktType, pktSize) == Declared(old(Position()))
      requires sane <==> old(sane) && PacketFits()
      requires r.Jump? && state == Begin ==> Position() == old(Position())
      requires taken < old(Position()) + SIZEOF_PACKET ==>
                 && (pktType, pktSize) == old((pktType, pktSize))
                 && if r.Return? then r.rc < 0 else state == Begin && CallersFault()
      ensures BeginStep()
    {
      hide OnTrack, PacketDone, BodyRefused, PacketTold, HeaderUnfit, ReadsWhole, Bytes, Willing, CallersFault,
           PacketFits, Declared, DeclaredSize;
      WillingIsWhole();
    }

    /** The body of the packet was handled as far as it goes. */
    twostate lemma PacketBegan()
      requires old(Position()) >= 0 && mark == old(Standing()) && taken >= old(Position()) + SIZEOF_PACKET
      requires (pktType, pktSize) == Declared(mark.pos) && packetEnd == mark.pos + DeclaredSize(mark.pos)
               && PacketTold()
      requires sane <==> old(sane) && PacketFits()
      requires Live() ==> OnTrack() && (state == Begin ==> PacketDone()) && Tidy()
      requires Live() && ReadsWhole() ==> state != ExtentGet
      requires Live() && Willing() ==> Settled()
      requires !Live() ==>
                state != Begin && (sane ==> Excused() || BodyRefused())
                && (BodyChoked() && sane ==> filled == at)
      ensures BeginStep()
    {
      hide OnTrack, PacketDone, BodyRefused, Excused, PacketTold, HeaderUnfit, ReadsWhole, Bytes, Willing, PacketFits,
           Declared, DeclaredSize, BodyChoked, Mistaken, Settled;
    }

    /** Where the reader stands, and what is known and done by now. */
    ghost function Standing(): Mark
      requires Position() >= 0
      reads `at, `filled, `taken, `effects, `files, `newfile
    {
      Mark(Position(), effects, files, newfile)
    }

    lemma StandsSomewhere()
      requires Valid()
      ensures Position() >= 0
    {
    }

    /** Between packets, where `m` says. */
    ghost predicate Waited(m: Mark)
      reads `at, `filled, `taken, `effects, `files, `newfile, `state
    {
      state == Begin && Position() >= 0 && Standing() == m
    }

    /** In the packet that begins where `m` says, or at its end. */
    ghost predicate Marked(m: Mark)
      reads `at, `filled, `taken, `state, `extent, `extentAt, `files, `newfile, `effects, `pieces
      reads `pktType, `pktSize, `packetEnd, `snapshotFile, `mark, `stale, `node
    {
      mark == m && OnTrack() && (state == Begin ==> PacketDone())
    }

    /** As much was done of the current packet as the state says. */
    ghost predicate OnTrack()
      reads `at, `filled, `taken, `state, `extent, `extentAt, `files, `newfile, `effects, `pieces
      reads `pktType, `pktSize, `packetEnd, `snapshotFile, `mark, `stale, `node
    {
      match state
      case Begin => true
      case Header | Botched | NewFileCreate | FileMetaDo | ExtentStart => false // never between two steps
      case NewFileGet => AtMark() && PacketState() == NewFileGet
      case FileMetaGet => AtMark() && PacketState() == FileMetaGet
      case FileEndGet => AtMark() && PacketState() == FileEndGet
      case ExtentGet => AtMark() && PacketState() == ExtentGet
      case SnapshotListGet => AtMark() && PacketState() == SnapshotListGet && pktType == PACKET_SNAPSHOTS
      case SnapshotListRead => Untouched() && PacketTold() && PacketState() == SnapshotListGet
        && pktType == PACKET_SNAPSHOTS && ListGoes()
      case _ => Untouched() && PacketTold() && PacketState() == ExtentGet && ExtentMoved()
    }

    /** The current packet was handled. */
    ghost predicate PacketDone()
      reads `at, `filled, `taken, `state, `extent, `extentAt, `files, `newfile, `effects, `pieces
      reads `pktType, `pktSize, `packetEnd, `snapshotFile, `mark, `stale, `node
    {
      && PacketTold()
      && if mark.newfile.Some? then MetaDone()
         else if pktType == PACKET_FILE then FileDone()
         else if pktType == PACKET_FILE_END then EndDone()
         else if pktType == PACKET_EXTENT then Untouched() && ExtentMoved()
         else Untouched() && ListGoes()
    }

    /** Between packets, or in a payload: where only willing callbacks let a step end. */
    predicate Settled()
      reads `state
    {
      state == Begin || state == ExtentRead || state == SnapshotListRead
    }

    lemma BeginsOnTrack()
      requires AtMark() && state == PacketState() && PacketComplaint().None?
      ensures OnTrack() && state != Begin && PacketTold()
      ensures (pktType, pktSize) == Declared(mark.pos) && packetEnd == mark.pos + DeclaredSize(mark.pos)
    {
      hide Bytes, U16Of, U64Of;
    }

    lemma OnlyMetas()
      ensures PacketTold() && mark.newfile.Some? ==> pktType == PACKET_META
    {
      hide Bytes, U16Of;
    }

    /** The body of the current packet is one the reader does not take. */
    ghost predicate BodyRefused()
      reads `pktType, `pktSize, `mark
    {
      IsRefused(mark, pktType, Body())
    }

    /** The handler of a packet's body. */
    method HandlePacket() returns (r: Result)
      requires Valid() && Live()
      requires state in {FileMetaGet, NewFileGet, FileEndGet, ExtentGet, SnapshotListGet}
      modifies `at, `filled, `taken, `calls, `eof, `errc, `errstr, `state, `extent, `extentAt, `effects, `pieces
      modifies `files, `newfile, `snapshots, `snapshotFile, `stale, `node, buffer
      ensures Valid() && (r.Return? <==> Live()) && Grows(old(files), files)
      ensures Live() && old(OnTrack()) ==> OnTrack() && (state == Begin ==> PacketDone())
      ensures !Live() && sane && old(OnTrack()) ==> Excused() || BodyRefused()
      ensures Live() && ReadsWhole() && old(OnTrack()) ==> state != ExtentGet
      ensures Live() && Willing() ==> Settled()
      ensures !Live() && old(OnTrack()) && BodyChoked() ==> filled - at == old(filled - at)
      ensures taken >= old(taken)
      ensures !Live() ==> state != Begin
      ensures Tidy()
    {
      hide Valid, OnTrack, PacketDone, Excused, BodyRefused, Grows, ReadsWhole, Willing, BodyChoked;
      if state == ExtentGet || state == SnapshotListGet {
        GrowsItself(files);
        r := HandlePayload();
      } else {
        r := HandleWhole();
      }
    }

    /** The handler of a body that is handled as a whole. */
    method HandleWhole() returns (r: Result)
      requires Valid() && Live() && state in {FileMetaGet, NewFileGet, FileEndGet}
      modifies `at, `filled, `taken, `calls, `eof, `errc, `errstr, `state, `effects, `files, `newfile, `stale, `node,
               buffer
      ensures Valid() && (r.Return? <==> Live()) && Grows(old(files), files)
      ensures Live() && old(OnTrack()) ==> OnTrack() && (state == Begin ==> PacketDone())
      ensures !Live() && sane && old(OnTrack()) ==> Excused() || BodyRefused()
      ensures Live() && ReadsWhole() && old(OnTrack()) ==> state != ExtentGet
      ensures Live() && Willing() ==> Settled()
      ensures !Live() && old(OnTrack()) && BodyChoked() ==> filled - at == old(filled - at)
      ensures taken >= old(taken)
      ensures !Live() ==> state != Begin
      ensures Tidy()
    {
      hide Valid, PacketTold, FileDone, MetaDone, EndDone, ExtentMoved, ListGoes, Bytes, Grows, ReadsWhole, Willing;
      hide FileRefused, MetaRefused, EndRefused, ExtentRefused, ListRefused, CallersFault, Mistaken, Misread, Choked;
      WillingIsWhole();
      OnlyMetas();
      GrowsItself(files);
      match state
      case FileMetaGet => r := GetFileMeta();
      case NewFileGet => r := GetNewFile();
      case FileEndGet => r := GetFileEnd();
      case _ =>
    }

    /** The handler of a body that is handled in parts. */
    method HandlePayload() returns (r: Result)
      requires Valid() && Live() && (state == ExtentGet || state == SnapshotListGet)
      modifies `at, `filled, `taken, `calls, `eof, `errc, `errstr, `state, `extent, `extentAt, `effects, `pieces
      modifies `snapshots, `snapshotFile, buffer
      ensures Valid() && (r.Return? <==> Live())
      ensures Live() && old(OnTrack()) ==> OnTrack() && (state == Begin ==> PacketDone())
      ensures !Live() && sane && old(OnTrack()) ==> Excused() || BodyRefused()
      ensures Live() && ReadsWhole() && old(OnTrack()) ==> state != ExtentGet
      ensures Live() && Willing() ==> Settled()
      ensures !Live() && old(OnTrack()) && BodyChoked() ==> filled - at == old(filled - at)
      ensures taken >= old(taken)
      ensures !Live() ==> state != Begin
      ensures Tidy()
    {
      hide Valid, OnTrack, PacketDone, AtMark, ExtentMoved, ListGoes, Whole, Bytes, ReadsWhole, Willing;
      hide ExtentRefused, ListRefused, BodyRefused, CallersFault, Mistaken, Misread;
      WillingIsWhole();
      if state == ExtentGet {
        r := GetExtentHeader();
        HeaderOnTrack();
      } else {
        r := GetSnapshotList();
        ListHeaderOnTrack();
      }
    }

    /** The bookkeeping of HandlePayload. */
    twostate lemma HeaderOnTrack()
      requires old(state) == ExtentGet && (Live() ==> InBody() || state == Begin || state == ExtentGet)
      requires unchanged(`files, `newfile, `mark, `pktType, `pktSize, `packetEnd)
      requires Live() && old(AtMark()) ==> if state == ExtentGet then AtMark() else ExtentMoved()
      ensures Live() && old(OnTrack()) ==> OnTrack() && (state == Begin ==> PacketDone())
      ensures old(OnTrack()) ==> old(AtMark()) && !BodyChoked()
      ensures old(OnTrack()) && ExtentRefused(mark.files, Body()) ==> BodyRefused()
    {
      hide PacketTold, Bytes, ExtentRefused, ExtentMoved, Choked;
    }

    twostate lemma ListHeaderOnTrack()
      requires old(state) == SnapshotListGet && (Live() ==> state in {SnapshotListGet, SnapshotListRead, Begin})
      requires unchanged(`files, `newfile, `mark, `pktType, `pktSize, `packetEnd)
      requires Live() && old(AtMark()) ==> if state == SnapshotListGet then AtMark() else ListGoes()
      ensures Live() && old(OnTrack()) ==> OnTrack() && (state == Begin ==> PacketDone())
      ensures old(OnTrack()) ==> old(AtMark()) && !BodyChoked()
      ensures old(OnTrack()) && ListRefused(mark.files, Body()) ==> BodyRefused()
    {
      hide PacketTold, Bytes, ListRefused, ListGoes, Choked;
    }

    /** The header of a packet. */
    method ReadPacketHeader() returns (r: Result)
      requires Valid() && Live() && state == Begin
      modifies `at, `filled, `taken, `calls, `eof, `errc, `errstr, `state, `pktType, `pktSize, `packetEnd, `mark, `sane,
               buffer
      ensures Valid() && (r.Return? <==> Live()) && (sane <==> old(sane) && PacketFits())
      ensures r.Return? && r.rc < 0 ==> state == Begin && Position() == old(Position()) && pktType == old(pktType)
      ensures r.Return? && r.rc >= 0 ==> state == PacketState() && PacketComplaint() == None
      ensures r.Return? && r.rc >= 0 ==> mark == Mark(old(Position()), effects, files, newfile) && AtMark()
      ensures r.Return? && r.rc >= 0 ==> Bytes(input, mark.pos, SIZEOF_PACKET)[..2] == [0x46, 0x49]
      ensures r.Jump? ==> CallersFault() || HeaderRefused(old(Position()))
      ensures (pktType, pktSize) == old((pktType, pktSize)) || (pktType, pktSize) == Declared(old(Position()))
      ensures r.Return? && ReadsWhole() ==> r.rc >= 0
      ensures taken >= old(taken)
      ensures r.Jump? && state == Begin ==> Position() == old(Position())
      ensures if r.Jump? then errc == 0 || errstr !in {Some(CapacityExceeded), Some(EndFileDisappeared)}
              else r.rc >= 0 && sane ==> filled == at
      ensures taken < old(Position()) + SIZEOF_PACKET ==>
                && (pktType, pktSize) == old((pktType, pktSize))
                && if r.Return? then r.rc < 0 else state == Begin && CallersFault()
      ensures r.Jump? || r.rc < 0 ==> BeginStep()
    {
      hide Valid, ReadsWhole, Ground, Bytes, Memory, U16Of, U64Of, AtMark, HeaderRefused, PacketComplaint, BeginStep;
      StandsSomewhere();
      AtPacketHeader();
      r := BufferAtLeast(SIZEOF_PACKET);
      if r.Return? && r.rc >= 0 {
        AtPacketHeader();
        r := BeginPacket();
      }
      if r.Jump? || r.rc < 0 {
        NoPacketBegan(r);
      }
    }

    /** Checks a packet header that is buffered. */
    method BeginPacket() returns (r: Result)
      requires Ground() && Live() && snapshots == [] && SIZEOF_PACKET <= filled - at
               && (sane ==> filled - at <= SIZEOF_PACKET)
      modifies `at, `eof, `errc, `errstr, `state, `pktType, `pktSize, `packetEnd, `mark, `sane
      ensures Valid() && (r.Return? <==> Live()) && (sane <==> old(sane) && PacketFits())
      ensures r.Return? ==> r.rc == 0 && state == PacketState() && PacketComplaint() == None
      ensures r.Return? ==> mark == Mark(old(Position()), effects, files, newfile) && AtMark()
      ensures r.Return? ==> Bytes(input, mark.pos, SIZEOF_PACKET)[..2] == [0x46, 0x49]
      ensures r.Jump? ==> HeaderRefused(old(Position()))
      ensures (pktType, pktSize) == old((pktType, pktSize)) || (pktType, pktSize) == Declared(old(Position()))
      ensures r.Jump? && state == Begin ==> Position() == old(Position())
      ensures if r.Jump? then errc == 0 || errstr !in {Some(CapacityExceeded), Some(EndFileDisappeared)}
              else sane ==> filled == at
    {
      hide Valid, Ground, Bytes, Memory, U16Of, U64Of, PacketFits, PacketProblem, PacketTold;
      WindowBounds();
      MemoryIsStream(SIZEOF_PACKET);
      FitsIfSane();
      var pkt := Memory(at, SIZEOF_PACKET);
      if pkt[0] != 0x46 || pkt[1] != 0x49 {
        r := RefusePacket(BadPacketMagic);
        return;
      }
      NotePacket(U16Of(pkt, 2), U64Of(pkt, 8));
      if U64Of(pkt, 8) < SIZEOF_PACKET {
        r := RefusePacket(BadPacketSize);
        return;
      }
      r := EnterPacket();
    }

    /** Notes where the packet ends, consumes its header and chooses the state for its body. */
    method EnterPacket() returns (r: Result)
      requires Ground() && Live() && snapshots == [] && SIZEOF_PACKET <= filled - at
               && (sane ==> filled - at <= SIZEOF_PACKET)
      requires pktSize + SIZEOF_PACKET == DeclaredSize(Position())
               && pktType == U16Of(Bytes(input, Position(), SIZEOF_PACKET), 2)
      modifies `at, `eof, `errc, `errstr, `state, `packetEnd, `mark
      ensures Valid() && (r.Return? <==> Live())
      ensures r.Return? ==> r.rc == 0 && state == PacketState() && PacketComplaint() == None
      ensures r.Return? ==> mark == Mark(old(Position()), effects, files, newfile) && AtMark()
      ensures r.Jump? ==> PacketComplaint().Some?
      ensures r.Jump? ==> state != Begin
      ensures if r.Jump? then errc == 0 || errstr == PacketComplaint() else sane ==> filled == at
    {
      hide Valid, Ground, Bytes, U16Of, U64Of, PacketProblem;
      WindowBounds();
      packetEnd, mark := Position() + DeclaredSize(Position()), Mark(Position(), effects, files, newfile);
      r := Eat(SIZEOF_PACKET, Botched);
      r := Dispatch();
    }

    lemma FitsIfSane()
      requires Ground()
      ensures sane ==> PacketFits()
    {
    }

    method NotePacket(kind: nat, size: nat)
      requires Ground()
      modifies `pktType, `pktSize, `sane
      ensures Ground() && pktType == kind && pktSize == (size - SIZEOF_PACKET) % U64
      ensures sane <==> old(sane) && PacketFits()
    {
      hide Window, TableOk;
      pktType := kind;
      pktSize := (size - SIZEOF_PACKET) % U64;
      sane := sane && PacketFits();
    }

    lemma AtPacketHeader()
      requires Valid() && Live() && state == Begin
      ensures Ground() && snapshots == [] && (sane ==> filled - at <= SIZEOF_PACKET && PacketFits())
    {
    }

    method RefusePacket(msg: Complaint) returns (r: Result)
      requires Ground()
      requires msg !in {DroppedFile, MetaFileDisappeared, Overrun}
      modifies `errc, `errstr
      ensures Valid() && r.Jump? && !Live() && errc != 0 && errstr == Some(msg)
    {
      r := Throw(EINVAL, msg);
    }

    /** Chooses the state for the body of the packet. */
    method Dispatch() returns (r: Result)
      requires Ground() && Live() && snapshots == []
      requires sane ==> filled == at && Position() + pktSize == packetEnd
      modifies `eof, `errc, `errstr, `state
      ensures Valid() && (r.Return? <==> Live())
      ensures r.Return? ==> r.rc == 0 && state == PacketState()
      ensures r.Return? <==> PacketComplaint() == None
      ensures r.Jump? ==>
                if newfile.None? && pktType == PACKET_END then eof && errc == 0
                else errc != 0 && errstr == PacketComplaint()
      ensures r.Jump? ==> state == old(state)
    {
      hide Window, TableOk;
      var complaint := PacketComplaint();
      if complaint.Some? {
        if newfile.None? && pktType == PACKET_END {
          eof := true;
          return Jump;
        }
        r := Throw(EINVAL, complaint.value);
        return;
      }
      state := PacketState();
      return Return(0);
    }

    // ----- the main loop

    /** One step: 1 after progress, 0 at the end, a negative code after an error or a wait. */
    method Iterate() returns (rc: int)
      requires Valid()
      modifies this, buffer
      ensures Valid() && Grows(old(files), files) && taken >= old(taken)
      ensures old(Live()) ==> Stepped()
      ensures !old(Live()) ==> rc == errc && files == old(files) && effects == old(effects)
      ensures old(Live()) && !Live() ==> rc == errc
      ensures Live() ==> rc < 0 || rc == 1
    {
      hide Valid, Stepped;
      GrowsItself(files);
      if errc != 0 {
        return errc;
      }
      if eof {
        return 0;
      }
      var r := Step();
      if r.Jump? {
        return errc;
      }
      return if r.rc < 0 then r.rc else 1;
    }

    lemma FitsWhenValid()
      requires Valid()
      ensures sane ==> PacketFits()
    {
    }

    /** What a step does depends on whether it begins in front of, between or inside of packets. */
    twostate predicate Stepped()
      reads this
    {
      && old(Position()) >= 0
      && if old(state) == Header then HeaderStep() else if old(state) == Begin then BeginStep() else InsideStep()
    }

    /** The handler of the current state. */
    method Step() returns (r: Result)
      requires Valid() && Live()
      modifies this, buffer
      ensures Valid() && Grows(old(files), files) && (r.Return? <==> Live()) && Stepped() && taken >= old(taken)
    {
      hide Valid, HeaderStep, BeginStep, InsideStep;
      GrowsItself(files);
      StandsSomewhere();
      if state == Header {
        r := ReadHeader();
      } else if state == Begin {
        r := ReadPacket();
      } else {
        r := Resume();
      }
    }

    /** A step of a reader inside of a packet. */
    twostate predicate InsideStep()
      reads this
    {
      && mark == old(mark) && pktType == old(pktType) && pktSize == old(pktSize) && packetEnd == old(packetEnd)
      && (sane <==> old(sane) && old(state) != ExtentGet)
      && (!Live() && sane ==> state != Begin) && Tidy()
      && (Live() && old(state) == ExtentRead && state == Begin ==> Whole(old(Position() - extentAt)))
      && (Live() && old(state) == SnapshotListRead ==>
            old(snapshotFile).Some?
              && ListMoved(old(effects), old(snapshotFile).value.handle, old(Position() - extentAt)))
      && (errc != 0 && old(state) == SnapshotListRead && old(ListGoesOn()) ==>
            errstr in {Some(ReadFailed), Some(ReadMisbehaved)})
      && (sane && old(OnTrack()) ==> if Live() then Marked(mark) else Excused() || BodyRefused())
      && (Live() && sane && ReadsWhole() && old(OnTrack()) ==> state != ExtentGet)
      && (Live() && Willing() && (old(state) == ExtentRead || (old(state) == SnapshotListRead && old(ListGoesOn()))) ==>
            state == Begin || (state == old(state) && extentAt > old(extentAt)))
    }

    /** The handler of a state inside of a packet. */
    method Resume() returns (r: Result)
      requires Valid() && Live() && state != Header && state != Begin
      modifies `at, `filled, `taken, `calls, `eof, `errc, `errstr, `state, `extent, `extentAt, `effects, `pieces
      modifies `files, `newfile, `snapshots, `snapshotFile, `sane, `stale, `node, buffer
      ensures Valid() && Grows(old(files), files) && (r.Return? <==> Live()) && InsideStep() && taken >= old(taken)
    {
      hide Valid, Whole, ListMoved, ListGoesOn, PacketFits, OnTrack, PacketDone, Excused, BodyRefused, ReadsWhole,
           Willing, Grows;
      WillingIsWhole();
      GrowsItself(files);
      if InBody() {
        r := ResumeBody();
      } else if state == SnapshotListRead {
        r := ResumeList();
      } else {
        r := ResumeStart();
      }
    }

    /** The handler of a state in front of a packet's payload. */
    method ResumeStart() returns (r: Result)
      requires Valid() && Live() && state != Header && state != Begin && !InBody() && state != SnapshotListRead
      modifies `at, `filled, `taken, `calls, `eof, `errc, `errstr, `state, `extent, `extentAt, `effects, `pieces
      modifies `files, `newfile, `snapshots, `snapshotFile, `sane, `stale, `node, buffer
      ensures Valid() && Grows(old(files), files) && (r.Return? <==> Live()) && InsideStep() && taken >= old(taken)
    {
      hide Valid, Whole, ListMoved, ListGoesOn, PacketFits, OnTrack, PacketDone, Excused, BodyRefused, ReadsWhole,
           Willing, Grows, Live;
      NeverBetween();
      GrowsItself(files);
      match state
      case NewFileGet | FileMetaGet | FileEndGet | SnapshotListGet => r := HandlePacket();
      case NewFileCreate | FileMetaDo | ExtentStart => r := HandleBuffered();
      case ExtentGet => r := ResumeHeader();
      case Botched => r := ThrowBotched();
    }

    lemma NeverBetween()
      ensures OnTrack() ==> state !in {Header, Botched, NewFileCreate, FileMetaDo, ExtentStart}
    {
    }

    /** The handler of a body whose fixed part is buffered. */
    method HandleBuffered() returns (r: Result)
      requires Valid() && Live() && (state == NewFileCreate || state == FileMetaDo || state == ExtentStart)
      modifies `at, `filled, `taken, `calls, `eof, `errc, `errstr, `state, `extent, `extentAt, `effects, `pieces
      modifies `files, `newfile, `node, buffer
      ensures Valid() && (r.Return? <==> Live()) && Grows(old(files), files)
      ensures taken >= old(taken)
      ensures !Live() ==> state != Begin
      ensures Tidy()
    {
      hide Valid;
      GrowsItself(files);
      match state
      case NewFileCreate => r := NewFile();
      case FileMetaDo => r := HandleFileMeta();
      case ExtentStart => r := StartExtent();
    }

    /** Goes on with the body of an extent. */
    method ResumeBody() returns (r: Result)
      requires Valid() && Live() && InBody()
      modifies `at, `filled, `taken, `calls, `eof, `errc, `errstr, `state, `extentAt, `effects, `pieces, buffer
      ensures Valid() && (r.Return? <==> Live()) && (Live() ==> state == old(state) || state == Begin)
      ensures Live() && state == Begin && old(state) == ExtentRead ==> Whole(old(Position() - extentAt))
      ensures Live() && Willing() ==> state == Begin || (state == ExtentRead && extentAt > old(extentAt))
      ensures Live() && old(OnTrack()) ==> OnTrack() && (state == Begin ==> PacketDone())
      ensures !Live() && sane && old(OnTrack()) ==> Excused() || BodyRefused()
      ensures taken >= old(taken)
      ensures !Live() ==> state != Begin
      ensures Tidy()
    {
      hide Valid, Whole, OnTrack, PacketDone, ExtentMoved, CallersFault, Stumbled, Willing, BodyRefused,
           SourceUnknown;
      r := HandleBody();
      BodyOnTrack();
    }

    /** The bookkeeping of ResumeBody. */
    twostate lemma BodyOnTrack()
      requires old(InBody()) && (Live() ==> state == old(state) || state == Begin)
      requires unchanged(`extent, `files, `newfile, `mark, `pktType, `pktSize, `packetEnd)
      requires Live() && old(ExtentMoved()) ==> ExtentMoved()
      ensures Live() && old(OnTrack()) ==> OnTrack() && (state == Begin ==> PacketDone())
      ensures old(OnTrack()) ==> old(ExtentMoved())
      ensures old(OnTrack()) && SourceUnknown() ==> BodyRefused()
    {
      hide PacketTold, Bytes, ExtentRefused, SourceUnknown, ExtentDone, ExtentComplaint, ParseExtent;
      SourceIsRefused();
    }

    /** Goes on with a snapshot list. */
    method ResumeList() returns (r: Result)
      requires Valid() && Live() && state == SnapshotListRead
      modifies `at, `filled, `taken, `calls, `eof, `errc, `errstr, `state, `extentAt, `snapshots, `snapshotFile,
               `effects, buffer
      ensures Valid() && (r.Return? <==> Live()) && (Live() ==> state == Begin || state == SnapshotListRead)
      ensures Live() ==>
                old(snapshotFile).Some?
                  && ListMoved(old(effects), old(snapshotFile).value.handle, old(Position() - extentAt))
      ensures errc != 0 && old(ListGoesOn()) ==> errstr in {Some(ReadFailed), Some(ReadMisbehaved)}
      ensures Live() && ReadsWhole() && old(ListGoesOn()) ==> state == Begin || extentAt > old(extentAt)
      ensures Live() && old(OnTrack()) ==> OnTrack() && (state == Begin ==> PacketDone())
      ensures !Live() && sane && old(OnTrack()) ==> Excused() || BodyRefused()
      ensures taken >= old(taken)
      ensures !Live() ==> state != Begin
      ensures Tidy()
    {
      hide Valid, OnTrack, PacketDone, ListGoes, ListGoesOn, ListMoved, CallersFault, Mistaken, Misread, BodyChoked,
           BodyRefused, ListRefused, ReadsWhole;
      r := ContinueList();
      ListOnTrack();
    }

    /** The bookkeeping of ResumeList. */
    twostate lemma ListOnTrack()
      requires old(state) == SnapshotListRead && (Live() ==> state == SnapshotListRead || state == Begin)
      requires unchanged(`files, `newfile, `mark, `pktType, `pktSize, `packetEnd)
      requires Live() && old(ListGoes()) ==> ListGoes()
      ensures Live() && old(OnTrack()) ==> OnTrack() && (state == Begin ==> PacketDone())
      ensures old(OnTrack()) ==> old(ListGoes())
      ensures old(OnTrack()) && ListRefused(files, Body()) ==> BodyRefused()
    {
      hide PacketTold, Bytes, ListRefused, ListGoes;
    }

    method ThrowBotched() returns (r: Result)
      requires Valid()
      modifies `errc, `errstr
      ensures Valid() && r.Jump? && !Live()
    {
      hide Ground;
      r := Throw(EFAULT, BotchedState);
    }

    /** After the rest of an extent header arrived, the header is started twice: the case falls through. */
    method ResumeHeader() returns (r: Result)
      requires Valid() && Live() && state == ExtentGet
      modifies `at, `filled, `taken, `calls, `eof, `errc, `errstr, `state, `extent, `extentAt, `effects, `pieces, `sane,
               buffer
      ensures Valid() && (r.Return? <==> Live()) && !sane
      ensures taken >= old(taken)
      ensures Tidy()
    {
      Distrust();
      r := GetExtentHeader();
      if r.Jump? || r.rc < 0 {
        return;
      }
      r := StartExtent();
    }

    ghost method Distrust()
      requires Valid()
      modifies `sane
      ensures Valid() && !sane
    {
      hide Window, TableOk;
      sane := false;
    }

    /** Any number of steps, whatever the stream holds and whatever the callbacks do. */
    method Drive(steps: nat) returns (rc: int)
      requires Valid()
      modifies this, buffer
      ensures Valid() && Grows(old(files), files)
    {
      GrowsItself(files);
      rc := 1;
      var i := 0;
      while i < steps && rc > 0
        invariant Valid() && Grows(old(files), files)
      {
        ghost var before := files;
        rc := Iterate();
        GrowsOn(old(files), before, files);
        i := i + 1;
      }
    }
  }

  lemma GrowsOn(a: map<nat, Entry>, b: map<nat, Entry>, c: map<nat, Entry>)
    requires Grows(a, b) && Grows(b, c)
    ensures Grows(a, c)
  {
  }

  lemma GrowsItself(a: map<nat, Entry>)
    ensures Grows(a, a)
  {
  }
}
