/** The packets of a stream, and what the reader does with each of them (lib/fies_reader.c). */
module Protocol {
  import opened Common

  type byte = x: int | 0 <= x < 256

  // ----- constants of include/fies.h

  const M_FREF: nat := 0x20000
  const M_FHARD: nat := 0x10000
  const M_FLNK: nat := 0xA000
  const M_FREG: nat := 0x8000
  const M_FBLK: nat := 0x6000
  const M_FDIR: nat := 0x4000
  const M_FCHR: nat := 0x2000
  const M_FIFO: nat := 0x1000

  const FL_DATA: nat := 0x01
  const FL_ZERO: nat := 0x02
  const FL_HOLE: nat := 0x04
  const FL_COPY: nat := 0x08
  const META_CUSTOM: nat := 0x8000

  const SIZEOF_FILE: nat := 24
  const SIZEOF_DEVICE: nat := 8
  const SIZEOF_META: nat := 8
  const SIZEOF_XATTR: nat := 8
  const BUFFER_CAPACITY: nat := 128 * 1024

  /** `mode & FIES_M_FMT`: six bits starting at bit 12. */
  function FileType(mode: nat): nat {
    mode / 0x1000 % 0x40 * 0x1000
  }

  /** The types whose FILE packets carry device numbers. */
  predicate IsNode(fileType: nat) {
    fileType == M_FCHR || fileType == M_FBLK || fileType == M_FIFO
  }

  /** `flags & FIES_FL_EXTYPE_MASK`. */
  function Extype(flags: nat): nat {
    flags % 0x100
  }

  /** `flags & FIES_FL_SHARED`. */
  predicate IsShared(flags: nat) {
    flags / 0x100 % 2 == 1
  }

  /** `flags & FIES_FL_COPY`. */
  predicate IsCopy(flags: nat) {
    flags / 8 % 2 == 1
  }

  lemma SharedIsABit(flags: nat)
    requires flags < U32
    ensures IsShared(flags) <==> flags as bv32 & 0x100 != 0
  {
  }

  lemma CopyIsABit(flags: nat)
    requires flags < U32
    ensures IsCopy(flags) <==> flags as bv32 & 0x8 != 0
  {
  }

  /** The type of an extent is the lowest byte of its flags, and each type has a bit of its own. */
  lemma TypesOfFlags(high: nat, low: nat)
    requires low < 0x100
    ensures Extype(high * 0x100 + low) == low
    ensures (low == FL_DATA <==> low == 1) && (low == FL_ZERO <==> low == 2)
    ensures (low == FL_HOLE <==> low == 4) && (low == FL_COPY <==> low == 8)
  {
  }

  /** The type of a file is in the six bits above the permissions. */
  lemma TypesOfModes(high: nat, t: nat, permissions: nat)
    requires t < 0x40 && permissions < 0x1000
    ensures var type_ := FileType((high * 0x40 + t) * 0x1000 + permissions);
            && (type_ == M_FIFO <==> t == 0x1) && (type_ == M_FCHR <==> t == 0x2) && (type_ == M_FDIR <==> t == 0x4)
            && (type_ == M_FBLK <==> t == 0x6) && (type_ == M_FREG <==> t == 0x8) && (type_ == M_FLNK <==> t == 0xA)
            && (type_ == M_FHARD <==> t == 0x10) && (type_ == M_FREF <==> t == 0x20)
            && (type_ == 0 <==> t == 0) && (IsNode(type_) <==> t in {0x1, 0x2, 0x6})
  {
    var mode := (high * 0x40 + t) * 0x1000 + permissions;
    assert mode / 0x1000 == high * 0x40 + t;
  }

  // ----- packets

  datatype ExtentBody =
    | NoBody
    | Payload(data: seq<byte>)
    | Source(file: nat, offset: nat)

  datatype MetaBody =
    | MetaEnd
    | MetaOwner(uid: nat, gid: nat)
    | MetaTime(secs: nat, nsecs: nat)
    | MetaXAttr(name: seq<byte>, value: seq<byte>)
    | MetaOther(kind: nat)

  /** The numbers of a device node. */
  datatype NodeId = NodeId(major: nat, minor: nat)

  datatype Packet =
    | File(id: nat, mode: nat, size: nat, name: seq<byte>, link: seq<byte>, node: Option<NodeId>)
    | Meta(file: nat, meta: MetaBody)
    | Extent(file: nat, flags: nat, offset: nat, length: nat, body: ExtentBody)
    | FileEnd(file: nat)
    | SnapshotList(file: nat, names: seq<seq<byte>>)

  // ----- the reader, one packet at a time

  /** A file the reader knows, and the bytes the receiver's copy of it holds. */
  datatype ReaderFile = ReaderFile(size: nat, mode: nat, data: seq<byte>)

  datatype ReaderState = ReaderState(files: map<nat, ReaderFile>, newfile: Option<nat>)

  datatype Error =
    | MissingMeta | UnexpectedMeta | FilePacketTooLarge
    | DuplicateFileId | HardlinkToUnknownFile | NonSymlinkWithLink | SymlinkWithoutTarget
    | LinkLengthMismatch | SpecialFile | TruncatedFilePacket | NameLengthMismatch
    | BadMetaFileId | BadMeta | BadXAttr | NoBuffers
    | BadExtentFileId | ExtentExceedsFile | UnknownFlags | BadExtentSize | BadExtentType
    | CloneFromUnknownFile | CloneError
    | UnknownFileEnd | SnapshotsForUnknownFile | BadSnapshotListSize

  datatype Outcome = Ok(state: ReaderState) | Throw(error: Error)

  /** Byte `i` of the receiver's file `name` at the moment the reader opens or creates it. */
  type Environment = (seq<byte>, nat) -> byte

  const InitialState: ReaderState := ReaderState(map[], None)

  function Opened(env: Environment, name: seq<byte>, size: nat): seq<byte> {
    seq(size, i requires 0 <= i < size => env(name, i))
  }

  /** The bytes that device numbers take in a FILE packet. */
  function NodeSize(node: Option<NodeId>): nat {
    if node.Some? then SIZEOF_DEVICE else 0
  }

  /** FiesReader_newFileCreate, with the size check made by FiesReader_readPacket. */
  function ApplyFile(env: Environment, s: ReaderState, p: Packet): Outcome
    requires p.File?
  {
    var t := FileType(p.mode);
    if |p.name| + |p.link| + NodeSize(p.node) > 0xFFFF then Throw(FilePacketTooLarge)
    else if p.id in s.files && t != M_FHARD then Throw(DuplicateFileId)
    else if t == M_FHARD && p.id !in s.files then Throw(HardlinkToUnknownFile)
    else if t != M_FLNK && p.link != [] then Throw(NonSymlinkWithLink)
    else if t == M_FLNK && p.link == [] then Throw(SymlinkWithoutTarget)
    else if t == M_FLNK && 0 in p.link then Throw(LinkLengthMismatch)
    else if !IsNode(t) && t !in {M_FLNK, M_FREG, M_FHARD, M_FDIR, M_FREF} then Throw(SpecialFile)
    else if IsNode(t) && p.node.None? then Throw(TruncatedFilePacket)
    else if 0 in p.name then Throw(NameLengthMismatch)
    else if t == M_FHARD then Ok(s.(newfile := None))
    else Ok(ReaderState(s.files[p.id := ReaderFile(p.size, p.mode, Opened(env, p.name, p.size))],
                        if t == M_FREF then s.newfile else Some(p.id)))
  }

  /** FiesReader_handleFileMeta for a packet that fits the buffer. */
  function ApplyMeta(s: ReaderState, file: nat, meta: MetaBody): Outcome
    requires s.newfile.Some?
  {
    if meta.MetaXAttr? && SIZEOF_META + SIZEOF_XATTR + |meta.name| + 1 + |meta.value| > BUFFER_CAPACITY then
        Throw(NoBuffers)
    else if file != s.newfile.value then Throw(BadMetaFileId)
    else
      match meta
      case MetaEnd => Ok(s.(newfile := None))
      case MetaOwner(_, _) => Ok(s)
      case MetaTime(_, _) => Ok(s)
      case MetaXAttr(name, _) => if 0 in name then Throw(BadXAttr) else Ok(s)
      case MetaOther(kind) => if kind >= META_CUSTOM then Ok(s) else Throw(BadMeta)
  }

  function Overwrite(data: seq<byte>, offset: nat, bytes: seq<byte>): (r: seq<byte>)
    requires offset + |bytes| <= |data|
    ensures |r| == |data|
  {
    data[..offset] + bytes + data[offset + |bytes|..]
  }

  lemma OverwriteAt(data: seq<byte>, offset: nat, bytes: seq<byte>, i: nat)
    requires offset + |bytes| <= |data| && i < |data|
    ensures Overwrite(data, offset, bytes)[i]
            == if offset <= i < offset + |bytes| then bytes[i - offset] else data[i]
  {
  }

  function Zeros(n: nat): seq<byte> {
    seq(n, _ => 0)
  }

  /** FiesReader_startExtent and the handlers it hands over to, run to completion. */
  function ApplyExtent(s: ReaderState, file: nat, flags: nat, offset: nat, length: nat, body: ExtentBody): Outcome {
    if file !in s.files then Throw(BadExtentFileId)
    else
      var f := s.files[file];
      if offset + length > f.size || |f.data| != f.size then Throw(ExtentExceedsFile)
      else if flags != Extype(flags) then Throw(UnknownFlags)
      else if flags == FL_ZERO || flags == FL_HOLE then
        if !body.NoBody? then Throw(BadExtentSize)
        else Ok(s.(files := s.files[file := f.(data := Overwrite(f.data, offset, Zeros(length)))]))
      else if flags == FL_COPY then
        if !body.Source? then Throw(BadExtentSize)
        else if body.file !in s.files then Throw(CloneFromUnknownFile)
        else
          var src := s.files[body.file].data;
          if body.offset + length > |src| then Throw(CloneError)
          else
            var cloned := Overwrite(f.data, offset, src[body.offset..body.offset + length]);
            Ok(s.(files := s.files[file := f.(data := cloned)]))
      else if flags != FL_DATA then Throw(BadExtentType)
      else if !body.Payload? || |body.data| != length then Throw(BadExtentSize)
      else Ok(s.(files := s.files[file := f.(data := Overwrite(f.data, offset, body.data))]))
  }

  /** FiesReader_readPacket. */
  function Apply(env: Environment, s: ReaderState, p: Packet): Outcome {
    if s.newfile.Some? then
      if p.Meta? then ApplyMeta(s, p.file, p.meta) else Throw(MissingMeta)
    else
      match p
      case Meta(_, _) => Throw(UnexpectedMeta)
      case File(_, _, _, _, _, _) => ApplyFile(env, s, p)
      case Extent(file, flags, offset, length, body) => ApplyExtent(s, file, flags, offset, length, body)
      case FileEnd(file) => if file in s.files then Ok(s) else Throw(UnknownFileEnd)
      case SnapshotList(file, names) =>
        if file !in s.files then Throw(SnapshotsForUnknownFile)
        else if names == [] || names[|names| - 1] == [] then Throw(BadSnapshotListSize)
        else Ok(s)
  }

  /** The state after all packets of `log`, or the first error. */
  function Run(env: Environment, log: seq<Packet>): Outcome {
    if log == [] then Ok(InitialState)
    else
      var n := |log| - 1;
      var r := Run(env, log[..n]);
      if r.Throw? then r else Apply(env, r.state, log[n])
  }

  lemma {:induction false} RunStep(env: Environment, log: seq<Packet>, p: Packet)
    ensures Run(env, log + [p]) == (var r := Run(env, log); if r.Throw? then r else Apply(env, r.state, p))
  {
    assert (log + [p])[..|log|] == log;
  }
}
