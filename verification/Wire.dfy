/** The bytes of a stream (include/fies.h, lib/fies_writer.c). */
module Wire {
  import opened Common
  import opened Protocol
  import opened Reader

  // ----- little endian numbers

  function U16Bytes(n: nat): (r: seq<byte>)
    requires n < 0x1_0000
    ensures |r| == 2 && U16Of(r, 0) == n
  {
    [n % 256, n / 256]
  }

  function U32Bytes(n: nat): (r: seq<byte>)
    requires n < U32
    ensures |r| == 4 && U32Of(r, 0) == n
  {
    U16Bytes(n % 0x1_0000) + U16Bytes(n / 0x1_0000)
  }

  function U64Bytes(n: nat): (r: seq<byte>)
    requires n < U64
    ensures |r| == 8 && U64Of(r, 0) == n
  {
    var r := U32Bytes(n % U32) + U32Bytes(n / U32);
    NumbersAt(U32Bytes(n % U32), U32Bytes(n / U32), []);
    NumbersAt([], U32Bytes(n % U32), U32Bytes(n / U32));
    r
  }

  /** A number is read where its bytes are. */
  lemma NumbersAt(a: seq<byte>, b: seq<byte>, c: seq<byte>)
    ensures |b| >= 2 ==> U16Of(a + b + c, |a|) == U16Of(b, 0)
    ensures |b| >= 4 ==> U32Of(a + b + c, |a|) == U32Of(b, 0)
    ensures |b| >= 8 ==> U64Of(a + b + c, |a|) == U64Of(b, 0)
  {
  }

  // ----- packets

  function KindOf(p: Packet): nat {
    match p
    case File(_, _, _, _, _, _) => PACKET_FILE
    case Meta(_, _) => PACKET_META
    case Extent(_, _, _, _, _) => PACKET_EXTENT
    case FileEnd(_) => PACKET_FILE_END
    case SnapshotList(_, _) => PACKET_SNAPSHOTS
  }

  function MetaKind(m: MetaBody): nat {
    match m
    case MetaEnd => META_END
    case MetaOwner(_, _) => META_OWNER
    case MetaTime(_, _) => META_TIME
    case MetaXAttr(_, _) => META_XATTR
    case MetaOther(kind) => kind
  }

  /** All fields fit their width. */
  predicate Encodable(p: Packet) {
    match p
    case File(id, mode, size, name, link, node) =>
      && id < U32 && mode < U32 && size < U64 && |name| <= 0xFFFF && |link| <= 0xFFFF
      && (node.Some? ==> node.value.major < U32 && node.value.minor < U32)
    case Meta(file, m) => file < U32 && MetaEncodable(m)
    case Extent(file, flags, offset, length, body) =>
      && file < U32 && flags < U32 && offset < U64 && length < U64
      && (body.Source? ==> body.file < U32 && body.offset < U64)
      && (body.Payload? ==> |body.data| < U64 - SIZEOF_PACKET - SIZEOF_EXTENT)
    case FileEnd(file) => file < U32
    case SnapshotList(file, names) =>
      file < U32 && |names| <= 0xFFFF && forall i :: 0 <= i < |names| ==> |names[i]| <= 0xFFFF
  }

  predicate MetaEncodable(m: MetaBody) {
    match m
    case MetaEnd => true
    case MetaOwner(uid, gid) => uid < U32 && gid < U32
    case MetaTime(secs, nsecs) => secs < U64 && nsecs < U32
    case MetaXAttr(name, value) => |name| < U32 && |value| < U32
    case MetaOther(kind) => kind < U32 && kind !in {META_END, META_OWNER, META_TIME, META_XATTR}
  }

  function MetaBytes(m: MetaBody): seq<byte>
    requires MetaEncodable(m)
  {
    match m
    case MetaEnd => []
    case MetaOwner(uid, gid) => U32Bytes(uid) + U32Bytes(gid)
    case MetaTime(secs, nsecs) => U64Bytes(secs) + U32Bytes(nsecs)
    case MetaXAttr(name, value) => U32Bytes(|name|) + U32Bytes(|value|) + name + [0] + value
    case MetaOther(_) => []
  }

  /** The numbers of a device node. */
  function NodeBytes(node: NodeId): (r: seq<byte>)
    requires node.major < U32 && node.minor < U32
    ensures |r| == SIZEOF_DEVICE
  {
    U32Bytes(node.major) + U32Bytes(node.minor)
  }

  /** A packet's body, behind the packet header. */
  function BodyBytes(p: Packet): seq<byte>
    requires Encodable(p)
  {
    match p
    case File(id, mode, size, name, link, node) =>
      FileHeaderBytes(id, mode, size, |name|, |link|) + (name + link + if node.Some? then NodeBytes(node.value) else [])
    case Meta(file, m) => U32Bytes(MetaKind(m)) + U32Bytes(file) + MetaBytes(m)
    case Extent(file, flags, offset, length, body) =>
      ExtentHeaderBytes(file, flags, offset, length)
      + if body.Payload? then body.data else if body.Source? then U32Bytes(body.file) + U64Bytes(body.offset) else []
    case FileEnd(file) => U32Bytes(file)
    case SnapshotList(file, names) => U32Bytes(file) + U16Bytes(|names|) + U16Bytes(0) + ListBytes(names)
  }

  function FileHeaderBytes(id: nat, mode: nat, size: nat, nameLength: nat, linkLength: nat): (r: seq<byte>)
    requires id < U32 && mode < U32 && size < U64 && nameLength <= 0xFFFF && linkLength <= 0xFFFF
    ensures |r| == SIZEOF_FILE
  {
    U32Bytes(id) + U32Bytes(mode) + U64Bytes(size) + U16Bytes(nameLength) + U16Bytes(linkLength) + U32Bytes(0)
  }

  function ExtentHeaderBytes(file: nat, flags: nat, offset: nat, length: nat): (r: seq<byte>)
    requires file < U32 && flags < U32 && offset < U64 && length < U64
    ensures |r| == SIZEOF_EXTENT
  {
    U32Bytes(file) + U32Bytes(flags) + U64Bytes(offset) + U64Bytes(length)
  }

  function PacketHeaderBytes(kind: nat, size: nat): (r: seq<byte>)
    requires kind < 0x1_0000 && size < U64
    ensures |r| == SIZEOF_PACKET
  {
    [0x46, 0x49] + U16Bytes(kind) + U32Bytes(0) + U64Bytes(size)
  }

  /** The header of a stream. */
  function StreamHeaderBytes(flags: nat): (r: seq<byte>)
    requires flags < U32
    ensures |r| == SIZEOF_HEADER
  {
    [0x46, 0x49, 0x45, 0x53] + U32Bytes(1) + U32Bytes(flags)
  }

  predicate Sizable(p: Packet) {
    Encodable(p) && SIZEOF_PACKET + |BodyBytes(p)| < U64
  }

  /** The bytes FiesWriter_putPacket writes for a packet. */
  function PacketBytes(p: Packet): (r: seq<byte>)
    requires Sizable(p)
    ensures |r| == SIZEOF_PACKET + |BodyBytes(p)|
  {
    PacketHeaderBytes(KindOf(p), SIZEOF_PACKET + |BodyBytes(p)|) + BodyBytes(p)
  }

  // ----- reading them back

  lemma PacketHeaderIsRead(kind: nat, size: nat)
    requires kind < 0x1_0000 && size < U64
    ensures U16Of(PacketHeaderBytes(kind, size), 2) == kind && U64Of(PacketHeaderBytes(kind, size), 8) == size
  {
    hide U16Of, U32Of, U64Of, U16Bytes, U32Bytes, U64Bytes;
    var b := PacketHeaderBytes(kind, size);
    assert b == [0x46, 0x49] + U16Bytes(kind) + (U32Bytes(0) + U64Bytes(size));
    NumbersAt([0x46, 0x49], U16Bytes(kind), U32Bytes(0) + U64Bytes(size));
    assert b == [0x46, 0x49] + U16Bytes(kind) + U32Bytes(0) + U64Bytes(size) + [];
    NumbersAt([0x46, 0x49] + U16Bytes(kind) + U32Bytes(0), U64Bytes(size), []);
  }

  lemma FileHeaderIsRead(id: nat, mode: nat, size: nat, n: nat, l: nat)
    requires id < U32 && mode < U32 && size < U64 && n <= 0xFFFF && l <= 0xFFFF
    ensures var b := FileHeaderBytes(id, mode, size, n, l);
            U32Of(b, 0) == id && U32Of(b, 4) == mode && U64Of(b, 8) == size && U16Of(b, 16) == n && U16Of(b, 18) == l
  {
    hide U16Of, U32Of, U64Of, U16Bytes, U32Bytes, U64Bytes;
    var b := FileHeaderBytes(id, mode, size, n, l);
    var b0, b1, b2, b3, b4, b5 := U32Bytes(id), U32Bytes(mode), U64Bytes(size), U16Bytes(n), U16Bytes(l), U32Bytes(0);
    assert b == [] + b0 + (b1 + b2 + b3 + b4 + b5);
    NumbersAt([], b0, b1 + b2 + b3 + b4 + b5);
    assert b == b0 + b1 + (b2 + b3 + b4 + b5);
    NumbersAt(b0, b1, b2 + b3 + b4 + b5);
    assert b == b0 + b1 + b2 + (b3 + b4 + b5);
    NumbersAt(b0 + b1, b2, b3 + b4 + b5);
    assert b == b0 + b1 + b2 + b3 + (b4 + b5);
    NumbersAt(b0 + b1 + b2, b3, b4 + b5);
    NumbersAt(b0 + b1 + b2 + b3, b4, b5);
  }

  lemma ExtentHeaderIsRead(file: nat, flags: nat, offset: nat, length: nat)
    requires file < U32 && flags < U32 && offset < U64 && length < U64
    ensures ParseExtent(ExtentHeaderBytes(file, flags, offset, length)) == ExtentHeader(file, flags, offset, length)
  {
    hide U16Of, U32Of, U64Of, U16Bytes, U32Bytes, U64Bytes;
    var b := ExtentHeaderBytes(file, flags, offset, length);
    var b0, b1, b2, b3 := U32Bytes(file), U32Bytes(flags), U64Bytes(offset), U64Bytes(length);
    assert b == [] + b0 + (b1 + b2 + b3);
    NumbersAt([], b0, b1 + b2 + b3);
    assert b == b0 + b1 + (b2 + b3);
    NumbersAt(b0, b1, b2 + b3);
    NumbersAt(b0 + b1, b2, b3);
    assert b == b0 + b1 + b2 + b3 + [];
    NumbersAt(b0 + b1 + b2, b3, []);
  }

  /** The parser of FILE packets undoes the printer. */
  lemma FileIsRead(p: Packet)
    requires p.File? && Encodable(p)
    ensures HasNames(BodyBytes(p)) && ParseFile(BodyBytes(p)) == FileHeader(p.id, p.mode, p.size, p.name, p.link)
    ensures |BodyBytes(p)| == SIZEOF_FILE + |p.name| + |p.link| + NodeSize(p.node)
  {
    hide U16Of, U32Of, U64Of, FileHeaderBytes, NodeBytes;
    var b, h := BodyBytes(p), FileHeaderBytes(p.id, p.mode, p.size, |p.name|, |p.link|);
    FileHeaderIsRead(p.id, p.mode, p.size, |p.name|, |p.link|);
    assert b[..SIZEOF_FILE] == h;
    NumbersOfPrefix(b, SIZEOF_FILE);
  }

  lemma ExtentIsRead(p: Packet)
    requires p.Extent? && Encodable(p)
    ensures |BodyBytes(p)| >= SIZEOF_EXTENT
    ensures ParseExtent(BodyBytes(p)[..SIZEOF_EXTENT]) == ExtentHeader(p.file, p.flags, p.offset, p.length)
    ensures p.body.NoBody? ==> BodyBytes(p)[SIZEOF_EXTENT..] == []
    ensures p.body.Payload? ==> BodyBytes(p)[SIZEOF_EXTENT..] == p.body.data
    ensures p.body.Source? ==>
              var b := BodyBytes(p)[SIZEOF_EXTENT..];
              |b| == SIZEOF_SOURCE && U32Of(b, 0) == p.body.file && U64Of(b, 4) == p.body.offset
  {
    hide U16Of, U32Of, U64Of, U32Bytes, U64Bytes, ExtentHeaderBytes, ParseExtent;
    ExtentHeaderIsRead(p.file, p.flags, p.offset, p.length);
    assert BodyBytes(p)[..SIZEOF_EXTENT] == ExtentHeaderBytes(p.file, p.flags, p.offset, p.length);
    if p.body.Source? {
      var b0, b1 := U32Bytes(p.body.file), U64Bytes(p.body.offset);
      assert BodyBytes(p)[SIZEOF_EXTENT..] == b0 + b1;
      assert b0 + b1 == [] + b0 + b1 && b0 + b1 == b0 + b1 + [];
      NumbersAt([], b0, b1);
      NumbersAt(b0, b1, []);
    }
  }

  lemma MetaIsRead(p: Packet)
    requires p.Meta? && Encodable(p)
    ensures |BodyBytes(p)| >= SIZEOF_META && U32Of(BodyBytes(p), 0) == MetaKind(p.meta)
            && U32Of(BodyBytes(p), 4) == p.file
    ensures BodyBytes(p)[SIZEOF_META..] == MetaBytes(p.meta)
  {
    hide U16Of, U32Of, U64Of, U32Bytes, U64Bytes, MetaBytes;
    var b0, b1, b2 := U32Bytes(MetaKind(p.meta)), U32Bytes(p.file), MetaBytes(p.meta);
    assert BodyBytes(p) == [] + b0 + (b1 + b2);
    NumbersAt([], b0, b1 + b2);
    NumbersAt(b0, b1, b2);
  }

  lemma EndIsRead(p: Packet)
    requires p.FileEnd? && Encodable(p)
    ensures |BodyBytes(p)| == SIZEOF_FILE_END && U32Of(BodyBytes(p), 0) == p.file
  {
  }

  lemma ListIsRead(p: Packet)
    requires p.SnapshotList? && Encodable(p)
    ensures |BodyBytes(p)| >= SIZEOF_LIST && U32Of(BodyBytes(p)[..SIZEOF_LIST], 0) == p.file
    ensures BodyBytes(p)[SIZEOF_LIST..] == ListBytes(p.names)
  {
    hide U16Of, U32Of, U64Of, U32Bytes, U16Bytes, ListBytes;
    var b0, b1 := U32Bytes(p.file), U16Bytes(|p.names|) + U16Bytes(0);
    assert BodyBytes(p)[..SIZEOF_LIST] == [] + b0 + b1;
    NumbersAt([], b0, b1);
  }

  // ----- device numbers

  predicate NodeFits(node: NodeId) {
    node.major < U32 && node.minor < U32
  }

  /** The numbers the reader finds for a node; `behind` is what memory holds behind the packet. */
  function NumbersRead(name: seq<byte>, node: NodeId, behind: seq<byte>): NodeId
    requires NodeFits(node) && SIZEOF_DEVICE <= |name| + |behind|
  {
    var b := name + NodeBytes(node) + behind;
    NodeId(U32Of(b, SIZEOF_DEVICE), U32Of(b, SIZEOF_DEVICE + 4))
  }

  /** The numbers of a device node arrive, whatever they are, if and only if its name has eight bytes. */
  lemma NumbersArriveIff(name: seq<byte>)
    ensures |name| == SIZEOF_DEVICE <==>
              forall node, behind {:trigger NumbersRead(name, node, behind)} ::
                NodeFits(node) && SIZEOF_DEVICE <= |name| + |behind| ==> NumbersRead(name, node, behind) == node
  {
    if |name| == SIZEOF_DEVICE {
      forall node, behind | NodeFits(node) ensures NumbersRead(name, node, behind) == node {
        NumbersArrive(name, node, behind);
      }
    } else if |name| > SIZEOF_DEVICE {
      var node := NodeId(if name[SIZEOF_DEVICE] == 0 then 1 else 0, 0);
      assert (name + NodeBytes(node) + [])[SIZEOF_DEVICE] == name[SIZEOF_DEVICE];
      assert NumbersRead(name, node, []).major != node.major;
    } else {
      var node, behind := NodeId(0, 0), seq(SIZEOF_DEVICE, _ => 1 as byte);
      assert (name + NodeBytes(node) + behind)[2 * SIZEOF_DEVICE - 1] == 1;
      assert NumbersRead(name, node, behind).minor != node.minor;
    }
  }

  lemma NumbersArrive(name: seq<byte>, node: NodeId, behind: seq<byte>)
    requires |name| == SIZEOF_DEVICE && NodeFits(node)
    ensures NumbersRead(name, node, behind) == node
  {
    hide U16Of, U32Of, U32Bytes;
    var a, b := U32Bytes(node.major), U32Bytes(node.minor);
    assert name + NodeBytes(node) + behind == name + a + (b + behind);
    NumbersAt(name, a, b + behind);
    assert name + NodeBytes(node) + behind == name + a + b + behind;
    NumbersAt(name + a, b, behind);
  }

  /** The name "dev/random" has ten bytes, so the node does not get the numbers 1 and 8. */
  lemma RandomGetsOtherNumbers(behind: seq<byte>)
    ensures var name: seq<byte> := [0x64, 0x65, 0x76, 0x2F, 0x72, 0x61, 0x6E, 0x64, 0x6F, 0x6D];
            NumbersRead(name, NodeId(1, 8), behind) == NodeId(0x16D6F, 0x80000)
  {
    var name: seq<byte> := [0x64, 0x65, 0x76, 0x2F, 0x72, 0x61, 0x6E, 0x64, 0x6F, 0x6D];
    var b := name + NodeBytes(NodeId(1, 8)) + behind;
    assert NodeBytes(NodeId(1, 8)) == [1, 0, 0, 0, 8, 0, 0, 0];
    assert b[8] == 0x6F && b[9] == 0x6D && b[10] == 1 && b[11] == 0;
    assert b[12] == 0 && b[13] == 0 && b[14] == 8 && b[15] == 0;
  }
}
