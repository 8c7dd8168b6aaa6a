/** The formats of include/fies.h, written out, and what the definitions of writer and reader make of them. */
module Formats {
  import opened Common
  import opened Protocol
  import opened Reader
  import opened Wire

  // ----- packets

  /** The lowest `k` bytes of a number, the lowest first. */
  function Digits(n: nat, k: nat): (r: seq<byte>)
    ensures |r| == k
  {
    if k == 0 then [] else [n % 256] + Digits(n / 256, k - 1)
  }

  /** A packet of kind `kind`, with 'F', 'I' in front. */
  function Framed(kind: nat, body: seq<byte>): seq<byte> {
    [0x46, 0x49] + Digits(kind, 2) + Digits(0, 4) + Digits(16 + |body|, 8) + body
  }

  function NodeFormat(node: Option<NodeId>): seq<byte> {
    if node.Some? then Digits(node.value.major, 4) + Digits(node.value.minor, 4) else []
  }

  function MetaFormat(m: MetaBody): (nat, seq<byte>) {
    match m
    case MetaEnd => (1, [])
    case MetaOwner(uid, gid) => (2, Digits(uid, 4) + Digits(gid, 4))
    case MetaTime(secs, nsecs) => (3, Digits(secs, 8) + Digits(nsecs, 4))
    case MetaXAttr(name, value) => (5, Digits(|name|, 4) + Digits(|value|, 4) + name + [0x00] + value)
    case MetaOther(kind) => (kind, [])
  }

  function BodyFormat(body: ExtentBody): seq<byte> {
    match body
    case NoBody => []
    case Payload(data) => data
    case Source(file, offset) => Digits(file, 4) + Digits(offset, 8)
  }

  function ListFormat(names: seq<seq<byte>>): seq<byte> {
    if names == [] then [] else Digits(|names[0]|, 2) + names[0] + ListFormat(names[1..])
  }

  function Format(p: Packet): seq<byte> {
    match p
    case File(id, mode, size, name, link, node) =>
      Framed(2, Digits(id, 4) + Digits(mode, 4) + Digits(size, 8) + Digits(|name|, 2) + Digits(|link|, 2) + Digits(0, 4)
                + name + link + NodeFormat(node))
    case Meta(file, m) => Framed(3, Digits(MetaFormat(m).0, 4) + Digits(file, 4) + MetaFormat(m).1)
    case Extent(file, flags, offset, length, body) =>
      Framed(4, Digits(file, 4) + Digits(flags, 4) + Digits(offset, 8) + Digits(length, 8) + BodyFormat(body))
    case FileEnd(file) => Framed(5, Digits(file, 4))
    case SnapshotList(file, names) =>
      Framed(6, Digits(file, 4) + Digits(|names|, 2) + Digits(0, 2) + ListFormat(names))
  }

  /** The writer prints packets in this format. */
  lemma PacketsAreFormatted(p: Packet)
    requires Sizable(p)
    ensures PacketBytes(p) == Format(p)
  {
    hide U16Bytes, U32Bytes, U64Bytes, Digits, Framed, BodyBytes, MetaFormat, NodeFormat, ListFormat, PacketBytes;
    match p
    case File(_, _, _, _, _, _) =>
      FileIsFormatted(p);
    case Meta(_, _) =>
      MetaIsFormatted(p);
    case Extent(_, _, _, _, _) =>
      ExtentIsFormatted(p);
    case FileEnd(file) =>
      AreDigits();
      FrameIsFormatted(p, 5, Digits(file, 4)) by { EndIsFormatted(p); }
    case SnapshotList(_, _) =>
      ListIsFormatted(p);
  }

  lemma AreDigits()
    ensures forall n: nat {:trigger U16Bytes(n)} :: n < 0x1_0000 ==> U16Bytes(n) == Digits(n, 2)
    ensures forall n: nat {:trigger U32Bytes(n)} :: n < U32 ==> U32Bytes(n) == Digits(n, 4)
    ensures forall n: nat {:trigger U64Bytes(n)} :: n < U64 ==> U64Bytes(n) == Digits(n, 8)
  {
    forall n: nat | n < 0x1_0000 ensures U16Bytes(n) == Digits(n, 2) {
      Digits2(n);
    }
    forall n: nat | n < U32 ensures U32Bytes(n) == Digits(n, 4) {
      Digits4(n);
    }
    forall n: nat | n < U64 ensures U64Bytes(n) == Digits(n, 8) {
      Digits8(n);
    }
  }

  lemma {:induction false} Digits2(n: nat)
    requires n < 0x1_0000
    ensures U16Bytes(n) == Digits(n, 2)
  {
  }

  lemma {:induction false} Digits4(n: nat)
    requires n < U32
    ensures U32Bytes(n) == Digits(n, 4)
  {
    hide Digits;
    var low, high := n % 0x1_0000, n / 0x1_0000;
    OneDigit(n, high * 256 + low / 256, low % 256, 4);
    OneDigit(high * 256 + low / 256, high, low / 256, 3);
    OneDigit(low, low / 256, low % 256, 2);
    OneDigit(low / 256, 0, low / 256, 1);
    NoDigits(0);
    Digits2(low);
    Digits2(high);
  }

  /** The digits of a number of 64 bits are those of its halves. */
  lemma {:induction false} DigitsOfHalves(high: nat, low: nat)
    requires low < U32
    ensures Digits(high * U32 + low, 8) == Digits(low, 4) + Digits(high, 4)
  {
    hide Digits;
    var n1, n2, n3 := low / 256, low / 256 / 256, low / 256 / 256 / 256;
    OneDigit(high * U32 + low, high * 0x100_0000 + n1, low % 256, 8);
    OneDigit(high * 0x100_0000 + n1, high * 0x1_0000 + n2, n1 % 256, 7);
    OneDigit(high * 0x1_0000 + n2, high * 0x100 + n3, n2 % 256, 6);
    OneDigit(high * 0x100 + n3, high, n3, 5);
    OneDigit(low, n1, low % 256, 4);
    OneDigit(n1, n2, n1 % 256, 3);
    OneDigit(n2, n3, n2 % 256, 2);
    OneDigit(n3, 0, n3, 1);
    NoDigits(0);
  }

  lemma OneDigit(n: nat, rest: nat, digit: nat, k: nat)
    requires n == rest * 256 + digit && digit < 256 && k > 0
    ensures Digits(n, k) == [digit] + Digits(rest, k - 1)
  {
  }

  lemma {:induction false} NoDigits(n: nat)
    ensures Digits(n, 0) == []
  {
  }

  lemma {:induction false} Digits8(n: nat)
    requires n < U64
    ensures U64Bytes(n) == Digits(n, 8)
  {
    hide Digits, U32Bytes;
    DigitsOfHalves(n / U32, n % U32);
    Digits4(n % U32);
    Digits4(n / U32);
  }

  lemma FrameIsFormatted(p: Packet, kind: nat, body: seq<byte>)
    requires Sizable(p) && BodyBytes(p) == body && KindOf(p) == kind
    ensures PacketBytes(p) == Framed(kind, body)
  {
    hide U16Bytes, U32Bytes, U64Bytes, Digits, BodyBytes;
    AreDigits();
  }

  lemma EndIsFormatted(p: Packet)
    requires p.FileEnd? && Encodable(p)
    ensures BodyBytes(p) == Digits(p.file, 4)
  {
    hide U32Bytes, Digits;
    AreDigits();
  }

  lemma FileIsFormatted(p: Packet)
    requires p.File? && Sizable(p)
    ensures PacketBytes(p) == Format(p)
  {
    hide U16Bytes, U32Bytes, U64Bytes, Digits, Framed, PacketBytes;
    AreDigits();
    var h := Digits(p.id, 4) + Digits(p.mode, 4) + Digits(p.size, 8) + Digits(|p.name|, 2) + Digits(|p.link|, 2)
             + Digits(0, 4);
    assert BodyBytes(p) == h + (p.name + p.link + NodeFormat(p.node));
    assert h + (p.name + p.link + NodeFormat(p.node)) == h + p.name + p.link + NodeFormat(p.node);
    FrameIsFormatted(p, 2, h + p.name + p.link + NodeFormat(p.node));
  }

  lemma MetaIsFormatted(p: Packet)
    requires p.Meta? && Sizable(p)
    ensures PacketBytes(p) == Format(p)
  {
    hide U16Bytes, U32Bytes, U64Bytes, Digits, Framed, PacketBytes, MetaBytes, MetaFormat;
    AreDigits();
    MetaDataIsFormatted(p.meta);
    FrameIsFormatted(p, 3, Digits(MetaFormat(p.meta).0, 4) + Digits(p.file, 4) + MetaFormat(p.meta).1);
  }

  /** The data of a meta packet. */
  lemma MetaDataIsFormatted(m: MetaBody)
    requires MetaEncodable(m)
    ensures MetaFormat(m) == (MetaKind(m), MetaBytes(m))
  {
    hide U32Bytes, U64Bytes, Digits;
    AreDigits();
  }

  lemma ExtentIsFormatted(p: Packet)
    requires p.Extent? && Sizable(p)
    ensures PacketBytes(p) == Format(p)
  {
    hide U16Bytes, U32Bytes, U64Bytes, Digits, Framed, PacketBytes;
    AreDigits();
    FrameIsFormatted(p, 4, Digits(p.file, 4) + Digits(p.flags, 4) + Digits(p.offset, 8) + Digits(p.length, 8)
                           + BodyFormat(p.body));
  }

  lemma {:induction false} ListBytesAreFormatted(names: seq<seq<byte>>)
    requires NamesOk(names)
    ensures ListBytes(names) == ListFormat(names)
  {
    hide ListBytes, Digits, U16Bytes;
    if names == [] {
      NoBytes();
    } else {
      ListFront(names);
      ListBytesAreFormatted(names[1..]);
      AreDigits();
      EntryIsFormatted(names[0]);
    }
  }

  lemma {:induction false} EntryIsFormatted(name: seq<byte>)
    requires |name| <= 0xFFFF
    ensures EntryBytes(name) == Digits(|name|, 2) + name
  {
    Digits2(|name|);
  }

  lemma ListIsFormatted(p: Packet)
    requires p.SnapshotList? && Sizable(p)
    ensures PacketBytes(p) == Format(p)
  {
    hide U16Bytes, U32Bytes, U64Bytes, Digits, Framed, PacketBytes, ListBytes, ListFormat;
    AreDigits();
    ListBytesAreFormatted(p.names);
    FrameIsFormatted(p, 6, Digits(p.file, 4) + Digits(|p.names|, 2) + Digits(0, 2) + ListFormat(p.names));
  }

  // ----- what the reader makes of them

  /** The reader reads a number where its digits are. */
  lemma {:induction false} DigitsAreRead(a: seq<byte>, n: nat, c: seq<byte>)
    ensures n < 0x1_0000 ==> U16Of(a + Digits(n, 2) + c, |a|) == n
    ensures n < U32 ==> U32Of(a + Digits(n, 4) + c, |a|) == n
    ensures n < U64 ==> U64Of(a + Digits(n, 8) + c, |a|) == n
  {
    hide Digits, U16Of, U32Of, U64Of;
    AreDigits();
    NumbersAt(a, Digits(n, 2), c);
    NumbersAt(a, Digits(n, 4), c);
    NumbersAt(a, Digits(n, 8), c);
    if n < 0x1_0000 {
      assert U16Of(U16Bytes(n), 0) == n;
    }
    if n < U32 {
      assert U32Of(U32Bytes(n), 0) == n;
    }
    if n < U64 {
      assert U64Of(U64Bytes(n), 0) == n;
    }
  }

  /** Kinds and sizes of packets that are let through. */
  lemma PacketsTaken(announcing: bool, kind: nat, size: nat)
    ensures PacketProblem(announcing, kind, size) == None <==>
              if announcing then kind == 3
              else
                || (kind == 2 && size <= 24 + 0xFFFF) || kind == 4 || (kind == 5 && size == 4)
                || (kind == 6 && size >= 8)
  {
  }

  /** Extents whose form is right. */
  lemma ExtentsTaken(size: nat, e: ExtentHeader)
    ensures FormComplaint(size, e) == None <==>
              || ((e.flags == 0x2 || e.flags == 0x4) && size == 24) || (e.flags == 0x8 && size == 24 + 12)
              || (e.flags == 0x1 && e.length == (size - 24) % U64)
  {
  }

  /** Meta packets whose form is right. */
  lemma MetasTaken(b: seq<byte>)
    requires |b| >= 8
    ensures var kind := U32Of(b, 0);
            MetaProblem(b) == None <==>
              || kind == 1 || kind >= 0x8000 || (kind == 2 && |b| == 8 + 8) || (kind == 3 && |b| == 8 + 12)
              || (kind == 5 && |b| >= 8 + 8
                  && var n, m := U32Of(b, 8), U32Of(b, 12);
                     |b| == 16 + n + 1 + m && b[16 + n] == 0 && 0 !in b[16..16 + n])
  {
    hide U32Of;
  }

  /** FILE packets whose form is right. */
  lemma FilesTaken(t: nat, known: bool, name: seq<byte>, link: seq<byte>, maxLength: nat)
    ensures FileComplaint(t, known, name, link, maxLength) == None <==>
              && (known <==> t == 0x10000) && (link != [] <==> t == 0xA000) && 0 !in link && 0 !in name
              && t in {0x20000, 0x10000, 0xA000, 0x8000, 0x6000, 0x4000, 0x2000, 0x1000}
              && |name| + (if t == 0xA000 then |link| else if t in {0x6000, 0x2000, 0x1000} then 8 else 0) <= maxLength
  {
  }

  // ----- the header of the stream

  /** All bits of `m` are set. */
  predicate Contains(flags: bv32, m: bv32) {
    flags & m == m
  }

  lemma {:induction false} StreamIsFormatted(flags: nat)
    requires flags < U32
    ensures StreamHeaderBytes(flags) == [0x46, 0x49, 0x45, 0x53] + Digits(1, 4) + Digits(flags, 4)
  {
    hide U32Bytes, Digits;
    AreDigits();
  }

  /**
   * A reader takes the header of a stream if and only if all flags its user insists on are set, and
   * not a single one that its user rejects.
   */
  lemma HeaderFitsIff(r: FiesReader, flags: nat)
    requires flags < U32
    ensures r.HeaderFits(StreamHeaderBytes(flags)) <==>
              && (forall m {:trigger Contains(r.required, m)} ::
                    Contains(r.required, m) ==> Contains(flags as bv32, m))
              && (forall m {:trigger Contains(r.rejected, m)} ::
                    m != 0 && Contains(r.rejected, m) ==> !Contains(flags as bv32, m))
  {
    hide U32Of, StreamHeaderBytes, Contains, HasAll, HasAny;
    HeaderIsRead(flags);
    AllBits(flags, r.required);
    AnyBits(flags, r.rejected);
  }

  lemma HeaderIsRead(flags: nat)
    requires flags < U32
    ensures var hdr := StreamHeaderBytes(flags);
            hdr[..4] == [0x46, 0x49, 0x45, 0x53] && U32Of(hdr, 4) == 1 && U32Of(hdr, 8) == flags
  {
    hide U32Of, Digits;
    StreamIsFormatted(flags);
    var magic: seq<byte> := [0x46, 0x49, 0x45, 0x53];
    DigitsAreRead(magic, 1, Digits(flags, 4));
    DigitsAreRead(magic + Digits(1, 4), flags, []);
    assert magic + Digits(1, 4) + Digits(flags, 4) + [] == magic + Digits(1, 4) + Digits(flags, 4);
  }

  lemma AllBits(flags: nat, required: bv32)
    requires flags < U32
    ensures HasAll(flags, required) <==>
              forall m {:trigger Contains(required, m)} :: Contains(required, m) ==> Contains(flags as bv32, m)
  {
    hide Contains;
    ContainsItself(required);
    AllIsContained(flags, required);
    if HasAll(flags, required) {
      forall m | Contains(required, m) ensures Contains(flags as bv32, m) {
        Inherited(flags as bv32, required, m);
      }
    }
  }

  lemma AnyBits(flags: nat, rejected: bv32)
    requires flags < U32
    ensures HasAny(flags, rejected) <==>
              exists m {:trigger Contains(rejected, m)} ::
                m != 0 && Contains(rejected, m) && Contains(flags as bv32, m)
  {
    hide Contains, HasAny, Meets;
    AnyMeets(flags, rejected);
    SetsMeet(flags as bv32, rejected);
  }

  predicate Meets(a: bv32, b: bv32) {
    a & b != 0
  }

  lemma AnyMeets(flags: nat, rejected: bv32)
    requires flags < U32
    ensures HasAny(flags, rejected) <==> Meets(flags as bv32, rejected)
  {
  }

  lemma SetsMeet(a: bv32, b: bv32)
    ensures Meets(a, b) <==> exists m {:trigger Contains(b, m)} :: m != 0 && Contains(b, m) && Contains(a, m)
  {
    hide Contains, Meets;
    if Meets(a, b) {
      InBoth(a, b);
    } else {
      forall m | m != 0 && Contains(b, m) ensures !Contains(a, m) {
        NotInBoth(a, b, m);
      }
    }
  }

  lemma ContainsItself(m: bv32)
    ensures Contains(m, m)
  {
  }

  lemma AllIsContained(flags: nat, required: bv32)
    requires flags < U32
    ensures HasAll(flags, required) <==> Contains(flags as bv32, required)
  {
  }

  lemma Inherited(flags: bv32, required: bv32, m: bv32)
    requires Contains(flags, required) && Contains(required, m)
    ensures Contains(flags, m)
  {
  }

  lemma InBoth(a: bv32, b: bv32)
    requires Meets(a, b)
    ensures a & b != 0 && Contains(b, a & b) && Contains(a, a & b)
  {
  }

  lemma NotInBoth(a: bv32, b: bv32, m: bv32)
    requires !Meets(a, b) && m != 0 && Contains(b, m)
    ensures !Contains(a, m)
  {
  }
}
