/** Inputs at which the reader does not do what it is meant to do (lib/fies_reader.c). */
module Failures {
  import opened Common
  import opened Protocol
  import opened Reader
  import opened Wire
  import opened Delivery

  /** Callbacks that always succeed. */
  function GoodFuncs(): Funcs {
    Funcs((_, k) => k, (_, _) => Made(0, 1), (_, _) => None, Some((_, k) => k), None, Some(_ => 0), Some(_ => 0), None,
          Some(_ => 0))
  }

  function BytesFrom(bytes: seq<byte>): Stream {
    (i: nat) => if i < |bytes| then bytes[i] else 0
  }

  /** A file of ten bytes with id 7 and a receiver. */
  function OneFile(): map<nat, Entry> {
    map[7 := Entry(7, 10, M_FREG, 1)]
  }

  /** A reader in front of the body of a packet, with an empty buffer. */
  lemma StandsInFront(r: FiesReader)
    requires r.Live() && (r.state == FileEndGet || r.state == ExtentGet) && r.snapshots == [] && r.errstr == None
    requires r.at == r.filled == r.taken < r.buffer.Length == BUFFER_CAPACITY && r.files == OneFile()
             && r.newfile == None
    requires r.packetEnd == r.Position() + r.pktSize
    requires if r.state == FileEndGet then r.pktType == PACKET_FILE_END && r.pktSize == SIZEOF_FILE_END
             else r.pktType == PACKET_EXTENT && r.pktSize == SIZEOF_EXTENT
    ensures r.Valid()
  {
    hide FiesReader.Willing;
    GoodHandles(r);
  }

  lemma GoodHandles(r: FiesReader)
    requires r.files == OneFile()
    ensures forall k :: k in r.files ==> k == 7 && r.files[k].id == 7 && r.files[k].handle == 1
  {
  }

  /** A new reader whose buffer is consumed up to the given place. */
  method ReaderAt(input: Stream, outside: Stream, pos: nat) returns (r: FiesReader)
    requires pos < BUFFER_CAPACITY
    ensures fresh(r) && fresh(r.buffer) && r.Live() && r.sane && r.input == input && r.outside == outside
            && r.funcs == GoodFuncs()
    ensures r.at == r.filled == r.taken == pos && r.snapshots == [] && r.effects == [] && r.files == OneFile()
            && r.newfile == None
    ensures r.errstr == None && r.buffer.Length == BUFFER_CAPACITY
    ensures forall i :: 0 <= i < r.buffer.Length ==> r.buffer[i] == 0
  {
    hide FiesReader.Valid;
    r := new FiesReader(input, outside, GoodFuncs(), 0, 0);
    r.at, r.filled, r.taken, r.files := pos, pos, pos, OneFile();
  }

  lemma GoodIsWilling(r: FiesReader)
    requires r.funcs == GoodFuncs()
    ensures r.Willing()
  {
  }

  /** A reader that waits for a FILE_END of file 7, and whose buffer is consumed up to its last three bytes. */
  method BeforeEnd() returns (r: FiesReader)
    ensures fresh(r) && fresh(r.buffer) && r.Valid() && r.Live() && r.Willing() && r.state == FileEndGet
            && r.files == OneFile()
    ensures r.at == r.filled == r.taken == BUFFER_CAPACITY - 3 && r.pktType == PACKET_FILE_END
    ensures U32Of(Bytes(r.input, BUFFER_CAPACITY - 3, SIZEOF_FILE_END), 0) == 7
    ensures r.Memory(r.at, SIZEOF_FILE_END) == [0, 0, 0, 255]
  {
    hide FiesReader.Valid, FiesReader.Willing, OneFile, GoodFuncs;
    r := ReaderAt((i: nat) => if i == BUFFER_CAPACITY - 3 then 7 else 0, _ => 255, BUFFER_CAPACITY - 3);
    r.state, r.pktType, r.pktSize, r.packetEnd := FileEndGet, PACKET_FILE_END, SIZEOF_FILE_END, BUFFER_CAPACITY + 1;
    StandsInFront(r);
    GoodIsWilling(r);
  }

  /** File 7 is known and the packet names it, but the throw marked as impossible happens. */
  method EndOfKnownFileIsLost() returns (r: FiesReader)
    ensures fresh(r) && r.Willing() && 7 in r.files && r.pktType == PACKET_FILE_END
            && r.Position() == BUFFER_CAPACITY - 3
    ensures U32Of(Bytes(r.input, BUFFER_CAPACITY - 3, SIZEOF_FILE_END), 0) == 7
    ensures r.errc != 0 && r.errstr == Some(EndFileDisappeared)
  {
    hide FiesReader.Valid, FiesReader.Willing, FiesReader.ReadsWhole, Bytes, FiesReader.Memory;
    r := BeforeEnd();
    r.WillingIsWhole();
    assert r.EndId() == 0xFF00_0000;
    var rc := r.GetFileEnd();
  }

  /** A hole of two bytes that begins at the largest position. */
  function WrappingHole(): Packet {
    Extent(7, FL_HOLE, U64 - 1, 2, NoBody)
  }

  /** A reader that stands behind the packet header of that extent. */
  method BeforeHole() returns (r: FiesReader)
    ensures fresh(r) && fresh(r.buffer) && r.Valid() && r.Live() && r.sane && r.Willing() && r.state == ExtentGet
    ensures r.files == r.mark.files == OneFile() && r.AtMark() && r.mark == Mark(0, [], OneFile(), None)
    ensures r.input == BytesFrom(HoleBytes()) && r.pktSize == SIZEOF_EXTENT
  {
    hide PacketBytes, BodyBytes, Bytes, U16Of, U32Of, U64Of, OneFile, GoodFuncs, FiesReader.Valid, FiesReader.Willing;
    r := ReaderAt(BytesFrom(HoleBytes()), _ => 0, SIZEOF_PACKET);
    HoleIsHeld(r);
    r.state, r.pktType, r.pktSize := ExtentGet, PACKET_EXTENT, SIZEOF_EXTENT;
    r.packetEnd := SIZEOF_PACKET + SIZEOF_EXTENT;
    r.mark := Mark(0, [], OneFile(), None);
    StandsInFront(r);
    GoodIsWilling(r);
  }

  /** The stream has that extent, and the hole is punched far behind the end of the file. */
  method HoleIsPunchedBehindTheEnd() returns (r: FiesReader)
    ensures fresh(r) && r.Willing() && 7 in r.files && r.files[7].size == 10
    ensures Holds(r.input, 0, WrappingHole()) && r.Live() && r.effects == [Punched(1, U64 - 1, 2)]
  {
    hide PacketBytes, BodyBytes, Bytes, U16Of, U32Of, U64Of, ParseExtent, ExtentRefused;
    hide FiesReader.Valid, FiesReader.Willing, FiesReader.AtMark;
    r := BeforeHole();
    HoleIsHeld(r);
    var rc := r.GetExtentHeader();
  }

  function HoleBytes(): seq<byte> {
    HoleIsSizable();
    PacketBytes(WrappingHole())
  }

  lemma HoleIsSizable()
    ensures Sizable(WrappingHole()) && |BodyBytes(WrappingHole())| == SIZEOF_EXTENT
  {
  }

  lemma HoleIsHeld(r: FiesReader)
    requires r.input == BytesFrom(HoleBytes())
    ensures Holds(r.input, 0, WrappingHole())
    ensures U16Of(Bytes(r.input, 0, SIZEOF_PACKET), 2) == PACKET_EXTENT
    ensures U64Of(Bytes(r.input, 0, SIZEOF_PACKET), 8) == SIZEOF_PACKET + SIZEOF_EXTENT
    ensures !ExtentRefused(OneFile(), Bytes(r.input, SIZEOF_PACKET, SIZEOF_EXTENT))
    ensures ParseExtent(Bytes(r.input, SIZEOF_PACKET, SIZEOF_EXTENT)) == ExtentHeader(7, FL_HOLE, U64 - 1, 2)
  {
    hide PacketBytes, BodyBytes, U16Of, U32Of, U64Of;
    var p := WrappingHole();
    HoleIsSizable();
    assert Bytes(r.input, 0, |PacketBytes(p)|) == PacketBytes(p);
    HeldIsRead(r.input, 0, p);
    ExtentIsRead(p);
    assert BodyBytes(p)[..SIZEOF_EXTENT] == BodyBytes(p);
  }

  /** A new reader with `n` bytes in its buffer. */
  method FilledReader(n: nat) returns (r: FiesReader)
    requires n <= BUFFER_CAPACITY
    ensures fresh(r) && fresh(r.buffer) && r.Ground() && r.Live() && r.funcs == GoodFuncs()
    ensures r.at == 0 && r.filled == n && r.buffer.Length == BUFFER_CAPACITY
  {
    hide FiesReader.Valid, GoodFuncs;
    r := new FiesReader(_ => 0, _ => 0, GoodFuncs(), 0, 0);
    r.Grounded();
    r.filled, r.taken := n, n;
  }

  /**
   * A FILE packet of the largest size that is let through, of which all but 45 bytes are buffered, does
   * not fit the buffer.
   */
  method LargestFilePacketIsTooLarge() returns (r: FiesReader)
    ensures fresh(r) && r.Willing() && PacketProblem(false, PACKET_FILE, SIZEOF_FILE + 0xFFFF) == None
    ensures SIZEOF_FILE + 0xFFFF <= BUFFER_CAPACITY && r.filled - r.at == 65514
    ensures r.errc != 0 && r.errstr == Some(CapacityExceeded)
  {
    hide FiesReader.Ground, FiesReader.Willing, FiesReader.ReadsAll, FiesReader.ReadsWhole, FiesReader.CallersFault,
         GoodFuncs;
    r := FilledReader(65514);
    GoodIsWilling(r);
    var rc := r.BufferSome(SIZEOF_FILE + 0xFFFF, true);
  }

  /** The buffer is half full, and the stream goes on, but the reader takes it for finished. */
  method HalfFullBufferEndsTheStream() returns (r: FiesReader)
    ensures fresh(r) && r.Willing() && r.filled - r.at == BUFFER_CAPACITY / 2
    ensures r.eof && r.errc == 0
  {
    hide FiesReader.Ground, FiesReader.ReadsAll, FiesReader.ReadsWhole, FiesReader.CallersFault, GoodFuncs;
    r := FilledReader(BUFFER_CAPACITY / 2);
    GoodIsWilling(r);
    var rc := r.BufferSome(BUFFER_CAPACITY, false);
  }
}
