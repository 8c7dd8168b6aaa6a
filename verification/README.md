# FIES stream: writer, reader and their parts

FIES turns files, described as lists of extents on physical storage, into a stream of packets. A
shared physical range is sent once and quoted by COPY packets afterwards; a reader replays the
stream. This project models the pieces that make this work and proves what they promise.

- `ExtentMap.dfy`: the sorted interval index that decides which part of an extent is new. Its
  reference definition is the map from physical bytes to their first claimants.
- `Protocol.dfy`, `Replay.dfy`, `Header.dfy`: packets, the reader one packet at a time, and what
  replaying a growing stream means.
- `Files.dfy`, `Sending.dfy`, `Writer.dfy`: files with their extent callbacks, what sending their
  extents adds to stream and maps, and the writer as a class with its log of packets, file ids and
  device ids.
- `Session.dfy`, `Transfer.dfy`: what all files of a session have in common in stream and maps, and
  writer and packet level reader together, over whole sessions.
- `ThinPool.dfy`, `ThinListing.dfy`: the B-tree walk that lists the mapping of a thin volume into a
  bounded buffer, and what its answers mean for the writer.
- `Reader.dfy`, `Snapshots.dfy`: the reader as a resumable state machine over a byte buffer.
- `Wire.dfy`, `Formats.dfy`: packets as bytes, and the formats of the header file, field by field.
- `Delivery.dfy`, `EndToEnd.dfy`: the byte level reader refines the packet level reader; whole
  transfers from files to the receiver's files.
- `Failures.dfy`: inputs at which the reader does not do what it is meant to do.
- `Vector.dfy`, `SortedMap.dfy`, `Mtree.dfy`, `Crc32c.dfy`: containers, name escaping and checksum.

Conventions. Callbacks are function values: those of the extent map pass an opaque state along, the
others also get the number of the call, so that they can answer anything. Results of system calls,
the bytes of the stream and the contents of disks are such functions. `WriteAll`, `ListVolume`,
`Drive`, `Follow`, `FollowToEnd`, `TransferAll` and `EncodeAndDecode` are loops or sequences of calls
of a user of the library. Sequences stand for C strings without their terminator. Numbers are unbounded; where 64
bit arithmetic can wrap and the code does not exclude it, the modulus is written out.

Some places do not keep what one would expect. Each has its exact condition and an input:

- names that fit one by one but not together: `NewFileAcceptedIffNamesFit`, `LongSymlinkIsRefused`;
- named pipes, which are sent without the device numbers the reader wants: `NewFileAcceptedIffNamesFit`,
  `PipesAreRefused`;
- device numbers, which arrive if and only if the name has eight bytes: `NumbersArriveIff`,
  `RandomGetsOtherNumbers`;
- snapshot lists whose last name is empty: `ListIsTakenIff`, `EmptyLastNameIsRefused`;
- extents whose end wraps around: `SizeCheckMissesIff`, `HoleIsPunchedBehindTheEnd`;
- the throw for a finished file that "disappeared", which is marked as impossible in the code
  (lib/fies_reader.c:358-361): the id is read from the packet unless the buffer has to be moved to
  make room for it, which `Shifts` decides before, and from the old place otherwise; `GetFileEnd`,
  `EndOfKnownFileIsLost`;
- room in the buffer, which is checked with the buffered part counted twice: a fixed part is refused,
  a payload is taken for the end of the stream, or the size wraps around; `BufferSome`, `FetchCapped`,
  `LargestFilePacketIsTooLarge`, `HalfFullBufferEndsTheStream`;
- thin pool nodes behind the end of a bounded range: `VisitIsCompleteIff`, `BlockBeyondTheEndIsMissed`.

`dafny verify dfyconfig.toml` checks the project.

## Model

| member | source | states |
|---|---|---|
| ExtentMap.InsertKeepsSorted | lib/emap.c:130-189 | inserting an extent into the gap in front of position `index` keeps a device list ascending, disjoint, free of empty extents and inside 64 bits, and adds exactly that extent |
| ExtentMap.Cursor.Shift | lib/emap.h:25-32 | moves an extent forward by less than its length (the assertion of the code is the precondition, met at both call sites): physical and logical address stay in step and something is left |
| ExtentMap.ExtentList.Find | lib/emap.c:71-90 | the binary search returns the extent that holds the byte, or the place between the extents below and above it |
| ExtentMap.ExtentList.ReportNew | lib/emap.c:140-166 | an unclaimed piece is offered once; accepted, it is recorded at its place and the list and the history grow by it; refused, neither changes |
| ExtentMap.ExtentList.ReportAvail | lib/emap.c:168-180 | a claimed piece is offered with the origin its claimant gave it, shifted by the offset into the claim; the list stays as it is |
| ExtentMap.ExtentList.Step | lib/emap.c:138-184 | one turn of the walk reports a further piece of the input, or the rest of it, and keeps the invariant of list, history and pieces reported so far |
| ExtentMap.ExtentList.Add | lib/emap.c:129-190 | the callbacks tile the input from left to right without gap or overlap, each piece with its own physical and logical address; after a failing callback exactly the pieces accepted before it are recorded |
| ExtentMap.EMap.GetDevice | lib/emap.c:92-102 | a device that was not seen before starts with an empty list |
| ExtentMap.EMap.Add | lib/emap.c:104-191 | one call extends the history of one device by the reported pieces and touches no other device; an empty input does nothing |
| ExtentMap.TraceStep | lib/emap.c:138-190 | a history stays lawful when an event that follows the law is added |
| ExtentMap.LookupIsUnique | lib/emap.c:71-90 | in a sorted list the byte map does not depend on the order in which extents are looked at |
| ExtentMap.FirstClaimOfEntry | lib/emap.c:129-190 | a byte of a recorded extent was first claimed by the report that recorded it |
| ExtentMap.EntryOfFirstClaim | lib/emap.c:129-190 | every claimed byte is in a recorded extent |
| ExtentMap.ArrayIsFirstClaimMap | lib/emap.c:104-191 | after any history of calls, failing ones included, the array of extents is the map from each physical byte to the file and position of its first successful new report |
| ExtentMap.ReportsFollowFirstClaims | lib/emap.c:138-190 | a byte is reported as new only if nobody claimed it before, and as available only with exactly the origin of its first claim |
| ExtentMap.FirstClaimIsStable | lib/emap.c:104-191 | later calls never change the first claimant of a byte |
| ExtentMap.TiledBytesAreReported | lib/emap.c:129-190 | every byte of a processed input is in exactly the piece the tiling says, so none is lost |
| ExtentMap.ReportedBytesAreClaimed | lib/emap.c:138-190 | whatever is reported about a byte, afterwards it has an origin |
| Protocol.SharedIsABit | include/fies.h:675 | an extent is shared if and only if bit 0x100 of its flags is set |
| Protocol.CopyIsABit | include/fies.h:673 | an extent is a copy if and only if bit 0x8 of its flags is set |
| Protocol.TypesOfFlags | include/fies.h:669-673 | the type of an extent is the lowest byte of its flags, whatever is above it; 1, 2, 4 and 8 are the four types |
| Protocol.TypesOfModes | include/fies.h:550-559 | the type of a file is in six bits above the twelve of its permissions, whatever is above and below them; which number stands for which type, and which types are nodes |
| Protocol.OverwriteAt | lib/fies_reader.c:610-743 | a write changes the bytes of its range to those that were written, and no others |
| Replay.WriteExtends | lib/fies_reader.c:610-743 | an extent written at the frontier of a file makes a longer prefix of it agree with the content |
| Replay.EmitNew | lib/fies_writer.c:649-713 | a DATA, ZERO or HOLE packet for content it fits is accepted by the reader and moves the frontier of the file |
| Replay.EmitCopy | lib/fies_writer.c:724-741 | a COPY packet that quotes finished bytes equal to the content is accepted and moves the frontier |
| Replay.QuoteIsRight | lib/fies_writer.c:724-741 | an available piece quotes bytes that equal the content, because equal physical addresses hold equal bytes |
| Replay.EmitEvents | lib/fies_writer.c:790-798 | the packets for all pieces of a shared extent transfer exactly its bytes, whatever mix of new and available pieces the map reports |
| Replay.ReferenceEvents | lib/fies_writer.c:655-657 | adding the extents of a reference file records only true origins and sends nothing |
| Replay.BackEvents | lib/fies_writer.c:649-741 | every extent a map records is backed by a packet sent before with its own bytes, and every COPY quotes a backed one |
| Replay.BackReferenceEvents | lib/fies_writer.c:655-657 | extents of a reference file are backed by its announcement |
| Replay.PacketsTile | lib/fies_writer.c:761-802 | the packets for the pieces of one extent tile the range of the extent |
| Replay.TilesFileJoin | lib/fies_writer.c:960-1004 | adjoining ranges of packets tile the joined range |
| Replay.TiledOnce | lib/fies_writer.c:960-1004 | every position of a tiled range is in exactly one packet |
| Files.MergeExtents | lib/fies_writer.c:864-878 | merging in place grows one extent over its neighbours: the result covers the bytes of the merged run with the same logical to physical mapping and the same flags, the rest of the buffer is unchanged, and no neighbour that joins is left |
| Files.JoinTrue | lib/fies_writer.c:868-874 | two extents that tell the truth and join tell the truth as one |
| Files.RunTrue | lib/fies_writer.c:864-878 | a merged run of truthful extents is truthful |
| Files.RunShrink | lib/fies_writer.c:864-878 | a merged run still starts inside the file and keeps its 64 bit bounds |
| Files.RunIsNext | lib/fies_writer.c:864-878 | a run that goes on in neither direction is the next element of the merged batch, which is defined without reference to the loop |
| Files.RunsAreMaximal | lib/fies_writer.c:864-878 | after merging no two neighbours are left that continue each other in the file and on the device with the same flags |
| Files.RunsKeepBytes | lib/fies_writer.c:864-878 | the merged extents have exactly the bytes that the batch has, at the same physical addresses, on the same devices and with the same flags |
| Sending.GapIsAHole | lib/fies_writer.c:743-759 | what no extent covers is sent as one HOLE, of type 4, over all of the gap |
| Sending.SentStep | lib/fies_writer.c:974-994 | one more extent adds the hole in front of it and its own packets to the stream, and its reports to the history of its device |
| Sending.StreamTiles | lib/fies_writer.c:957-1006 | the packets for a list of extents tile the file from 0 to the end of the last one |
| Sending.ContentTiles | lib/fies_writer.c:957-1013 | with the trailing hole they tile the whole file exactly once in ascending order |
| Sending.ClaimedBytesAreQuoted | lib/fies_writer.c:649-741 | the packet for a position of a shared extent is a COPY if and only if its physical byte was claimed before, and then quotes exactly the first claimant |
| Sending.HistoryGrows | lib/fies_writer.c:790-798 | sending a file only adds to the histories of the extent maps |
| Sending.SentBytesAreClaimed | lib/fies_writer.c:790-798 | after a file was sent every byte of its shared extents is claimed |
| Sending.ListedBytesAreClaimed | lib/fies_writer.c:785-798 | after a file was sent, every byte of a listed extent with flag bit 0x100 is claimed |
| Sending.PositionIsBrought | lib/fies_writer.c:649-741 | for every position of a sent extent there is a packet that has it: a COPY of type 8 that quotes the claimant if the byte was claimed, and otherwise one of the type of the extent, with the byte of the content if that is DATA |
| Sending.ListedBytesAreBrought | lib/fies_writer.c:649-802 | the packets of a file have every position of its listed extents that way; what was claimed before the call is quoted from its claimant |
| Header.MetasAccepted | lib/fies_reader.c:388-462 | the reader takes any sequence of fitting meta packets for the new file and its state stays |
| Header.MetaAcceptedIffFits | lib/fies_reader.c:402-455 | of the meta packets a writer sends the reader takes those whose attribute name has no NUL byte and that fit the buffer |
| Header.KnownFilesAreAnnounced | lib/fies_reader.c:309-321 | after an accepted stream the reader knows exactly the ids of the FILE packets that are no hard links |
| Header.RegularFileAccepted | lib/fies_writer.c:558-588 | the announcement of a regular file is accepted and starts it with nothing transferred |
| Header.OtherFileAccepted | lib/fies_writer.c:947-948 | announcing a directory or symlink is accepted and changes no other file |
| Header.ReferenceFileAccepted | lib/fies_writer.c:934-938 | a reference file is accepted without meta packets and counts as complete |
| Header.HardlinkAccepted | lib/fies_writer.c:923-928 | a hard link to a known id is accepted |
| Header.FileEndAccepted | lib/fies_writer.c:590-598 | the end packet of a known file is accepted |
| Header.NewFileAcceptedIffNamesFit | lib/fies_reader.c:182-236 | of the names the writer lets pass, the reader takes those whose type it knows, whose target is there exactly for symlinks, and which fit 65535 bytes together with target or device numbers; block and character devices and pipes need their numbers |
| Header.LongSymlinkIsRefused | lib/fies_writer.c:914-921 | a symlink the writer accepts and the reader refuses: each name fits, both together do not |
| Writer.PipesAreRefused | lib/fies_writer.c:415-427 | the writer sends device numbers for block and character devices only, the reader wants them for pipes as well, so the packet of a named pipe is always refused |
| Writer.TypesThatAreSent | lib/fies_writer.c:664-670 | extents of the types 1, 2, 4 and 6 are sent, whatever flags are above the type |
| Writer.DeliveredPackets | lib/fies_writer.c:649-741 | when all callbacks succeed the log grows by one packet for each reported piece, in order |
| Writer.FailedPackets | lib/fies_writer.c:649-741 | when a callback fails the log holds the packets of the pieces before it; it fails only if a write fails or the extent is of a type that cannot be sent, and never for a reference file |
| Writer.PartitionReuse | lib/fies_writer.c:334-337 | taking the id freed last keeps free and live ids a partition of the ids handed out |
| Writer.PartitionGrow | lib/fies_writer.c:338-340 | so does taking the next id when none is free |
| Writer.PartitionRelease | lib/fies_writer.c:382-386 | so does freeing a live id |
| Writer.TableShrink | lib/fies_writer.c:37-45 | closing a device removes it and, if it is an OS device, its node, so that nodes stay exactly inverse to the live OS devices |
| Writer.FiesWriter.PutPacket | lib/fies_writer.c:182-196 | writing any packet that quotes nothing and announces no id that was not handed out keeps the invariant that every COPY of the log is backed and every id is known |
| Writer.FiesWriter.constructor | lib/fies_writer.c:131-140 | a new writer has no devices, no files and an empty log |
| Writer.FiesWriter.TakeId | lib/fies_writer.c:334-340 | the id is the one freed last, else the next unused one; it is not live |
| Writer.FiesWriter.CreateDevice | lib/fies_writer.c:329-350 | a device, under a reused id or a new one, starts with an empty extent map |
| Writer.FiesWriter.NewDevice | lib/fies_writer.c:352-357 | adds one device and keeps the partition of ids and the inverse of nodes |
| Writer.FiesWriter.GetOSDevice | lib/fies_writer.c:359-377 | the same node always gives the same live id; an unknown node is an error or a new device |
| Writer.FiesWriter.CloseDevice | lib/fies_writer.c:379-387 | a live id becomes free and its node is forgotten; an unknown id is an error that changes nothing |
| Writer.FiesWriter.SendHole | lib/fies_writer.c:743-759 | a hole inside the file is sent and moves the frontier over zeros; a hole behind the end is refused |
| Writer.FiesWriter.SendDirect | lib/fies_writer.c:785-789 | an extent not marked as shared becomes one packet with its own bytes, unless a write fails or its type cannot be sent |
| Writer.FiesWriter.SendShared | lib/fies_writer.c:790-798 | a shared extent goes through the extent map: the history of its device grows by reports that tile it and obey the law of the map, and the packets are exactly those for the reports, whether they succeed or fail |
| Writer.FiesWriter.SendExtent | lib/fies_writer.c:761-802 | the extent is cut at the end of the file and sent, through the map if and only if it is shared, which `SharedIsABit` says of the bit in its flags; the result is the number of bytes covered |
| Writer.FiesWriter.SendRun | lib/fies_writer.c:974-994 | the gap in front of an extent becomes a hole, then the extent follows; stream and histories change by exactly that |
| Writer.FiesWriter.SendMerged | lib/fies_writer.c:971-981 | the run that starts at an extent is merged and sent; it is the next element of the merged batch |
| Writer.FiesWriter.SendBatch | lib/fies_writer.c:971-995 | exactly the merged extents of the batch are sent, in order, with the holes between them; this fails only if a write fails or a type cannot be sent |
| Writer.FiesWriter.SendAnswer | lib/fies_writer.c:960-995 | the answer of the extent callback goes through the buffer, and exactly its merged extents are sent |
| Writer.FiesWriter.SendExtents | lib/fies_writer.c:957-1006 | exactly the extents that the file lists from 0 on are sent, batch by batch and merged inside of each batch; what is left is zeros; this fails only if the file, a write or a type does |
| Writer.FiesWriter.SendFileHeader | lib/fies_writer.c:389-435 | one FILE packet with id, mode, size, names and, for block and character devices, major and minor number in that order as the file gives them; it fails only if a write fails or the file gives none |
| Writer.FiesWriter.SendFileMeta | lib/fies_writer.c:558-588 | FILE, then the metadata, then META END; if no write fails the metadata is owner, time, and each attribute with a name and a value in front of the first unreadable one, once and in the order of the list, and this succeeds if and only if the file tells its device numbers and its attributes, or attributes are not supported |
| Writer.FiesWriter.SendXAttrs | lib/fies_writer.c:474-545 | attributes without a name, without data, or gone since they were listed are skipped; the first one that cannot be read or sent ends the list with its error, and those in front of it were sent |
| Writer.AllMetasTell | lib/fies_writer.c:573-584 | the metadata of a file begins with its owner and its time; the attributes behind them are those of an ascending selection of the list, which has all that can be told up to the first fault |
| Writer.FiesWriter.RegisterFile | lib/fies_writer.c:804-809 | ids are handed out in ascending order without repetition |
| Writer.FiesWriter.BeginFile | lib/fies_writer.c:930-945 | announces a file under a fresh id; the reader accepts the announcement if the names fit |
| Writer.FiesWriter.SendFileEnd | lib/fies_writer.c:590-598 | ends an announced file |
| Writer.FiesWriter.SendTail | lib/fies_writer.c:1007-1013 | what is left of the file becomes one hole; its failure is noted and not reported |
| Writer.FiesWriter.WriteContent | lib/fies_writer.c:957-1016 | the packets of a file are those of the extents it lists, a hole for the rest and the end packet; the trailing hole alone can be missing, when it could not be written |
| Writer.FiesWriter.WriteHardlink | lib/fies_writer.c:923-928 | one FILE packet under the id the file already has |
| Writer.FiesWriter.Refusal | lib/fies_writer.c:890-921 | a file is let through if and only if its device is known, its type is not zero, name and target have 16 bit lengths, a target is there exactly for symlinks, and a reference file is a regular one; each error code names its cause |
| Writer.FiesWriter.WriteFileDo | lib/fies_writer.c:880-1017 | a refused file changes nothing; a written file adds announcement, all its metadata, tiling extents and end packet to the log, has every listed position in a packet of the right type or in a COPY of the claimant of its byte, and leaves every listed byte with flag bit 0x100 claimed; a failed call forgets no claim and changes none; if the caller described it truthfully the stream so far still replays to all contents; it fails only if it was refused or a callback or write failed |
| Writer.FiesWriter.FileIsThere | lib/fies_writer.c:880-1017 | whatever the file lists is in what the call added to the log, shared bytes are claimed afterwards, and those claimed before are quoted |
| Transfer.ReplayRebuildsEveryFile | lib/fies_writer.c:880-1017 | after any sequence of faithful and complete calls the reader accepts the whole stream and every file with extents and every reference file holds its content byte for byte |
| Transfer.CopiesQuoteEarlierExtents | lib/fies_writer.c:724-802 | every COPY of every stream, cut short or not, quotes a range inside an announced file and inside one extent sent before it with its own bytes, or inside a reference file; so copies never chain |
| Transfer.CopySourcesAreKnown | lib/fies_reader.c:592-595 | the throw for a copy from an unknown file id cannot happen for a stream of the writer |
| Transfer.SharedByteIsSentOnce | lib/fies_writer.c:724-802 | a physical byte that a shared extent of one file brought into the stream is quoted from its first claimant wherever a shared extent of a later file has it, as long as the histories between them only grew |
| Session.HistoryOfFile | lib/fies_writer.c:790-798 | the histories after a session are those of its sent extents, one file after the other, and each extent was lawful when it was sent |
| Session.HistoryGoesOn | lib/emap.c:104-191 | the histories in the course of a session only grow |
| Session.PlaceFile | lib/fies_writer.c:957-1006 | the packets of the extents of a further file stand in the log behind all others, and every packet is one of them, a hole, or no extent |
| Session.NewOnce | lib/emap.c:138-190 | no byte is reported new twice in a history |
| Session.SharedBytesTravelOnce | lib/fies_writer.c:724-802 | in the log of a session two packets that bring the same physical byte of a device from shared extents, and are no copies, are one packet |
| Transfer.FileFollows | lib/fies_writer.c:957-1016 | where the extent packets of a file stand in the log of the call that wrote it, with nothing but holes and other kinds of packets around them |
| Transfer.TrackedIdsAreBelow | lib/fies_writer.c:804-809 | every file with content has an id handed out before, so the next file cannot replace it |
| Transfer.WriteNext | lib/fies_writer.c:1019-1029 | one file more, which disturbs none of those before and after it, forgets no claim, and puts its packets behind those of the others |
| Transfer.WriteAll | lib/fies_writer.c:1019-1029 | writing any sequence of files and reference files: all calls succeed if nothing is refused and no callback or write fails, and then replaying the stream rebuilds every regular and reference file; the log is accounted for by the extents that were sent, and no shared physical byte is in it twice |
| ThinPool.NodeSearch | libfies-dmthin/dmthin.c:38-52 | returns the position of the key, else that of the next higher or next lower key as asked |
| ThinPool.TimeIsDropped | libfies-dmthin/main.c:187-190 | the value of a leaf names the block above its 24 bit time stamp, whatever the stamp is |
| ThinPool.PhysicalEnumerates | libfies-dmthin/main.c:184-211 | the blocks that are enumerated are those that the leaf entries name, with their keys and in their order |
| ThinPool.EndOfRange | libfies-dmthin/main.c:231-242 | the walk ends as many whole blocks behind the start as the length has, or at the largest 64 bit number if the sum does not fit |
| ThinPool.ContinuesInBytes | libfies-dmthin/main.c:193-196 | comparing byte addresses decides exactly whether a block continues a run of blocks |
| ThinPool.AppendExpands | libfies-dmthin/main.c:192-207 | growing the last run or starting a new one adds exactly one block to what the runs stand for, and keeps runs maximal |
| ThinPool.StoreBlock | libfies-dmthin/main.c:192-208 | a block is stored by growing the last extent or in a new slot; it is refused only when a slot is needed and none is free |
| ThinPool.MapLeaf | libfies-dmthin/main.c:184-211 | a leaf is stored from the search position on, in order, completely unless the buffer is full |
| ThinPool.FiesDMThin.MapChildren | libfies-dmthin/main.c:172-182 | children are visited in order up to the first one at or beyond the bound or a full buffer |
| ThinPool.FiesDMThin.MapAddressRange | libfies-dmthin/main.c:142-219 | the buffer holds a gap-free prefix of the mapped blocks that the walk visits, as maximal runs, all of them if the buffer is not full; an error means that a block could not be read |
| ThinPool.FiesDMThin.Search | libfies-dmthin/main.c:85-119 | a found value is what the tree maps the key to; without read errors a key that is not found is not mapped |
| ThinPool.FiesDMThin.MapExtents | libfies-dmthin/main.c:221-259 | the runs stand for the blocks that the leaf entries name, from the start block on, without a gap; they become extents with the first one cut to the start byte; an error means unreadable metadata or an unknown volume |
| ThinPool.CutFirst | libfies-dmthin/main.c:246-256 | the first extent is cut to the start byte, and the branch for an extent that ends before it is never taken |
| ThinPool.VisitStartsAt | libfies-dmthin/main.c:163-167 | every block the walk produces is mapped and at or behind the start |
| ThinPool.InOneChild | libfies-dmthin/main.c:92-104 | only the child found by the search can hold the key |
| ThinPool.KeysInBounds | libfies-dmthin/main.c:92-104 | all keys below a node lie between its key and the next one |
| ThinListing.VisitIsCompleteIff | libfies-dmthin/main.c:172-182 | the walk finds all mapped blocks from the start on if and only if no child with something to map has a block number at or beyond the bound |
| ThinListing.VisitToTheEndIsComplete | src/fies-dmthin/dmthin_meta.c:222-231 | mapping to the end finds all mapped blocks when the metadata blocks lie below the number of volume blocks in 64 bits |
| ThinListing.BlockBeyondTheEndIsMissed | libfies-dmthin/main.c:174-175 | a volume with blocks of 512 bytes and a mapped block inside the asked range of 5120 bytes that is missed, because the bound is compared with the number of its node |
| ThinListing.TreePairsAscend | libfies-dmthin/main.c:172-211 | the mapped blocks of an ordered tree ascend |
| ThinListing.ResumesWhereItStopped | libfies-dmthin/main.c:163-167 | a walk that starts behind the last block of the previous one continues with the next block |
| ThinListing.ListedRunsAscend | libfies-dmthin/main.c:184-211 | the runs of an answer ascend and are disjoint |
| ThinListing.MappedIsListed | libfies-dmthin/main.c:184-211 | no mapped block between two runs of an answer is missing |
| ThinListing.ListingResumes | libfies-dmthin/main.c:244-258 | what is left behind the last run is exactly what was not listed |
| ThinListing.AnswersKeepTheContract | libfies-dmthin/main.c:221-259 | every answer is ascending, disjoint, not empty, at or behind the asked position and starts inside the file, as the writer demands of extents |
| ThinListing.AnswersAreTrue | libfies-dmthin/main.c:221-259 | every extent of an answer is DATA and shared, flags 0x101, and names the pool bytes that hold the content of the volume; what an answer skips reads as zeros |
| ThinListing.VolumeCallback | libfies-dmthin/main.c:221-259 | an extent callback that answers with such listings keeps the contract the writer has with its files, and tells the truth about the volume |
| ThinListing.ThinMetaMap | src/fies-dmthin/dmthin_meta.c:222-231 | mapping to the end lists a prefix of the mapped blocks from the position on, all of them if the buffer is not full; with a buffer of the size of the writer's it is an answer as the writer needs it |
| ThinListing.ListVolume | lib/fies_writer.c:960-969 | calls with a buffer of any size, each from the end of the last extent, list every mapped block once and in order, each at the pool block that its leaf entry names |
| Reader.CarriedMore | lib/fies_reader.c:632-650 | one more write or send with the next bytes of the stream continues the tiling of the payload |
| Reader.ListFront | lib/fies_reader.c:796-815 | the bytes of a list begin with those of its first entry |
| Reader.ListPrefix | lib/fies_reader.c:796-815 | list entries are a prefix code |
| Reader.ListBytesInjective | lib/fies_reader.c:770-833 | two lists with the same bytes are the same list |
| Reader.NextName | lib/fies_reader.c:775-803 | in a good list every entry boundary but the last is followed by a whole entry of at least three bytes or by a longer rest |
| Reader.SizeCheckMissesIff | lib/fies_reader.c:687-731 | an extent passes all checks of the reader and leaves its file if and only if its form is right and the 64 bit sum of offset and length wraps around to a value inside the file |
| Reader.FileChecksAgree | lib/fies_reader.c:196-233 | on packets of the right size the checks decide as the packet level reader does, error for error |
| Reader.ExtentChecksAgree | lib/fies_reader.c:687-731 | an extent that the packet level reader applies passes the header checks |
| Reader.FiesReader.constructor | lib/fies_reader.c:49-80 | a new reader waits for the header, with an empty buffer and an empty table |
| Reader.FiesReader.ShiftBuffer | lib/fies_reader.c:111-122 | moves the buffered bytes to the front and changes none of them |
| Reader.FiesReader.Eat | lib/fies_reader.c:124-131 | consumes buffered bytes; eating more than is buffered is an error |
| Reader.FiesReader.BufferSome | lib/fies_reader.c:133-173 | the buffer always holds exactly the next bytes of the stream, never more of them than were asked for; a fixed part is refused if and only if it and what is buffered of it do not fit the buffer together; with reads that give all they are asked for, a payload is taken for the end of the stream if and only if the buffer is half full and the rest does not fit, and the size computation wraps around if and only if it is more than half full |
| Reader.FiesReader.FetchCapped | lib/fies_reader.c:142-173 | the branch that caps the request counts the buffered bytes twice: both consequences with their exact conditions |
| Reader.FiesReader.BufferAtLeast | lib/fies_reader.c:175-180 | buffers all the bytes of a fixed part, or waits |
| Reader.FiesReader.ReadHeader | lib/fies_reader.c:939-970 | consumes exactly the stream header, if its magic, version and flags are right |
| Reader.FiesReader.CheckHeader | lib/fies_reader.c:939-970 | the header is let through if and only if magic, version and flags fit |
| Reader.FiesReader.NewFile | lib/fies_reader.c:182-322 | consumes exactly the packet and enters, under an id that was not in use, the file its bytes describe, or makes the hard link or the device node they describe; a packet the checks complain about is refused with that complaint, any other only because of a callback |
| Reader.FiesReader.Make | lib/fies_reader.c:195-321 | the same for a header that was read: what is created, entered and expected next, and every reason to fail |
| Reader.FiesReader.Enter | lib/fies_reader.c:294-315 | a new file is entered and, unless it is a reference file, its meta packets are expected; a hard link enters nothing |
| Reader.FiesReader.GetNewFile | lib/fies_reader.c:324-332 | waits for the whole packet; then the table, the new file and the call of the callback are those the bytes of the packet describe |
| Reader.FiesReader.GetFileEnd | lib/fies_reader.c:349-379 | the file is reported as finished once and the packet consumed; the id is the one in the packet unless the buffer has to be moved to make room for it, which is decided before it is read, and otherwise whatever stands at the old place; the throw marked as impossible happens if and only if that id is unknown, and a moved buffer means that the packet ends behind the last four bytes of the first buffer |
| Reader.FiesReader.HandleFileMeta | lib/fies_reader.c:388-462 | consumes exactly the packet, passes its bytes on to the receiver of the new file if there is one, and ends the announcement exactly with META END; it refuses a packet if and only if its bytes are bad or name another file |
| Reader.FiesReader.MetaIsJudged | lib/fies_reader.c:402-455 | the checks of a meta packet look at nothing but its own bytes |
| Reader.FiesReader.ZeroExtent | lib/fies_reader.c:494-515 | zero writes tile the range of the extent in order, for any splitting, and the extent ends with the last of them; it fails only because of the write callback |
| Reader.FiesReader.PunchHole | lib/fies_reader.c:517-541 | the hole is punched once with the extent's range, or not at all without a handle; it fails only because of the callback |
| Reader.FiesReader.GetExtentCopyInfo | lib/fies_reader.c:577-608 | a finished COPY extent cloned exactly its range from the file and offset that the stream names; it is refused only if that file is unknown or because of a callback |
| Reader.FiesReader.WriteBuffered | lib/fies_reader.c:627-654 | the accepted part of a write is the next part of the payload, at its offset; a short write waits |
| Reader.FiesReader.Send | lib/fies_reader.c:543-558 | is only called with an empty buffer, when the stream stands exactly at the next payload byte |
| Reader.FiesReader.SendDirect | lib/fies_reader.c:656-673 | what the send callback took from the stream is the next part of the payload |
| Reader.FiesReader.ReadExtent | lib/fies_reader.c:610-674 | when a DATA extent ends, its writes and sends tile its range in order with exactly the payload bytes, for any splitting of reads and any fallback between send and write, and nothing else was done; with framing intact it fails only because of a callback |
| Reader.FiesReader.AcceptExtent | lib/fies_reader.c:676-735 | takes over the header the stream holds, consumes it and chooses the handler of the body; the file is in the table |
| Reader.FiesReader.StartExtent | lib/fies_reader.c:676-743 | header and body in one step, with the same result as in many: the extent in the stream was done as its flags say, or as much of it as the state says; it is refused only if its bytes are bad |
| Reader.FiesReader.HandleBody | lib/fies_reader.c:698-743 | whatever the type, the handler of a body goes on where the extent stands and nowhere else |
| Reader.FiesReader.GetExtentHeader | lib/fies_reader.c:745-753 | waits for the whole header before the extent starts |
| Reader.FiesReader.ReadSnapshotList | lib/fies_reader.c:770-833 | the list is delivered in one call with the names its bytes stand for; for a list whose last name is not empty and that fits half of the buffer only the read callback can make it fail |
| Reader.FiesReader.GetSnapshotList | lib/fies_reader.c:835-854 | starts a list for the file the stream names, if that is known |
| Reader.FiesReader.ReadPacketHeader | lib/fies_reader.c:856-890 | consumes exactly the packet header and notes kind, size and end of the packet as it declares them; it refuses only headers that break the rules |
| Reader.FiesReader.ReadPacket | lib/fies_reader.c:856-929 | the packet that begins here was done completely, or as much of it as the state says, or nothing of it; it is refused if its bytes are bad, and otherwise only because of a callback or for the reasons in `Stumbled`, each with its condition; without its whole header nothing changes; with willing callbacks it does not wait |
| Reader.FiesReader.HandlePacket | lib/fies_reader.c:884-927 | the body of a packet of any kind is done as its bytes say, or waits, or is refused for a reason in its bytes or in a callback |
| Reader.FiesReader.Resume | lib/fies_reader.c:985-1043 | a packet that had to wait goes on exactly where it stood |
| Reader.FiesReader.Iterate | lib/fies_reader.c:972-1053 | one step for any stream and any callbacks: the table only grows, every state refers to files in it, so that the throws for dropped files never happen; the current packet goes on as its bytes say, and with willing callbacks it does go on; framing is lost only when a packet is shorter than its fixed part, a waiting payload does not fit half of the buffer, or an extent header is resumed |
| Reader.FiesReader.Drive | lib/fies_reader.c:972-1053 | the same for any number of steps |
| Snapshots.FileSnapshots | lib/fies_writer.c:600-636 | the payload is the list's bytes; too many or too long names are refused |
| Snapshots.ListIsGood | lib/fies_writer.c:600-636 | no other names have the same bytes, so a list is one the reader can take if and only if its last name is not empty |
| Snapshots.ListIsTakenIff | lib/fies_reader.c:770-833 | of the lists the writer sends, for a known file, the reader refuses a list as malformed if and only if its last name is empty, and never delivers such a list |
| Snapshots.EmptyLastNameIsRefused | lib/fies_reader.c:775-777 | the bytes of a list of two names, the last one empty, which the writer sends and the reader cannot take |
| Snapshots.DeliveredNames | lib/fies_reader.c:755-768 | the callback gets the names that were sent, in the same order |
| Wire.PacketHeaderIsRead | lib/fies_writer.c:277-323 | kind and size of a packet are read where they were written |
| Wire.FileIsRead | lib/fies_writer.c:389-435 | the reader's parser of FILE packets undoes the writer's printer |
| Wire.MetaIsRead | lib/fies_writer.c:436-556 | kind, file and data of a meta packet are read where they were written |
| Wire.ExtentIsRead | lib/fies_writer.c:649-741 | header, payload and source of an extent are read where they were written |
| Wire.ListIsRead | lib/fies_writer.c:600-636 | file and names of a snapshot list are read where they were written |
| Wire.EndIsRead | lib/fies_writer.c:590-598 | the id of a FILE_END is read where it was written |
| Wire.NumbersArriveIff | lib/fies_reader.c:236-285 | the reader looks for device numbers 8 bytes behind the beginning of the name and not behind its end, so the numbers that were sent arrive, whatever they are, if and only if the name has 8 bytes |
| Wire.RandomGetsOtherNumbers | lib/fies_reader.c:236-285 | the node dev/random with numbers 1 and 8 is made with other numbers |
| Formats.PacketsAreFormatted | include/fies.h:504-720 | the bytes the writer prints for a packet of any kind are those of the format, written out field by field with literal kinds, sizes and byte orders |
| Formats.MetaDataIsFormatted | include/fies.h:619-657 | the data of a meta packet: user id before group id, seconds before nanoseconds, both lengths before name and value |
| Formats.DigitsAreRead | lib/fies_reader.c:182-195 | the reader reads a number of 16, 32 or 64 bits where its bytes are, lowest first |
| Formats.PacketsTaken | lib/fies_reader.c:884-927 | which kinds of packets with which sizes are let through, inside of an announcement and outside |
| Formats.ExtentsTaken | lib/fies_reader.c:687-731 | which extent headers with which packet sizes are let through |
| Formats.MetasTaken | lib/fies_reader.c:402-455 | which meta packets are let through |
| Formats.FilesTaken | lib/fies_reader.c:196-236 | which FILE packets are let through |
| Formats.StreamIsFormatted | lib/fies_writer.c:838-862 | a stream begins with FIES, version 1 and its flags |
| Formats.HeaderFitsIff | lib/fies_reader.c:939-970 | the reader takes the header that the writer prints if and only if all required flags are set and not a single rejected one |
| Delivery.CarriedIsStored | lib/fies_reader.c:610-674 | writes and sends that tile a range leave exactly the payload in it |
| Delivery.BlankedIsStored | lib/fies_reader.c:494-515 | zero writes that tile a range leave exactly zeros in it |
| Delivery.FileAgrees | lib/fies_reader.c:182-322 | after a FILE packet the byte level and the packet level know the same files with the same contents |
| Delivery.NodeIsMade | lib/fies_reader.c:277-287 | a node is made with the numbers that stand at that fixed place in its packet |
| Delivery.MetaIsTold | lib/fies_reader.c:402-455 | a meta packet that the user listens to is told to the receiver of the announced file, with its kind and its data in the order of the format |
| Delivery.MetaAgrees | lib/fies_reader.c:388-462 | the same after a meta packet |
| Delivery.ListAgrees | lib/fies_reader.c:770-833 | the same after a snapshot list, whose names were delivered in one call and in order |
| Delivery.NamesAreDelivered | lib/fies_reader.c:755-833 | the callback for snapshots is called once, with the names of the packet, in order |
| Delivery.EndIsTold | lib/fies_reader.c:349-379 | a FILE_END is told to the receiver of the file it names, once, unless its id was read elsewhere |
| Delivery.EndsAreSilent | lib/fies_reader.c:349-379 | telling receivers that files are complete changes no content |
| Delivery.ExtentIsTold | lib/fies_reader.c:698-743 | what the receiver of an extent was told, by the type in the packet: DATA 1 is only written or sent and carries the payload, ZERO 2 is only written as zeros over its range, HOLE 4 is punched once, COPY 8 is cloned once from the file the packet names |
| Delivery.ExtentAgrees | lib/fies_reader.c:676-743 | the same after an extent of any type, however its body was split |
| Delivery.PacketAgrees | lib/fies_reader.c:856-929 | one packet handled at the byte level is one packet applied at the packet level |
| Delivery.NotRefused | lib/fies_reader.c:856-929 | a packet of any kind that the packet level takes is not refused at the byte level |
| Delivery.HandledIsApplied | lib/fies_reader.c:856-929 | the converse: a packet of any kind that was handled at the byte level is one the packet level takes, if and only if it is none of four: an extent whose end wraps around, a copy from behind the end of its source, a list nobody listens to with an empty last name, a FILE_END whose id was read elsewhere |
| Delivery.RunIsFullSize | lib/fies_reader.c:610-743 | after every stream each file has its announced size, so the source of a copy ends where its announcement says |
| Delivery.RunPrefix | lib/fies_reader.c:856-929 | the reader of a stream went through all its prefixes: each is accepted, and the next packet is applied to the state after it |
| Delivery.PacketIsThere | lib/fies_writer.c:277-323 | in a stream each packet begins where the ones before it end |
| Delivery.NextPacket | lib/fies_reader.c:972-1053 | a reader done with one packet stands exactly at the next, with both levels in agreement |
| Delivery.TakeStep | lib/fies_reader.c:972-1053 | every step of a reader on an accepted stream keeps it in step with the packet level, inside of packets as well |
| Delivery.BodyFitsBuffer | lib/fies_reader.c:133-180 | FILE and meta packets that the packet level takes fit the buffer |
| Delivery.TakeEarlyStep | lib/fies_reader.c:972-1053 | with willing callbacks every step in front of the end of the stream consumes at least one byte |
| Delivery.Follow | lib/fies_reader.c:972-1053 | for any number of steps, any splitting of reads and writes and any callbacks: on a stream the packet level takes, a run that keeps its framing fails only because of a callback or for the reasons in `Stumbled`, and when all packets are handled both levels agree; with satisfied reads and payloads that fit, framing is kept |
| Delivery.FollowToEnd | lib/fies_reader.c:972-1053 | with willing callbacks and one step for every byte the reader comes to the end of the stream, has handled all packets and taken no byte behind them, and both levels agree; the one other outcome is the mistaken id of a FILE_END, which needs a stream that does not fit the buffer |
| EndToEnd.SoundStreamsAreFaithful | lib/fies_writer.c:880-1017 | the stream of faithful and complete calls is one the reader can follow |
| EndToEnd.BytesReachTheReceiver | lib/fies_reader.c:972-1053 | at the end of such a stream the receiver's file for every file with extents and every reference file holds its content, byte for byte |
| EndToEnd.TransferAll | lib/fies_writer.c:1019-1029 | from files to files: writing any sequence of files, turning the packets into bytes and feeding them to a reader; if the callbacks are willing and give every file a handle of its own, the reader comes to the end and every regular and reference file arrives byte for byte, unless the stream exceeds the buffer and the id of a FILE_END is mistaken; with other callbacks it fails only because of them or for the reasons in `Stumbled` |
| Failures.EndOfKnownFileIsLost | lib/fies_reader.c:349-379 | a stream and a state, with the buffer consumed up to its last three bytes, in which a FILE_END that names a known file runs into the throw marked as impossible |
| Failures.HoleIsPunchedBehindTheEnd | lib/fies_reader.c:687-731 | an extent packet of two bytes at the largest position for a file of ten bytes, which the reader takes, and the hole is punched |
| Failures.LargestFilePacketIsTooLarge | lib/fies_reader.c:142-147 | a FILE packet of a size that the reader lets through, of which a part is buffered, is refused for lack of room |
| Failures.HalfFullBufferEndsTheStream | lib/fies_reader.c:148-164 | with a buffer that is exactly half full a reader takes a stream that goes on for finished |
| Vectors.Vector.Realloc | lib/vector.c:60-67 | moves the entries to new slots and changes none |
| Vectors.Vector.Less | lib/vector.c:96-105 | gives back slots until at most twice the count plus one are left |
| Vectors.Vector.Push | lib/vector.c:107-114 | appends the entry |
| Vectors.Vector.Insert | lib/vector.c:116-134 | puts the entry in front of position `index`, the others keep their order |
| Vectors.Vector.AppendUninitialized | lib/vector.c:136-144 | adds slots at the end and keeps the entries in front of them |
| Vectors.Vector.Pop | lib/vector.c:146-155 | drops the last entry and destroys it; an empty vector stays as it is |
| Vectors.Vector.Remove | lib/vector.c:157-172 | drops a range, destroys exactly its entries and keeps the order of the others |
| Vectors.Vector.Replace | lib/vector.c:174-181 | changes one entry and destroys the old one |
| Vectors.Vector.Clear | lib/vector.c:19-30 | drops and destroys all entries |
| SortedMap.LookupIs | lib/map.c:66-90 | in ascending keys at most one entry equals a key, and the map is what it holds |
| SortedMap.SpliceKeepsOrder | lib/map.c:119-123 | inserting at the found place keeps keys strictly ascending |
| SortedMap.SpliceUpdates | lib/map.c:119-123 | inserting changes the map at the new key only |
| SortedMap.ReplaceUpdates | lib/map.c:114-118 | replacing changes the map at the key only |
| SortedMap.RemoveUpdates | lib/map.c:101-110 | removing changes the map at the key only |
| SortedMap.Map.FindIndex | lib/map.c:65-90 | finds the entry of a key or the place where it belongs |
| SortedMap.Map.Get | lib/map.c:92-99 | returns what the map holds for the key |
| SortedMap.Map.Remove | lib/map.c:101-110 | the key is gone, all others keep their values, and the result tells whether it was there |
| SortedMap.Map.Insert | lib/map.c:112-124 | the key has the value, all others keep theirs, and the result tells whether it was there |
| SortedMap.IdsAreOrdered | lib/fies_writer.c:29-35 | the comparator of file ids is the order of numbers, a total order in which only equal ids compare equal |
| Crc32c.ShiftInOther | libfies-dmthin/crc.c:14 | a message bit that differs from the lowest bit of the register shifts it and adds 0x82F63B78 |
| Crc32c.ShiftInSame | libfies-dmthin/crc.c:14 | an equal one only shifts it |
| Crc32c.EightBits | libfies-dmthin/crc.c:20-21 | the bits of a byte go in from the lowest to the highest |
| Crc32c.RegisterOfMore | libfies-dmthin/crc.c:20-21 | the bytes of a message go in one after the other |
| Crc32c.StepsSplit | libfies-dmthin/crc.c:13-14 | bits above the low ones only move down while the register steps |
| Crc32c.EightSteps | libfies-dmthin/crc.c:20-21 | eight steps are one shift by a byte and the table entry of the low byte |
| Crc32c.BitsAreAdded | libfies-dmthin/crc.c:20-21 | shifting message bits in one by one equals adding them to the register first |
| Crc32c.OneByte | libfies-dmthin/crc.c:20-21 | one round of the loop is one byte through the bit by bit shift register |
| Crc32c.ReversedPolynomial | libfies-dmthin/crc.c:14 | the constant is the polynomial of section 12.1 of RFC 3720 with its bits reversed |
| Crc32c.Crc.EntryFourTells | libfies-dmthin/crc.c:10 | entry 4 is zero exactly as long as the table is not built |
| Crc32c.Crc.Build | libfies-dmthin/crc.c:11-16 | builds every entry of the table |
| Crc32c.Crc.Checksum | libfies-dmthin/crc.c:6-23 | the table driven result equals the bit by bit register after every message |
| Crc32c.KnownChecksum | libfies-dmthin/crc.c:6-23 | the register after the digits 123456789 is the complement of 0xE3069283, the check value of CRC-32C |
| Mtree.EscapedForms | lib/util.c:78-90 | space, tab, form feed, carriage return and newline become three octal digits, a backslash becomes two |
| Mtree.NoBlanksInside | lib/util.c:78-90 | no escaped name has a blank in it |
| Mtree.PlainIsKept | lib/util.c:78-100 | a name without blanks and backslashes is its own escaped form |
| Mtree.PlainIsItself | lib/util.c:14-59 | text without backslashes stands for itself |
| Mtree.OctalIs | lib/util.c:35-43 | behind a backslash as many octal digits are read as there are, at most three, and their number is taken as one byte |
| Mtree.RoundTrip | lib/util.c:6-113 | decoding undoes encoding for every string without NUL bytes |
| Mtree.DecodesEscape | lib/util.c:6-59 | decoding takes back one escaped character at a time, whatever follows it |
| Mtree.KeptIsPrefix | lib/util.c:61-113 | what is left after a cut decodes to a prefix of the string |
| Mtree.Escapes | lib/util.c:61-105 | the encoder's loop ends at the end of the text or when the buffer is full, never inside an octal escape |
| Mtree.Encode | lib/util.c:61-113 | no blank is ever stored; a large enough buffer gets the whole escaped string, a smaller one a terminated part of it that ends between characters or after half a backslash and fills the buffer up to four bytes; without a buffer the result is the exact length if and only if the size passed is not reached inside of or behind an escaped backslash and is not the length itself |
| Mtree.OctalDigits | lib/util.c:35-43 | reads up to three octal digits |
| Mtree.Decode | lib/util.c:6-59 | the buffer gets what the text stands for, cut one byte short of its size and terminated; without a buffer the result is the exact length unless a size is passed that equals it |
| Mtree.EncodeAndDecode | lib/util.c:6-113 | through two large enough buffers every non-empty string without NUL bytes comes back |

## Left out

- Writer.FiesWriter.SendExtent: explicit COPY extents from callers are excluded by the contract of the extent callback, and so is their merging, which ignores the source (lib/fies_writer.c:778-784, 864-878); the extent is clamped in a copy, not in the buffer, which is not read again.
- Writer.FiesWriter.PutPacket: a DATA packet is one write; that header and payload are written separately, and the payload in chunks of one megabyte (lib/fies_writer.c:198-267, 700-710), is not modelled. A packet that fails in between counts as not sent.
- Writer.FiesWriter.WriteContent: the result of a failed trailing hole is overwritten by that of the end packet (lib/fies_writer.c:1007-1013), so complete coverage is stated exactly for the runs in which that write succeeds.
- Writer.FiesWriter.WriteFileDo: addition of file ids is assumed not to wrap at 32 bits; sums of addresses in the extent callback's answers are assumed to fit 64 bits.
- Replay.EmitNew: for extents typed DATA, ZERO or HOLE. The writer also lets HOLE and ZERO together pass (lib/fies_writer.c:668), which the reader refuses; such a stream is outside the condition.
- ExtentMap.EMap.Add: works on a copy of the device's list that is stored back at the end, where the code changes the list in place; the difference is not visible to callbacks, which have no access to the map.
- ThinPool.FiesDMThin.MapAddressRange: nodes that are neither leaf nor inner node (libfies-dmthin/main.c:159-162, 212-214) do not occur in a well-formed tree; byte addresses are unbounded numbers.
- ThinListing.VisitToTheEndIsComplete: ranges that end earlier are not claimed to be complete; VisitIsCompleteIff says when they are.
- Reader.FiesReader.BufferSome: when the size computation wraps around and the callback then delivers more than fits, the model stops with an error of its own, since what the code does then depends on memory behind the buffer.
- Reader.FiesReader.ReadSnapshotList: without a snapshots callback the list is skipped in pieces, and a rest of one or two bytes is refused; delivery is stated for readers with the callback.
- Reader.FiesReader.NewFile: fields in front of the end of a packet that is too short are read from memory behind it, which the model lets be anything.
- Delivery.Follow: says nothing about runs that lost their framing. The contents are those of a receiver whose write callback never claims more than it was given and, for `FreshHandles`, that gives every file a handle of its own.
- Delivery.FollowToEnd: progress is stated for callbacks that succeed at once and reads that give what they are asked for; the loop stops at the end of the stream, so the step that then finds nothing more to read is not part of it.
- EndToEnd.TransferAll: stops if a field of a packet does not fit its width, where the code would cut it off; the reader is fed after the writer is done.
- Reader.FiesReader.ReadPacketHeader: the packet that marks the end of a stream (include/fies.h:856-857) is taken, but no writer sends it; streams end where their bytes end.
- Crc32c.Crc.Checksum: the static table is a field, so one object stands for the process.
- Operating system code: FIEMAP and extended attribute access, librbd, libzfs and device mapper front ends, option parsing, printing and the tools around the library.
- Allocation failure, freeing of memory and byte swapping on big endian hosts.
- FiesDMThin_mapAddress, whose result test is inverted (libfies-dmthin/main.c:129-140), and btree_node_verify.
