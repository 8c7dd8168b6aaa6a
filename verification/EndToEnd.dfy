/** From files to files: the writer, the bytes of its stream, and the reader. */
module EndToEnd {
  import opened Common
  import opened Protocol
  import opened Files
  import opened Writer
  import opened Transfer
  import opened Wire
  import opened Delivery
  import Reader

  /** The reader is fed with the bytes of the writer's stream, and the user can live with its flags. */
  ghost predicate Connected(w: FiesWriter, r: Reader.FiesReader, flags: nat)
    reads w`out
  {
    IsStream(r.input, flags, w.out.log) && r.HeaderFits(StreamHeaderBytes(flags)) && r.WritesAtMost()
  }

  /** A stream of faithful and complete calls is one the reader can follow. */
  lemma SoundStreamsAreFaithful(w: FiesWriter, r: Reader.FiesReader, flags: nat)
    requires w.Valid() && w.sound && Connected(w, r, flags)
    ensures Faithful(r, w.env, flags, w.out.log)
  {
    hide IsStream, Reader.FiesReader.HeaderFits, Reader.FiesReader.WritesAtMost;
  }

  /**
   * If a reader came to the end of the stream of such calls, the receiver's file for every file
   * with extents and every reference file holds its content, byte for byte.
   */
  lemma BytesReachTheReceiver(w: FiesWriter, r: Reader.FiesReader, f: nat)
    requires w.Valid() && w.sound && f in w.contents
    requires InStep(w.env, w.out.log, r.files, r.newfile, r.effects) && FreshHandles(w.env, r.effects)
    ensures f in r.files && r.files[f].handle in Stored(w.env, r.effects)
    ensures Stored(w.env, r.effects)[r.files[f].handle] == w.contents[f]
  {
    hide FiesWriter.Valid, Stored, FreshHandles, Run;
    ReplayRebuildsEveryFile(w, f);
    assert Same(Run(w.env, w.out.log).state.files[f], r.files[f], f, Stored(w.env, r.effects));
  }

  /** The bytes of a stream, and zeros behind them. */
  function StreamFrom(bytes: seq<byte>): Reader.Stream {
    (i: nat) => if i < |bytes| then bytes[i] else 0
  }

  lemma StreamFromIsStream(flags: nat, log: seq<Packet>)
    requires flags < U32 && AllSizable(log)
    ensures IsStream(StreamFrom(StreamBytes(flags, log)), flags, log)
  {
    hide StreamBytes;
    var all := StreamBytes(flags, log);
    assert Reader.Bytes(StreamFrom(all), 0, |all|) == all;
  }

  /** The receiver's copy of the file. */
  ghost predicate Arrived(w: FiesWriter, r: Reader.FiesReader, file: FiesFile)
    reads file`fileid, r
  {
    && file.fileid in r.files && r.files[file.fileid].handle in Stored(w.env, r.effects)
    && Stored(w.env, r.effects)[r.files[file.fileid].handle] == file.content
  }

  /** What the packet level rebuilds, the receiver has. */
  lemma RebuiltArrives(w: FiesWriter, r: Reader.FiesReader, file: FiesFile)
    requires Rebuilt(w, file) && InStep(w.env, w.out.log, r.files, r.newfile, r.effects)
             && FreshHandles(w.env, r.effects)
    ensures Arrived(w, r, file)
  {
    hide Stored, FreshHandles, Run;
    var f := file.fileid;
    assert Same(Run(w.env, w.out.log).state.files[f], r.files[f], f, Stored(w.env, r.effects));
  }

  /**
   * Writes files and reference files, and feeds the stream to a new reader. If the files were
   * ready, nothing was refused and no write failed, then a run of the reader that keeps its
   * framing ends with an error only for the reasons in `Excused`, and if it reaches the end of
   * the stream, the receiver has every regular and every reference file, byte for byte. With
   * willing callbacks, lists that fit into half of the buffer and a step for every byte it does
   * reach the end, unless it mistakes the id of a FILE_END in a stream that exceeds the buffer.
   */
  method TransferAll(w: FiesWriter, files: seq<FiesFile>, refs: seq<bool>, flags: nat, outside: Reader.Stream,
                     funcs: Reader.Funcs, required: bv32, rejected: bv32, steps: nat)
    returns (rc: int, r: Reader.FiesReader?)
    requires w.Valid() && |refs| == |files| && HandlesOk(w, files, 0) && flags < U32
    modifies w`out, w`nextFileid, w`contents, w`done, w`sound, files, w.EMaps()
    ensures w.Valid() && (r != null ==> r.Valid() && fresh(r))
    ensures old(AllDeliverable(w, files, refs)) ==> rc >= 0
    ensures r != null <==> rc >= 0 && AllSizable(w.out.log)
    ensures r != null && old(w.sound) && Works(w.io) && old(AllReady(w, w.out.log, files, refs, 0))
            && r.HeaderFits(StreamHeaderBytes(flags)) && r.WritesAtMost() ==>
              && (r.sane && !r.Live() ==> r.Excused())
              && (Comfortable(r, w.out.log) ==> r.sane)
              && (Comfortable(r, w.out.log) && r.Willing() && steps > |StreamBytes(flags, w.out.log)| ==>
                    if r.Live() then Complete(r, w.out.log)
                    else r.Mistaken() && |StreamBytes(flags, w.out.log)| + Reader.SIZEOF_FILE_END > BUFFER_CAPACITY)
              && (r.sane && Complete(r, w.out.log) && FreshHandles(w.env, r.effects) ==>
                    forall i :: 0 <= i < |files| && FileType(files[i].mode) == M_FREG ==> Arrived(w, r, files[i]))
  {
    hide FiesWriter.Valid, AllReady, AllDeliverable, Works, FreshHandles, Comfortable, Faithful, Following, InStep,
         StreamBytes, Complete, AllSizable, Offset, Rebuilt, Arrived, HandlesOk;
    hide Reader.FiesReader.Valid, Reader.FiesReader.HeaderFits, Reader.FiesReader.WritesAtMost,
         Reader.FiesReader.Excused, Reader.FiesReader.Willing, Reader.FiesReader.Mistaken;
    r := null;
    ghost var sentSteps, starts;
    rc, sentSteps, starts := WriteAll(w, files, refs);
    if rc < 0 || !AllSizable(w.out.log) {
      return;
    }
    var bytes := StreamBytes(flags, w.out.log);
    StreamFromIsStream(flags, w.out.log);
    r := new Reader.FiesReader(StreamFrom(bytes), outside, funcs, required, rejected);
    NewReaderFollows(r, w.env, w.out.log);
    ghost var fine := w.sound && r.HeaderFits(StreamHeaderBytes(flags)) && r.WritesAtMost();
    if fine {
      SoundStreamsAreFaithful(w, r, flags);
    }
    StreamEnds(flags, w.out.log, 0);
    ghost var k := FollowToEnd(r, steps, |bytes|, w.env, flags, w.out.log);
    if fine && r.sane && Complete(r, w.out.log) && FreshHandles(w.env, r.effects) {
      forall i | 0 <= i < |files| && Rebuilt(w, files[i]) ensures Arrived(w, r, files[i]) {
        RebuiltArrives(w, r, files[i]);
      }
    }
  }
}
