/** What a whole run of writer and reader guarantees. */
module Transfer {
  import opened Common
  import opened Protocol
  import opened ExtentMap
  import opened Replay
  import opened Files
  import opened Header
  import opened Sending
  import opened Session
  import opened Writer

  /**
   * After any sequence of faithful and complete calls the reader accepts the whole stream, and
   * replaying it leaves every file with extents, and every reference file, byte for byte as the
   * writer read it.
   */
  lemma ReplayRebuildsEveryFile(w: FiesWriter, f: nat)
    requires w.Valid() && w.sound && f in w.contents
    ensures Run(w.env, w.out.log).Ok?
    ensures var files := Run(w.env, w.out.log).state.files;
            f in files && files[f].size == |w.contents[f]| && files[f].data == w.contents[f]
  {
    assert f in w.done;
  }

  /**
   * Every COPY packet of every stream, complete or cut short, quotes a range of a file announced
   * before it; the range lies inside that file and inside one extent that was sent before the
   * packet with its own bytes, unless the file is a reference file.
   */
  lemma {:induction false} CopiesQuoteEarlierExtents(log: seq<Packet>, k: nat)
    returns (announced: nat, sent: nat)
    requires CopiesOk(log) && k < |log| && log[k].Extent? && log[k].body.Source?
    ensures announced < k && log[announced].File? && log[announced].id == log[k].body.file
    ensures FileType(log[announced].mode) != M_FHARD
    ensures log[k].body.offset + log[k].length <= log[announced].size
    ensures log[announced].mode != M_FREF ==>
              && announced < sent < k && log[sent].Extent? && !log[sent].body.Source?
              && log[sent].file == log[k].body.file
              && log[sent].offset <= log[k].body.offset
              && log[k].body.offset + log[k].length <= log[sent].offset + log[sent].length
  {
    var n := |log| - 1;
    sent := 0;
    if k < n {
      announced, sent := CopiesQuoteEarlierExtents(log[..n], k);
    } else {
      var e :| Backed(log[..n], e) && QuotesFrom(log[n], e);
      var i :| 0 <= i < n && BackedFrom(log[..n], i, e);
      announced := i;
      if log[i].mode != M_FREF {
        var j :| i < j < n && Writes(log[..n][j], e);
        sent := j;
      }
    }
  }

  /** So the reader never meets a copy from a file it does not know. */
  lemma CopySourcesAreKnown(w: FiesWriter, k: nat)
    requires w.Core() && k < |w.out.log| && w.out.log[k].Extent? && w.out.log[k].body.Source?
    requires Run(w.env, w.out.log[..k]).Ok?
    ensures w.out.log[k].body.file in Run(w.env, w.out.log[..k]).state.files
  {
    var announced, sent := CopiesQuoteEarlierExtents(w.out.log, k);
    KnownFilesAreAnnounced(w.env, w.out.log[..k], w.out.log[k].body.file);
    assert w.out.log[..k][announced] == w.out.log[announced];
  }

  /**
   * A shared byte travels once. File A was sent, and since then the device of both files was not
   * closed, so that its history only grew. If an extent of file B has a physical byte that a
   * shared extent of file A has as well, then the packet for it quotes the first claimant.
   */
  lemma {:induction false} SharedByteIsSentOnce(traces: Histories, dev: nat, sent: seq<Sent>, k: nat, a: nat,
                                                contentA: seq<byte>, posA: nat, later: Histories, s: Sent, b: nat,
                                                contentB: seq<byte>, posB: nat)
    returns (j: nat)
    requires dev in traces && AllLawful(traces, dev, sent, a, contentA) && k < |sent| && IsShared(sent[k].ex.flags)
    requires sent[k].ex.logical <= posA < Min(sent[k].ex.logical + sent[k].ex.length, |contentA|)
    requires dev in later && Lawful(later, dev, s, b, contentB) && IsShared(s.ex.flags)
    requires s.ex.logical <= posB < Min(s.ex.logical + s.ex.length, |contentB|)
    requires s.ex.device == sent[k].ex.device && PhysicalOf(s.ex, posB) == PhysicalOf(sent[k].ex, posA)
    requires TraceAt(AllAfter(traces, dev, sent)[dev], s.ex.device) <= TraceAt(later[dev], s.ex.device)
    ensures j < |BodyOf(s, b, contentB, false)|
    ensures var p := BodyOf(s, b, contentB, false)[j];
            && p.Extent? && p.offset <= posB < p.offset + p.length && p.body.Source?
            && FirstClaim(TraceAt(AllAfter(traces, dev, sent)[dev], s.ex.device), PhysicalOf(s.ex, posB))
                 == Some(Origin(p.body.file, p.body.offset + (posB - p.offset)))
  {
    hide AllLawful, Lawful, FirstClaim, BodyOf;
    var x, physical := s.ex.device, PhysicalOf(s.ex, posB);
    var before, now := TraceAt(AllAfter(traces, dev, sent)[dev], x), TraceAt(later[dev], x);
    SentBytesAreClaimed(traces, dev, sent, k, a, contentA, posA);
    j := ClaimedBytesAreQuoted(later, dev, s, b, contentB, posB);
    assert now == before + now[|before|..];
    FirstClaimIsStable(before, now[|before|..], physical);
    FirstClaimIsStable(now, s.events[..j], physical);
  }

  // ----- a session of many files

  /** The caller's side of a faithful transfer; a hard link names a file that `log` announces. */
  ghost predicate Ready(w: FiesWriter, log: seq<Packet>, file: FiesFile, ref: bool)
    reads file`fileid, w`disks
  {
    if FileType(file.mode) == M_FHARD then exists size :: Announced(log, file.fileid, size)
    else AnnouncementFits(file, Target(file), ref, w.env) && w.ExtentsFit(file, ref)
  }

  /** The reader ends up with the file's content, byte for byte. */
  ghost predicate Rebuilt(w: FiesWriter, file: FiesFile)
    reads file`fileid, w`out
  {
    Run(w.env, w.out.log).Ok? &&
    var files := Run(w.env, w.out.log).state.files;
    file.fileid in files && files[file.fileid].data == file.content
  }

  /** Every tracked file has an id that was handed out. */
  lemma TrackedIdsAreBelow(w: FiesWriter, f: nat)
    requires w.Valid() && w.sound && f in w.contents
    ensures f < w.nextFileid
  {
    ReplayRebuildsEveryFile(w, f);
    KnownFilesAreAnnounced(w.env, w.out.log, f);
  }

  lemma AnnouncedStays(log: seq<Packet>, more: seq<Packet>, fid: nat, size: nat)
    requires Announced(log, fid, size) && log <= more
    ensures Announced(more, fid, size)
  {
    var i :| 0 <= i < |log| && Announces(log[i], fid, size);
    assert Announces(more[i], fid, size);
  }

  lemma ReadyStays(w: FiesWriter, log: seq<Packet>, file: FiesFile, ref: bool)
    requires log <= w.out.log && Ready(w, log, file, ref)
    ensures w.Faithful(file, ref)
  {
    if FileType(file.mode) == M_FHARD {
      var size :| Announced(log, file.fileid, size);
      AnnouncedStays(log, w.out.log, file.fileid, size);
    }
  }

  /** The file is tracked with its content. */
  ghost predicate Tracked(w: FiesWriter, file: FiesFile)
    reads file`fileid, w`contents
  {
    file.fileid in w.contents && w.contents[file.fileid] == file.content
  }

  /** The files from number `k` on are ready. */
  ghost predicate AllReady(w: FiesWriter, log: seq<Packet>, files: seq<FiesFile>, refs: seq<bool>, k: nat)
    requires |refs| == |files|
    reads files, w`disks
  {
    forall i :: k <= i < |files| ==> Ready(w, log, files[i], refs[i])
  }

  /** The regular and reference files before number `k` are tracked. */
  ghost predicate AllTracked(w: FiesWriter, files: seq<FiesFile>, k: nat)
    reads files, w`contents
  {
    forall i :: 0 <= i < k && i < |files| && FileType(files[i].mode) == M_FREG ==> Tracked(w, files[i])
  }

  /** The writer does not refuse the file, and its callbacks and all writes succeed. */
  ghost predicate Deliverable(w: FiesWriter, file: FiesFile, ref: bool)
    reads w`devices
  {
    w.Refusal(file, ref) == 0 && Writable(w.io, file, ref)
  }

  ghost predicate AllDeliverable(w: FiesWriter, files: seq<FiesFile>, refs: seq<bool>)
    requires |refs| == |files|
    reads w`devices
  {
    forall i :: 0 <= i < |files| ==> Deliverable(w, files[i], refs[i])
  }

  /** Different file handles whose ids can still be handed out. */
  ghost predicate HandlesOk(w: FiesWriter, files: seq<FiesFile>, k: nat)
    reads w`nextFileid
  {
    && k <= |files| && w.nextFileid + (|files| - k) < U32
    && (forall i :: 0 <= i < |files| ==> files[i].Ok())
    && (forall i, j :: 0 <= i < j < |files| ==> files[i] != files[j])
  }

  /** The steps of one file follow on what was written before. */
  ghost predicate Follows(w: FiesWriter, log: seq<Packet>, traces: Histories, file: FiesFile, ref: bool,
                          sent: seq<Sent>, at: nat)
    reads w`out, w`devices, w.EMaps(), file`fileid
  {
    && AllFitting(sent, file.content)
    && |log| <= at && at + |StreamOf(sent, file.fileid, file.content, ref)| <= |w.out.log|
    && w.out.log[at..at + |StreamOf(sent, file.fileid, file.content, ref)|]
       == StreamOf(sent, file.fileid, file.content, ref)
    && AllBare(w.out.log, |log|, at)
    && AllBare(w.out.log, at + |StreamOf(sent, file.fileid, file.content, ref)|, |w.out.log|)
    && if FileType(file.mode) == M_FREG then
         && file.device in traces && AllLawful(traces, file.device, sent, file.fileid, file.content)
         && w.TracesNow() == AllAfter(traces, file.device, sent)
       else sent == [] && w.TracesNow() == traces
  }

  /** The extent packets of a file in the stream of a call. */
  lemma FileFollows(w: FiesWriter, log: seq<Packet>, traces: Histories, file: FiesFile, ref: bool, metas: seq<Packet>,
                    sent: seq<Sent>, tailFailed: bool) returns (at: nat)
    requires AllFitting(sent, file.content) && w.Transferred(traces, file, sent)
    requires FileType(file.mode) != M_FHARD && !ref ==> MetasOf(metas, file.fileid, file)
    requires w.out.log == if FileType(file.mode) == M_FHARD then
                            log + [File(file.fileid, file.mode, |file.content|, file.name, [], None)]
                          else log + HeaderOf(file, file.fileid, Target(file), ref, metas)
                               + ExtentPackets(file, file.fileid, ref, sent, tailFailed) + [FileEnd(file.fileid)]
    ensures Follows(w, log, traces, file, ref, sent, at)
  {
    hide HeaderOf, StreamOf, ContentOf, AllLawful, AllAfter, AllFitting, Extents, Listing, MetasOf, AllBare;
    var header := HeaderOf(file, file.fileid, Target(file), ref, metas);
    at := |log|;
    if FileType(file.mode) == M_FREG {
      at := |log| + |header|;
      HeaderIsBare(file, ref, metas);
      ContentStands(log, header, sent, file.fileid, file.content, ref, tailFailed);
    } else {
      NothingIsSent(file.fileid, file.content, ref);
      if FileType(file.mode) != M_FHARD {
        HeaderIsBare(file, ref, metas);
        NothingStands(log, header, FileEnd(file.fileid));
      } else {
        NothingStands(log, [], File(file.fileid, file.mode, |file.content|, file.name, [], None));
      }
    }
  }

  /** The extent packets of a regular file stand behind its announcement. */
  lemma {:induction false} ContentStands(log: seq<Packet>, header: seq<Packet>, sent: seq<Sent>, fid: nat,
                                         content: seq<byte>, ref: bool, tailFailed: bool)
    requires AllFitting(sent, content) && forall p :: p in header ==> IsBare(p)
    ensures var all := log + header + ContentOf(sent, fid, content, ref, tailFailed) + [FileEnd(fid)];
            var at, stream := |log| + |header|, StreamOf(sent, fid, content, ref);
            && at + |stream| <= |all| && all[at..at + |stream|] == stream
            && AllBare(all, |log|, at) && AllBare(all, at + |stream|, |all|)
  {
    hide StreamOf, GapOf, AllFitting, EndOf, IsBare, AllBare;
    var gap := if tailFailed then [] else GapOf(fid, EndOf(sent, |content|), |content|, ref);
    TailIsBare(fid, EndOf(sent, |content|), |content|, ref);
    BareAround(log, header, StreamOf(sent, fid, content, ref), gap, FileEnd(fid));
  }

  lemma {:induction false} NothingStands(log: seq<Packet>, header: seq<Packet>, end: Packet)
    requires (forall p :: p in header ==> IsBare(p)) && !end.Extent?
    ensures var all := log + header + [] + [end];
            AllBare(all, |log|, |log|) && AllBare(all, |log|, |all|)
    ensures log + [] + [] + [end] == log + [end]
  {
    BareAround(log, header, [], [], end);
    assert log + header + [] + [end] == log + header + ([] + []) + [end];
  }

  lemma HeaderIsBare(file: FiesFile, ref: bool, metas: seq<Packet>)
    requires !ref ==> MetasOf(metas, file.fileid, file)
    ensures forall p :: p in HeaderOf(file, file.fileid, Target(file), ref, metas) ==> IsBare(p)
  {
  }

  lemma TailIsBare(fid: nat, from: nat, to: nat, ref: bool)
    ensures forall p :: p in GapOf(fid, from, to, ref) ==> IsBare(p)
  {
  }

  /** A part of a log between packets of other kinds. */
  lemma {:induction false} BareAround(log: seq<Packet>, header: seq<Packet>, stream: seq<Packet>, gap: seq<Packet>,
                                      end: Packet)
    requires (forall p :: p in header + gap ==> IsBare(p)) && !end.Extent?
    ensures var all, at := log + header + (stream + gap) + [end], |log| + |header|;
            && all[at..at + |stream|] == stream
            && AllBare(all, |log|, at) && AllBare(all, at + |stream|, |all|)
  {
    var all, at := log + header + (stream + gap) + [end], |log| + |header|;
    forall k | |log| <= k < at ensures IsBare(all[k]) {
      assert all[k] == header[k - |log|] == (header + gap)[k - |log|];
    }
    forall k | at + |stream| <= k < |all| ensures IsBare(all[k]) {
      var i := k - at - |stream|;
      assert all[k] == if i < |gap| then gap[i] else end;
      assert i < |gap| ==> gap[i] == (header + gap)[|header| + i];
    }
  }

  lemma {:induction false} NothingIsSent(fid: nat, content: seq<byte>, ref: bool)
    ensures AllFitting([], content) && StreamOf([], fid, content, ref) == []
  {
  }

  /** Writes file number `k`, and keeps what holds for the others. */
  method WriteNext(w: FiesWriter, files: seq<FiesFile>, refs: seq<bool>, k: nat, ghost log: seq<Packet>)
    returns (rc: int, ghost sent: seq<Sent>, ghost at: nat)
    requires w.Valid() && k < |files| == |refs| && HandlesOk(w, files, k) && log <= w.out.log
    modifies w`out, w`nextFileid, w`contents, w`done, w`sound, files[k], w.EMaps()
    ensures w.Valid() && HandlesOk(w, files, k + 1)
    ensures rc >= 0 ==> log <= w.out.log
    ensures rc >= 0 && old(w.sound) && Works(w.io) && old(AllReady(w, log, files, refs, k))
            && old(AllTracked(w, files, k)) ==>
              w.sound && AllReady(w, log, files, refs, k + 1) && AllTracked(w, files, k + 1)
    ensures old(AllDeliverable(w, files, refs)) ==> rc >= 0
    ensures rc >= 0 ==>
              old(w.out.log) <= w.out.log && Follows(w, old(w.out.log), old(w.TracesNow()), files[k], refs[k], sent, at)
    ensures Grew(old(w.TracesNow()), w.TracesNow())
  {
    hide FiesWriter.Valid, FiesWriter.Faithful, FiesWriter.Refusal, FiesWriter.Transferred, FiesFile.Ok, Ready,
         FiesWriter.AllThere, TellsAll, Follows, Grew, TilesFile, HeaderOf, MetasOf, MetasUpTo, ExtentPackets,
         AllFitting, Writable, Works, EndOf, FileType;
    var file := files[k];
    if w.sound && AllReady(w, log, files, refs, k) && AllTracked(w, files, k) {
      ReadyStays(w, log, file, refs[k]);
      forall i | 0 <= i < k && FileType(files[i].mode) == M_FREG ensures files[i].fileid < w.nextFileid {
        TrackedIdsAreBelow(w, files[i].fileid);
      }
    }
    ghost var before, traces := w.out.log, w.TracesNow();
    ghost var metas, tailFailed;
    at := 0;
    rc, metas, sent, tailFailed := w.WriteFileDo(file, refs[k]);
    if rc >= 0 {
      at := FileFollows(w, before, traces, file, refs[k], metas, sent, tailFailed);
    }
  }

  /**
   * Writes files and reads reference files one after the other. If all calls succeed, no write
   * fails and every file was ready, then replaying the stream rebuilds every regular and every
   * reference file; and all calls do succeed if nothing about the files is refused or fails. The
   * extents that were sent stand in the stream one after the other, with only holes and other
   * kinds of packets in between; the reports about them make up the histories of the extent maps,
   * and no shared byte is brought by two packets.
   */
  method WriteAll(w: FiesWriter, files: seq<FiesFile>, refs: seq<bool>)
    returns (rc: int, ghost steps: seq<Step>, ghost starts: seq<nat>)
    requires w.Valid() && |refs| == |files| && HandlesOk(w, files, 0)
    modifies w`out, w`nextFileid, w`contents, w`done, w`sound, files, w.EMaps()
    ensures w.Valid()
    ensures rc >= 0 && old(w.sound) && Works(w.io) && old(AllReady(w, w.out.log, files, refs, 0)) ==>
              w.sound && forall i :: 0 <= i < |files| && FileType(files[i].mode) == M_FREG ==> Rebuilt(w, files[i])
    ensures old(AllDeliverable(w, files, refs)) ==> rc >= 0
    ensures StepsLawful(old(w.TracesNow()), steps) && Grew(HistoryOf(old(w.TracesNow()), steps), w.TracesNow())
    ensures rc >= 0 ==> w.TracesNow() == HistoryOf(old(w.TracesNow()), steps)
    ensures rc >= 0 ==>
              && TravelOnce(w.out.log, steps, starts)
              && Accounted(w.out.log, |old(w.out.log)|, |w.out.log|, steps, starts)
  {
    hide FiesWriter.Valid, AllReady, AllTracked, AllDeliverable, HandlesOk, Works, Rebuilt, StepsLawful, HistoryOf,
         Placed, Accounted, TravelOnce, Follows, Grew;
    ghost var log, traces := w.out.log, w.TracesNow();
    steps, starts := [], [];
    NoSteps(traces, log);
    ghost var fine := w.sound && Works(w.io) && AllReady(w, log, files, refs, 0);
    ghost var able := AllDeliverable(w, files, refs);
    NothingTracked(w, files);
    rc := 0;
    var k := 0;
    while k != |files|
      invariant k <= |files| && w.Valid() && HandlesOk(w, files, k) && log <= w.out.log && rc >= 0
      invariant fine ==> w.sound && AllReady(w, log, files, refs, k) && AllTracked(w, files, k)
      invariant able ==> AllDeliverable(w, files, refs)
      invariant StepsLawful(traces, steps) && w.TracesNow() == HistoryOf(traces, steps)
                && Placed(w.out.log, steps, starts) && Accounted(w.out.log, |log|, |w.out.log|, steps, starts)
      decreases |files| - k
    {
      ghost var before := w.out.log;
      ghost var sent, at;
      rc, sent, at := WriteNext(w, files, refs, k, log);
      if rc < 0 {
        return;
      }
      steps, starts := MoreSteps(w, |log|, before, traces, steps, starts, files[k], refs[k], sent, at);
      k := k + 1;
    }
    GrewItself(w.TracesNow());
    AllTravelOnce(w.out.log, traces, steps, starts);
    if fine {
      AllRebuilt(w, files);
    }
  }

  lemma {:induction false} NoSteps(traces: Histories, log: seq<Packet>)
    ensures StepsLawful(traces, []) && HistoryOf(traces, []) == traces && Placed(log, [], [])
    ensures Accounted(log, |log|, |log|, [], [])
  {
  }

  /** The steps of one more file. */
  lemma {:induction false} MoreSteps(w: FiesWriter, base: nat, log: seq<Packet>, traces: Histories, steps: seq<Step>,
                                     starts: seq<nat>, file: FiesFile, ref: bool, sent: seq<Sent>, at: nat)
    returns (steps': seq<Step>, starts': seq<nat>)
    requires log <= w.out.log && Follows(w, log, HistoryOf(traces, steps), file, ref, sent, at)
    requires StepsLawful(traces, steps) && Placed(log, steps, starts)
    requires base <= |log| && Accounted(log, base, |log|, steps, starts)
    ensures StepsLawful(traces, steps') && w.TracesNow() == HistoryOf(traces, steps')
    ensures Placed(w.out.log, steps', starts') && Accounted(w.out.log, base, |w.out.log|, steps', starts')
  {
    hide StepsLawful, HistoryOf, AllLawful, AllAfter, StreamOf, AllFitting, Placed, Accounted, AllBare;
    steps', starts' := steps, starts;
    PlacedEnds(log, steps, starts);
    PlacedStays(log, w.out.log, steps, starts);
    AccountedStays(log, w.out.log, base, steps, starts);
    NothingIsSent(file.fileid, file.content, ref);
    AccountedMore(w.out.log, base, |log|, at, steps, starts);
    if FileType(file.mode) == M_FREG {
      HistoryOfFile(traces, steps, file.device, file.fileid, file.content, ref, sent);
      starts' := PlaceFile(w.out.log, steps, starts, at, file.device, file.fileid, file.content, ref, sent,
                           base);
      steps' := steps + StepsOf(file.device, file.fileid, file.content, ref, sent);
    }
    AccountedMore(w.out.log, base, at + |StreamOf(sent, file.fileid, file.content, ref)|, |w.out.log|, steps',
                  starts');
  }

  lemma PlacedEnds(log: seq<Packet>, steps: seq<Step>, starts: seq<nat>)
    requires Placed(log, steps, starts)
    ensures forall i :: 0 <= i < |steps| ==> starts[i] + |PacketsOf(steps[i])| <= |log|
  {
    hide PacketsOf, Fitting;
    forall i | 0 <= i < |steps| ensures starts[i] + |PacketsOf(steps[i])| <= |log| {
      assert StandsAt(log, steps[i], starts[i]);
    }
  }

  lemma {:induction false} NothingTracked(w: FiesWriter, files: seq<FiesFile>)
    ensures AllTracked(w, files, 0)
  {
  }

  lemma {:induction false} AllRebuilt(w: FiesWriter, files: seq<FiesFile>)
    requires w.Valid() && w.sound && AllTracked(w, files, |files|)
    ensures forall i :: 0 <= i < |files| && FileType(files[i].mode) == M_FREG ==> Rebuilt(w, files[i])
  {
    hide FiesWriter.Valid, Rebuilt, Tracked;
    forall i | 0 <= i < |files| && FileType(files[i].mode) == M_FREG ensures Rebuilt(w, files[i]) {
      IsRebuilt(w, files[i]);
    }
  }

  lemma IsRebuilt(w: FiesWriter, file: FiesFile)
    requires w.Valid() && w.sound && Tracked(w, file)
    ensures Rebuilt(w, file)
  {
    ReplayRebuildsEveryFile(w, file.fileid);
  }
}
