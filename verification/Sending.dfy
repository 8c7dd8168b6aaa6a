/** What sending the extents of one file adds to the stream and to the extent maps (lib/fies_writer.c). */
module Sending {
  import opened Common
  import opened Protocol
  import opened ExtentMap
  import opened Replay
  import opened Files

  /** The histories of the extent maps: device id, physical device, accepted reports. */
  type Histories = map<nat, map<nat, seq<Event>>>

  ghost function TraceAt(traces: map<nat, seq<Event>>, x: nat): seq<Event> {
    if x in traces then traces[x] else []
  }

  /** The histories after `events` were accepted about physical device `x` of device `dev`. */
  ghost function Extended(traces: Histories, dev: nat, x: nat, events: seq<Event>): Histories
    requires dev in traces
  {
    var one: map<nat, seq<Event>> := traces[dev][x := TraceAt(traces[dev], x) + events];
    traces[dev := one]
  }

  function HolePacket(fid: nat, pos: nat, length: nat): Packet {
    Extent(fid, FL_HOLE, pos, length, NoBody)
  }

  /** An extent that was sent, before it is cut at the end of the file, and what the extent map reported about it. */
  datatype Sent = Sent(ex: FileExtent, events: seq<Event>)

  predicate Fitting(s: Sent, content: seq<byte>) {
    s.ex.logical <= |content| && InFile(s.events, content)
  }

  predicate AllFitting(sent: seq<Sent>, content: seq<byte>) {
    forall i :: 0 <= i < |sent| ==> Fitting(sent[i], content)
  }

  function EndOf(sent: seq<Sent>, filesize: nat): nat {
    if sent == [] then 0 else Min(sent[|sent| - 1].ex.logical + sent[|sent| - 1].ex.length, filesize)
  }

  /** A shared extent is sent piece by piece as the map reports it, any other extent as a whole. */
  function BodyOf(s: Sent, fid: nat, content: seq<byte>, ref: bool): seq<Packet>
    requires Fitting(s, content)
  {
    if ref then []
    else if IsShared(s.ex.flags) then Packets(s.events, fid, s.ex.flags, content)
    else
      var e := Clamp(s.ex, |content|);
      [NewPacket(fid, e.flags, content, e.logical, e.length)]
  }

  function GapOf(fid: nat, from: nat, to: nat, ref: bool): seq<Packet> {
    if ref || to <= from then [] else [HolePacket(fid, from, to - from)]
  }

  /** A gap is one HOLE, of type 4, over all of it. */
  lemma GapIsAHole(fid: nat, from: nat, to: nat)
    ensures GapOf(fid, from, to, false) == if from < to then [Extent(fid, 0x4, from, to - from, NoBody)] else []
  {
  }

  /** The packets for a list of extents, with holes in between. */
  function StreamOf(sent: seq<Sent>, fid: nat, content: seq<byte>, ref: bool): seq<Packet>
    requires AllFitting(sent, content)
  {
    if sent == [] then []
    else
      var k := |sent| - 1;
      StreamOf(sent[..k], fid, content, ref)
      + GapOf(fid, EndOf(sent[..k], |content|), sent[k].ex.logical, ref)
      + BodyOf(sent[k], fid, content, ref)
  }

  /** The extents that were sent. */
  function Extents(sent: seq<Sent>): seq<FileExtent> {
    seq(|sent|, i requires 0 <= i < |sent| => sent[i].ex)
  }

  /** Only shared extents are entered into the map. */
  ghost function After(traces: Histories, dev: nat, s: Sent): (r: Histories)
    requires dev in traces
    ensures dev in r
  {
    if IsShared(s.ex.flags) then Extended(traces, dev, s.ex.device, s.events) else traces
  }

  ghost function AllAfter(traces: Histories, dev: nat, sent: seq<Sent>): (r: Histories)
    requires dev in traces
    ensures dev in r
  {
    if sent == [] then traces else After(AllAfter(traces, dev, sent[..|sent| - 1]), dev, sent[|sent| - 1])
  }

  /** The same devices, and every history goes on where it was. */
  ghost predicate Grew(before: Histories, after: Histories) {
    && before.Keys == after.Keys
    && forall dev, x {:trigger TraceAt(after[dev], x)} :: dev in before && dev in after ==>
         TraceAt(before[dev], x) <= TraceAt(after[dev], x)
  }

  lemma GrewOn(a: Histories, b: Histories, c: Histories)
    requires Grew(a, b) && Grew(b, c)
    ensures Grew(a, c)
  {
    forall dev, x | dev in a && dev in c ensures TraceAt(a[dev], x) <= TraceAt(c[dev], x) {
      assert TraceAt(a[dev], x) <= TraceAt(b[dev], x);
    }
  }

  lemma GrewItself(a: Histories)
    ensures Grew(a, a)
  {
  }

  lemma ExtendedGrew(traces: Histories, dev: nat, x: nat, events: seq<Event>)
    requires dev in traces
    ensures Grew(traces, Extended(traces, dev, x, events))
  {
  }

  /** The reports about an extent tile it and obey the law of the map's history. */
  ghost predicate Lawful(traces: Histories, dev: nat, s: Sent, fid: nat, content: seq<byte>)
    requires dev in traces
  {
    && Fitting(s, content) && 0 < s.ex.length && s.ex.logical < |content|
    && if IsShared(s.ex.flags) then
         && Tiles(s.events, AsInput(Clamp(s.ex, |content|), fid), Clamp(s.ex, |content|).length)
         && TraceOk(TraceAt(traces[dev], s.ex.device) + s.events)
       else s.events == []
  }

  ghost predicate AllLawful(traces: Histories, dev: nat, sent: seq<Sent>, fid: nat, content: seq<byte>)
    requires dev in traces
  {
    forall k :: 0 <= k < |sent| ==>
      && Lawful(AllAfter(traces, dev, sent[..k]), dev, sent[k], fid, content)
      && EndOf(sent[..k], |content|) <= sent[k].ex.logical
  }

  lemma {:induction false} NothingSent(traces: Histories, dev: nat, fid: nat, content: seq<byte>, ref: bool)
    requires dev in traces
    ensures AllLawful(traces, dev, [], fid, content) && AllFitting([], content) && EndOf([], |content|) == 0
    ensures AllAfter(traces, dev, []) == traces && StreamOf([], fid, content, ref) == []
  {
  }

  /** One more extent. */
  lemma {:induction false} SentStep(traces: Histories, dev: nat, sent: seq<Sent>, s: Sent, fid: nat, content: seq<byte>,
                                    ref: bool)
    requires dev in traces && AllLawful(traces, dev, sent, fid, content) && AllFitting(sent, content)
    requires Lawful(AllAfter(traces, dev, sent), dev, s, fid, content) && EndOf(sent, |content|) <= s.ex.logical
    ensures AllLawful(traces, dev, sent + [s], fid, content) && AllFitting(sent + [s], content)
    ensures AllAfter(traces, dev, sent + [s]) == After(AllAfter(traces, dev, sent), dev, s)
    ensures StreamOf(sent + [s], fid, content, ref)
         == StreamOf(sent, fid, content, ref) + GapOf(fid, EndOf(sent, |content|), s.ex.logical, ref)
             + BodyOf(s, fid, content, ref)
    ensures EndOf(sent + [s], |content|) == Min(s.ex.logical + s.ex.length, |content|)
    ensures Extents(sent + [s]) == Extents(sent) + [s.ex]
  {
    hide Lawful, After, InFile, BodyOf, GapOf, AllLawful, Clamp;
    LawfulFits(AllAfter(traces, dev, sent), dev, s, fid, content);
    LawfulStep(traces, dev, sent, s, fid, content);
    assert (sent + [s])[..|sent|] == sent;
  }

  lemma {:induction false} LawfulFits(traces: Histories, dev: nat, s: Sent, fid: nat, content: seq<byte>)
    requires dev in traces && Lawful(traces, dev, s, fid, content)
    ensures Fitting(s, content)
  {
  }

  lemma {:induction false} LawfulStep(traces: Histories, dev: nat, sent: seq<Sent>, s: Sent, fid: nat,
                                      content: seq<byte>)
    requires dev in traces && AllLawful(traces, dev, sent, fid, content)
    requires Lawful(AllAfter(traces, dev, sent), dev, s, fid, content) && EndOf(sent, |content|) <= s.ex.logical
    ensures AllLawful(traces, dev, sent + [s], fid, content)
  {
    hide Lawful, AllAfter;
    var all := sent + [s];
    assert all[..|sent|] == sent;
    forall k | 0 <= k < |all|
      ensures Lawful(AllAfter(traces, dev, all[..k]), dev, all[k], fid, content)
              && EndOf(all[..k], |content|) <= all[k].ex.logical
    {
      assert all[..k] == sent[..k];
    }
  }

  /** The packets for the extents of a file tile it from the start to the end of the last extent. */
  lemma {:induction false} StreamTiles(traces: Histories, dev: nat, sent: seq<Sent>, fid: nat, content: seq<byte>)
    requires dev in traces && AllLawful(traces, dev, sent, fid, content) && AllFitting(sent, content)
    ensures TilesFile(StreamOf(sent, fid, content, false), fid, 0, EndOf(sent, |content|))
  {
    hide TilesFile, Lawful, BodyOf, GapOf;
    if sent == [] {
      NothingTiles(fid, 0);
    } else {
      var k := |sent| - 1;
      var front, s := sent[..k], sent[k];
      PrefixIsLawful(traces, dev, sent, k, fid, content);
      StreamTiles(traces, dev, front, fid, content);
      var before := StreamOf(front, fid, content, false);
      var from := EndOf(front, |content|);
      var gap, body := GapOf(fid, from, s.ex.logical, false), BodyOf(s, fid, content, false);
      GapTiles(fid, from, s.ex.logical);
      BodyTiles(AllAfter(traces, dev, front), dev, s, fid, content);
      TilesFileJoin(before, gap, fid, 0, from, s.ex.logical);
      TilesFileJoin(before + gap, body, fid, 0, s.ex.logical, EndOf(sent, |content|));
    }
  }

  lemma NothingTiles(fid: nat, at: nat)
    ensures TilesFile([], fid, at, at)
  {
  }

  lemma GapTiles(fid: nat, from: nat, to: nat)
    requires from <= to
    ensures TilesFile(GapOf(fid, from, to, false), fid, from, to)
  {
  }

  lemma {:induction false} PrefixIsLawful(traces: Histories, dev: nat, sent: seq<Sent>, n: nat, fid: nat,
                                          content: seq<byte>)
    requires dev in traces && AllLawful(traces, dev, sent, fid, content) && n <= |sent|
    ensures AllLawful(traces, dev, sent[..n], fid, content)
  {
    hide Lawful;
    forall k | 0 <= k < n
      ensures Lawful(AllAfter(traces, dev, sent[..n][..k]), dev, sent[k], fid, content)
      ensures EndOf(sent[..n][..k], |content|) <= sent[k].ex.logical
    {
      assert sent[..n][..k] == sent[..k];
    }
  }

  lemma {:induction false} BodyTiles(traces: Histories, dev: nat, s: Sent, fid: nat, content: seq<byte>)
    requires dev in traces && Lawful(traces, dev, s, fid, content)
    ensures TilesFile(BodyOf(s, fid, content, false), fid, s.ex.logical, Min(s.ex.logical + s.ex.length, |content|))
  {
    hide Tiles, TraceOk, Packets, InFile;
    var e := Clamp(s.ex, |content|);
    if IsShared(e.flags) {
      hide TilesFile;
      PacketsTile(s.events, AsInput(e, fid), e.length, e.flags, content);
    }
  }

  /** All packets for the content of a file: its extents, and a hole for the rest unless that was not written. */
  function ContentOf(sent: seq<Sent>, fid: nat, content: seq<byte>, ref: bool, tailFailed: bool): seq<Packet>
    requires AllFitting(sent, content)
  {
    StreamOf(sent, fid, content, ref) + if tailFailed then [] else GapOf(fid, EndOf(sent, |content|), |content|, ref)
  }

  /** They tile the whole file, or what lies in front of the hole that was not written. */
  lemma {:induction false} ContentTiles(traces: Histories, dev: nat, sent: seq<Sent>, fid: nat, content: seq<byte>,
                                        tailFailed: bool)
    requires dev in traces && AllLawful(traces, dev, sent, fid, content) && AllFitting(sent, content)
    ensures TilesFile(ContentOf(sent, fid, content, false, tailFailed), fid, 0,
                      if tailFailed then EndOf(sent, |content|) else |content|)
  {
    hide TilesFile, AllLawful, StreamOf, GapOf;
    var n := EndOf(sent, |content|);
    StreamTiles(traces, dev, sent, fid, content);
    GapTiles(fid, n, |content|);
    NothingTiles(fid, n);
    TilesFileJoin(StreamOf(sent, fid, content, false),
                  if tailFailed then [] else GapOf(fid, n, |content|, false), fid, 0, n,
                  if tailFailed then n else |content|);
  }

  lemma {:induction false} NothingFits(content: seq<byte>)
    ensures AllFitting([], content)
  {
  }

  // ----- shared bytes travel once

  /** The physical byte of an extent that holds position `pos` of its file. */
  function PhysicalOf(e: FileExtent, pos: nat): nat
    requires e.logical <= pos
  {
    e.physical + (pos - e.logical)
  }

  /**
   * The packet for a position of a shared extent is a COPY if and only if somebody claimed its
   * physical byte before, and it then quotes exactly the first claimant.
   */
  lemma {:induction false} ClaimedBytesAreQuoted(traces: Histories, dev: nat, s: Sent, fid: nat, content: seq<byte>,
                                                 pos: nat)
    returns (j: nat)
    requires dev in traces && Lawful(traces, dev, s, fid, content) && IsShared(s.ex.flags)
    requires s.ex.logical <= pos < Min(s.ex.logical + s.ex.length, |content|)
    ensures j < |s.events| == |BodyOf(s, fid, content, false)|
    ensures var p := BodyOf(s, fid, content, false)[j];
            var claim := FirstClaim(TraceAt(traces[dev], s.ex.device) + s.events[..j], PhysicalOf(s.ex, pos));
            && p.Extent? && p.file == fid && p.offset <= pos < p.offset + p.length
            && (p.body.Source? <==> claim.Some?)
            && (p.body.Source? ==> claim == Some(Origin(p.body.file, p.body.offset + (pos - p.offset))))
  {
    hide Packets, TraceOk, FirstClaim, PieceOf, Tiles;
    var e, b := Clamp(s.ex, |content|), PhysicalOf(s.ex, pos);
    var before := TraceAt(traces[dev], s.ex.device);
    j := TiledBytesAreReported(s.events, AsInput(e, fid), e.length, b);
    PacketAt(s.events, fid, s.ex.flags, content, j);
    ReportsFollowFirstClaims(before + s.events, |before| + j, b);
    assert (before + s.events)[..|before| + j] == before + s.events[..j];
  }

  lemma {:induction false} HistoryGrows(traces: Histories, dev: nat, sent: seq<Sent>, x: nat) returns (more: seq<Event>)
    requires dev in traces
    ensures TraceAt(AllAfter(traces, dev, sent)[dev], x) == TraceAt(traces[dev], x) + more
  {
    if sent == [] {
      more := [];
    } else {
      var k := |sent| - 1;
      more := HistoryGrows(traces, dev, sent[..k], x);
      if IsShared(sent[k].ex.flags) && sent[k].ex.device == x {
        assert TraceAt(traces[dev], x) + more + sent[k].events == TraceAt(traces[dev], x) + (more + sent[k].events);
        more := more + sent[k].events;
      }
    }
  }

  /** After the extents of a file were sent, every byte of its shared extents is claimed. */
  lemma {:induction false} SentBytesAreClaimed(traces: Histories, dev: nat, sent: seq<Sent>, k: nat, fid: nat,
                                               content: seq<byte>, pos: nat)
    requires dev in traces && AllLawful(traces, dev, sent, fid, content) && k < |sent| && IsShared(sent[k].ex.flags)
    requires sent[k].ex.logical <= pos < Min(sent[k].ex.logical + sent[k].ex.length, |content|)
    ensures FirstClaim(TraceAt(AllAfter(traces, dev, sent)[dev], sent[k].ex.device), PhysicalOf(sent[k].ex, pos)).Some?
  {
    hide FirstClaim, Lawful, AllLawful;
    var x, b, n := sent[k].ex.device, PhysicalOf(sent[k].ex, pos), |sent| - 1;
    LastIsLawful(traces, dev, sent, fid, content);
    if k < n {
      PrefixIsLawful(traces, dev, sent, n, fid, content);
      SentBytesAreClaimed(traces, dev, sent[..n], k, fid, content, pos);
      var before := TraceAt(AllAfter(traces, dev, sent[..n])[dev], x);
      FirstClaimIsStable(before, sent[n].events, b);
    } else {
      assert sent[..k] == sent[..n];
      var traces' := AllAfter(traces, dev, sent[..n]);
      LastBytesAreClaimed(traces', dev, sent[n], fid, content, pos);
    }
  }

  lemma {:induction false} LastIsLawful(traces: Histories, dev: nat, sent: seq<Sent>, fid: nat, content: seq<byte>)
    requires dev in traces && AllLawful(traces, dev, sent, fid, content) && sent != []
    ensures Lawful(AllAfter(traces, dev, sent[..|sent| - 1]), dev, sent[|sent| - 1], fid, content)
  {
  }

  lemma {:induction false} LastBytesAreClaimed(traces: Histories, dev: nat, s: Sent, fid: nat, content: seq<byte>,
                                               pos: nat)
    requires dev in traces && Lawful(traces, dev, s, fid, content) && IsShared(s.ex.flags)
    requires s.ex.logical <= pos < Min(s.ex.logical + s.ex.length, |content|)
    ensures FirstClaim(TraceAt(traces[dev], s.ex.device) + s.events, PhysicalOf(s.ex, pos)).Some?
  {
    hide FirstClaim, TraceOk, Tiles, PieceOf;
    var before, e, b := TraceAt(traces[dev], s.ex.device), Clamp(s.ex, |content|), PhysicalOf(s.ex, pos);
    var j := TiledBytesAreReported(s.events, AsInput(e, fid), e.length, b);
    ReportedBytesAreClaimed(before + s.events, |before| + j, b);
  }

  // ----- what the stream of a file has for every listed position

  /** `flags & FIES_FL_SHARED`, bit for bit. */
  predicate HasSharedBit(flags: nat) {
    flags < U32 && flags as bv32 & 0x100 != 0
  }

  predicate Inside(ex: FileExtent, filesize: nat, pos: nat) {
    ex.logical <= pos < Min(ex.logical + ex.length, filesize)
  }

  /** Every byte of the listed extents with that bit is claimed. */
  ghost predicate AllClaimed(after: Histories, dev: nat, es: seq<FileExtent>, filesize: nat) {
    forall i, pos {:trigger PhysicalOf(es[i], pos)} ::
      0 <= i < |es| && HasSharedBit(es[i].flags) && Inside(es[i], filesize, pos) ==>
        dev in after && FirstClaim(TraceAt(after[dev], es[i].device), PhysicalOf(es[i], pos)).Some?
  }

  /** The packet has position `pos` of a file. */
  predicate Covering(p: Packet, fid: nat, pos: nat) {
    p.Extent? && p.file == fid && p.offset <= pos < p.offset + p.length
  }

  /** A COPY packet quotes `origin` for position `pos`. */
  predicate Quotes(p: Packet, fid: nat, pos: nat, origin: Origin) {
    && Covering(p, fid, pos) && p.flags == 0x8 && p.body.Source?
    && origin == Origin(p.body.file, p.body.offset + (pos - p.offset))
  }

  /** A packet that is no COPY is of the type of its extent, and carries the content if that is DATA. */
  predicate Keeps(p: Packet, fid: nat, pos: nat, flags: nat, content: seq<byte>) {
    && Covering(p, fid, pos) && pos < |content|
    && (!p.body.Source? ==>
          && p.flags == flags % 0x100
          && if p.flags == 0x1 then
               p.body.Payload? && |p.body.data| == p.length && p.body.data[pos - p.offset] == content[pos]
             else p.body.NoBody?)
  }

  /** The packets have every position of the listed extents; what was claimed before is quoted from its claimant. */
  ghost predicate AllBrought(before: Histories, dev: nat, es: seq<FileExtent>, fid: nat, content: seq<byte>,
                             pkts: seq<Packet>)
  {
    forall i, pos {:trigger PhysicalOf(es[i], pos)} ::
      0 <= i < |es| && Inside(es[i], |content|, pos) ==> Brought(before, dev, es[i], fid, content, pos, pkts)
  }

  ghost predicate Brought(before: Histories, dev: nat, ex: FileExtent, fid: nat, content: seq<byte>, pos: nat,
                          pkts: seq<Packet>)
    requires ex.logical <= pos
  {
    && dev in before && (exists p :: p in pkts && Keeps(p, fid, pos, ex.flags, content))
    && var claim := FirstClaim(TraceAt(before[dev], ex.device), PhysicalOf(ex, pos));
       HasSharedBit(ex.flags) && claim.Some? ==> exists p :: p in pkts && Quotes(p, fid, pos, claim.value)
  }

  lemma {:induction false} ListedBytesAreClaimed(traces: Histories, dev: nat, sent: seq<Sent>, fid: nat,
                                                 content: seq<byte>)
    requires dev in traces && AllLawful(traces, dev, sent, fid, content)
    ensures AllClaimed(AllAfter(traces, dev, sent), dev, Extents(sent), |content|)
  {
    hide AllLawful, AllAfter, FirstClaim;
    var after := AllAfter(traces, dev, sent);
    forall i, pos | 0 <= i < |sent| && HasSharedBit(sent[i].ex.flags) && Inside(sent[i].ex, |content|, pos)
      ensures FirstClaim(TraceAt(after[dev], sent[i].ex.device), PhysicalOf(sent[i].ex, pos)).Some?
    {
      SharedIsABit(sent[i].ex.flags);
      SentBytesAreClaimed(traces, dev, sent, i, fid, content, pos);
    }
  }

  /** One position of one extent. */
  lemma {:induction false} PositionIsBrought(traces: Histories, dev: nat, s: Sent, fid: nat, content: seq<byte>,
                                             pos: nat)
    returns (p: Packet)
    requires dev in traces && Lawful(traces, dev, s, fid, content)
    requires s.ex.logical <= pos < Min(s.ex.logical + s.ex.length, |content|)
    ensures p in BodyOf(s, fid, content, false) && Keeps(p, fid, pos, s.ex.flags, content)
    ensures var claim := FirstClaim(TraceAt(traces[dev], s.ex.device), PhysicalOf(s.ex, pos));
            HasSharedBit(s.ex.flags) && claim.Some? ==> Quotes(p, fid, pos, claim.value)
  {
    hide Lawful, FirstClaim, BodyOf, Keeps, Quotes, PhysicalOf, IsShared;
    LawfulFits(traces, dev, s, fid, content);
    if HasSharedBit(s.ex.flags) {
      SharedIsABit(s.ex.flags);
    }
    if IsShared(s.ex.flags) {
      p := SharedIsBrought(traces, dev, s, fid, content, pos);
    } else {
      p := DirectIsBrought(s, fid, content, pos);
    }
  }

  lemma DirectIsBrought(s: Sent, fid: nat, content: seq<byte>, pos: nat) returns (p: Packet)
    requires Fitting(s, content) && !IsShared(s.ex.flags)
    requires s.ex.logical <= pos < Min(s.ex.logical + s.ex.length, |content|)
    ensures p in BodyOf(s, fid, content, false) && Keeps(p, fid, pos, s.ex.flags, content)
  {
    p := BodyOf(s, fid, content, false)[0];
  }

  lemma {:induction false} SharedIsBrought(traces: Histories, dev: nat, s: Sent, fid: nat, content: seq<byte>, pos: nat)
    returns (p: Packet)
    requires dev in traces && Lawful(traces, dev, s, fid, content) && Fitting(s, content) && IsShared(s.ex.flags)
    requires s.ex.logical <= pos < Min(s.ex.logical + s.ex.length, |content|)
    ensures p in BodyOf(s, fid, content, false) && Keeps(p, fid, pos, s.ex.flags, content)
    ensures var claim := FirstClaim(TraceAt(traces[dev], s.ex.device), PhysicalOf(s.ex, pos));
            claim.Some? ==> Quotes(p, fid, pos, claim.value)
  {
    hide Lawful, FirstClaim, Packets, PhysicalOf;
    var j := ClaimedBytesAreQuoted(traces, dev, s, fid, content, pos);
    p := BodyOf(s, fid, content, false)[j];
    PacketAt(s.events, fid, s.ex.flags, content, j);
    PacketKeeps(s.events[j], fid, s.ex.flags, content, pos);
    if FirstClaim(TraceAt(traces[dev], s.ex.device), PhysicalOf(s.ex, pos)).Some? {
      FirstClaimIsStable(TraceAt(traces[dev], s.ex.device), s.events[..j], PhysicalOf(s.ex, pos));
    }
  }

  lemma PacketKeeps(ev: Event, fid: nat, flags: nat, content: seq<byte>, pos: nat)
    requires ev.report.pos + ev.report.len <= |content|
    ensures var p := PacketOf(ev, fid, flags, content);
            && (Covering(p, fid, pos) ==> Keeps(p, fid, pos, flags, content))
            && (p.body.Source? ==> p.flags == 0x8)
  {
  }

  lemma {:induction false} BodyInStream(sent: seq<Sent>, k: nat, p: Packet, fid: nat, content: seq<byte>, ref: bool)
    requires AllFitting(sent, content) && k < |sent| && p in BodyOf(sent[k], fid, content, ref)
    ensures p in StreamOf(sent, fid, content, ref)
  {
    hide Fitting, BodyOf, GapOf;
    if k < |sent| - 1 {
      BodyInStream(sent[..|sent| - 1], k, p, fid, content, ref);
    }
  }

  lemma {:induction false} ListedBytesAreBrought(traces: Histories, dev: nat, sent: seq<Sent>, fid: nat,
                                                 content: seq<byte>, pkts: seq<Packet>)
    requires dev in traces && AllLawful(traces, dev, sent, fid, content) && AllFitting(sent, content)
    requires forall p :: p in StreamOf(sent, fid, content, false) ==> p in pkts
    ensures AllBrought(traces, dev, Extents(sent), fid, content, pkts)
  {
    hide AllAfter, FirstClaim, Lawful, Fitting, StreamOf, BodyOf, Keeps, Quotes;
    forall i, pos | 0 <= i < |sent| && Inside(sent[i].ex, |content|, pos)
      ensures Brought(traces, dev, sent[i].ex, fid, content, pos, pkts)
    {
      var now := AllAfter(traces, dev, sent[..i]);
      var p := PositionIsBrought(now, dev, sent[i], fid, content, pos);
      BodyInStream(sent, i, p, fid, content, false);
      var before := TraceAt(traces[dev], sent[i].ex.device);
      var more := HistoryGrows(traces, dev, sent[..i], sent[i].ex.device);
      if FirstClaim(before, PhysicalOf(sent[i].ex, pos)).Some? {
        FirstClaimIsStable(before, more, PhysicalOf(sent[i].ex, pos));
      }
    }
  }
}
