/** What the extents of all files of a session have in common: the histories of the extent maps, and the stream. */
module Session {
  import opened Common
  import opened Protocol
  import opened ExtentMap
  import opened Replay
  import opened Files
  import opened Sending

  /** An extent that was sent for file `fid` on device `dev`; a reference file gets no packets. */
  datatype Step = Step(dev: nat, fid: nat, content: seq<byte>, ref: bool, s: Sent)

  /** The histories after the steps. */
  ghost function HistoryOf(traces: Histories, steps: seq<Step>): Histories {
    if steps == [] then traces
    else
      var n := |steps| - 1;
      var before := HistoryOf(traces, steps[..n]);
      if steps[n].dev in before then After(before, steps[n].dev, steps[n].s) else before
  }

  ghost predicate IsLawful(before: Histories, step: Step) {
    step.dev in before && Lawful(before, step.dev, step.s, step.fid, step.content)
  }

  ghost predicate StepsLawful(traces: Histories, steps: seq<Step>) {
    forall i :: 0 <= i < |steps| ==> IsLawful(HistoryOf(traces, steps[..i]), steps[i])
  }

  function PacketsOf(step: Step): seq<Packet>
    requires Fitting(step.s, step.content)
  {
    BodyOf(step.s, step.fid, step.content, step.ref)
  }

  // ----- the histories

  lemma {:induction false} HistoryStep(traces: Histories, steps: seq<Step>, step: Step)
    requires IsLawful(HistoryOf(traces, steps), step) && StepsLawful(traces, steps)
    ensures HistoryOf(traces, steps + [step]) == After(HistoryOf(traces, steps), step.dev, step.s)
    ensures StepsLawful(traces, steps + [step])
  {
    hide IsLawful, After;
    var all := steps + [step];
    assert all[..|steps|] == steps;
    assert step.dev in HistoryOf(traces, steps) by { LawfulIsKnown(HistoryOf(traces, steps), step); }
    forall i | 0 <= i < |all| ensures IsLawful(HistoryOf(traces, all[..i]), all[i]) {
      assert all[..i] == steps[..i];
    }
  }

  lemma LawfulIsKnown(before: Histories, step: Step)
    requires IsLawful(before, step)
    ensures step.dev in before
  {
  }

  function StepsOf(dev: nat, fid: nat, content: seq<byte>, ref: bool, sent: seq<Sent>): seq<Step> {
    seq(|sent|, i requires 0 <= i < |sent| => Step(dev, fid, content, ref, sent[i]))
  }

  /** One more file. */
  lemma {:induction false} HistoryOfFile(traces: Histories, steps: seq<Step>, dev: nat, fid: nat, content: seq<byte>,
                                         ref: bool, sent: seq<Sent>)
    requires StepsLawful(traces, steps) && dev in HistoryOf(traces, steps)
    requires AllLawful(HistoryOf(traces, steps), dev, sent, fid, content)
    ensures StepsLawful(traces, steps + StepsOf(dev, fid, content, ref, sent))
    ensures HistoryOf(traces, steps + StepsOf(dev, fid, content, ref, sent))
            == AllAfter(HistoryOf(traces, steps), dev, sent)
  {
    hide StepsLawful, Lawful, AllLawful, After, HistoryOf;
    var now := HistoryOf(traces, steps);
    if sent == [] {
      assert steps + StepsOf(dev, fid, content, ref, sent) == steps;
    } else {
      var n := |sent| - 1;
      var front, step := StepsOf(dev, fid, content, ref, sent[..n]), Step(dev, fid, content, ref, sent[n]);
      PrefixIsLawful(now, dev, sent, n, fid, content);
      HistoryOfFile(traces, steps, dev, fid, content, ref, sent[..n]);
      LastIsLawful(now, dev, sent, fid, content);
      HistoryStep(traces, steps + front, step);
      assert steps + StepsOf(dev, fid, content, ref, sent) == steps + front + [step];
    }
  }

  /** Histories only grow. */
  lemma {:induction false} HistoryGoesOn(traces: Histories, steps: seq<Step>, i: nat, j: nat)
    requires i <= j <= |steps|
    ensures Grew(HistoryOf(traces, steps[..i]), HistoryOf(traces, steps[..j]))
    decreases j
  {
    hide Grew;
    var before := HistoryOf(traces, steps[..i]);
    if i == j {
      GrewItself(before);
    } else {
      HistoryGoesOn(traces, steps, i, j - 1);
      assert steps[..j][..j - 1] == steps[..j - 1];
      var h, step := HistoryOf(traces, steps[..j - 1]), steps[j - 1];
      GrewItself(h);
      if step.dev in h && IsShared(step.s.ex.flags) {
        ExtendedGrew(h, step.dev, step.s.ex.device, step.s.events);
      }
      GrewOn(before, h, HistoryOf(traces, steps[..j]));
    }
  }

  // ----- the stream

  /** The packets of every step stand in the stream, one after the other. */
  ghost predicate Placed(log: seq<Packet>, steps: seq<Step>, starts: seq<nat>) {
    && |starts| == |steps|
    && (forall i :: 0 <= i < |steps| ==> StandsAt(log, steps[i], starts[i]))
    && (forall i, j :: 0 <= i < j < |steps| ==> starts[i] + |PacketsOf(steps[i])| <= starts[j])
  }

  ghost predicate StandsAt(log: seq<Packet>, step: Step, start: nat) {
    && Fitting(step.s, step.content) && start + |PacketsOf(step)| <= |log|
    && log[start..start + |PacketsOf(step)|] == PacketsOf(step)
  }

  /** What was placed stays where it is. */
  lemma PlacedStays(log: seq<Packet>, more: seq<Packet>, steps: seq<Step>, starts: seq<nat>)
    requires Placed(log, steps, starts) && log <= more
    ensures Placed(more, steps, starts)
  {
    hide PacketsOf, Fitting;
    forall i | 0 <= i < |steps| ensures StandsAt(more, steps[i], starts[i]) {
      assert StandsAt(log, steps[i], starts[i]);
      assert more[..|log|] == log;
      assert more[starts[i]..starts[i] + |PacketsOf(steps[i])|] == log[starts[i]..starts[i] + |PacketsOf(steps[i])|];
    }
  }

  /** Packets other than extents, and holes. */
  predicate IsBare(p: Packet) {
    p.Extent? ==> p.flags == FL_HOLE
  }

  ghost predicate AllBare(log: seq<Packet>, from: nat, to: nat)
    requires to <= |log|
  {
    forall k :: from <= k < to ==> IsBare(log[k])
  }

  ghost predicate OfAStep(log: seq<Packet>, steps: seq<Step>, starts: seq<nat>, k: nat)
    requires Placed(log, steps, starts)
  {
    exists i :: 0 <= i < |steps| && starts[i] <= k < starts[i] + |PacketsOf(steps[i])|
  }

  /** Every packet in this part of the log is bare or one of a step. */
  ghost predicate Accounted(log: seq<Packet>, from: nat, to: nat, steps: seq<Step>, starts: seq<nat>)
    requires Placed(log, steps, starts) && to <= |log|
  {
    forall k :: from <= k < to ==> IsBare(log[k]) || OfAStep(log, steps, starts, k)
  }

  lemma AccountedStays(log: seq<Packet>, more: seq<Packet>, from: nat, steps: seq<Step>, starts: seq<nat>)
    requires Placed(log, steps, starts) && Placed(more, steps, starts) && log <= more
    requires Accounted(log, from, |log|, steps, starts)
    ensures Accounted(more, from, |log|, steps, starts)
  {
    hide Placed, PacketsOf;
    forall k | from <= k < |log| ensures IsBare(more[k]) || OfAStep(more, steps, starts, k) {
      assert IsBare(log[k]) || OfAStep(log, steps, starts, k);
    }
  }

  lemma AccountedMore(log: seq<Packet>, from: nat, mid: nat, to: nat, steps: seq<Step>, starts: seq<nat>)
    requires Placed(log, steps, starts) && mid <= to <= |log| && Accounted(log, from, mid, steps, starts)
    requires AllBare(log, mid, to)
    ensures Accounted(log, from, to, steps, starts)
  {
    hide PacketsOf, Fitting, IsBare, OfAStep;
  }

  lemma AccountedStep(log: seq<Packet>, from: nat, mid: nat, steps: seq<Step>, starts: seq<nat>, step: Step, start: nat)
    requires Placed(log, steps, starts) && Placed(log, steps + [step], starts + [start])
    requires StandsAt(log, step, start) && mid <= start && Accounted(log, from, mid, steps, starts)
    requires AllBare(log, mid, start)
    ensures Accounted(log, from, start + |PacketsOf(step)|, steps + [step], starts + [start])
  {
    hide PacketsOf, Fitting, IsBare;
    var all, now := starts + [start], steps + [step];
    assert now[|steps|] == step && all[|steps|] == start;
    forall k | from <= k < mid && OfAStep(log, steps, starts, k) ensures OfAStep(log, now, all, k) {
      var i :| 0 <= i < |steps| && starts[i] <= k < starts[i] + |PacketsOf(steps[i])|;
      assert now[i] == steps[i] && all[i] == starts[i];
    }
  }

  /** The packets of one more file. */
  lemma {:induction false} PlaceFile(log: seq<Packet>, steps: seq<Step>, starts: seq<nat>, at: nat, dev: nat, fid: nat,
                                     content: seq<byte>, ref: bool, sent: seq<Sent>, from: nat)
    returns (all: seq<nat>)
    requires Placed(log, steps, starts) && (forall i :: 0 <= i < |steps| ==> starts[i] + |PacketsOf(steps[i])| <= at)
    requires AllFitting(sent, content) && at + |StreamOf(sent, fid, content, ref)| <= |log|
    requires Accounted(log, from, at, steps, starts)
    requires log[at..at + |StreamOf(sent, fid, content, ref)|] == StreamOf(sent, fid, content, ref)
    ensures var now := steps + StepsOf(dev, fid, content, ref, sent);
            && Placed(log, now, all)
            && Accounted(log, from, at + |StreamOf(sent, fid, content, ref)|, now, all)
            && forall i :: 0 <= i < |now| ==> all[i] + |PacketsOf(now[i])| <= at + |StreamOf(sent, fid, content, ref)|
    decreases |sent|
  {
    hide Fitting, GapOf, BodyOf, Placed, Accounted, AllBare, StepsOf;
    if sent == [] {
      NoStepsOf(steps, dev, fid, content, ref);
      all := starts;
    } else {
      var n := |sent| - 1;
      var front, step := StepsOf(dev, fid, content, ref, sent[..n]), Step(dev, fid, content, ref, sent[n]);
      var before := StreamOf(sent[..n], fid, content, ref);
      StepsGrow(steps, dev, fid, content, ref, sent);
      var gap := GapOf(fid, EndOf(sent[..n], |content|), sent[n].ex.logical, ref);
      Apart(log, at, before, gap, PacketsOf(step));
      all := PlaceFile(log, steps, starts, at, dev, fid, content, ref, sent[..n], from);
      var start := at + |before| + |gap|;
      assert StandsAt(log, step, start);
      PlaceStep(log, steps + front, all, step, start);
      GapIsBare(log, at + |before|, fid, EndOf(sent[..n], |content|), sent[n].ex.logical, ref);
      AccountedStep(log, from, at + |before|, steps + front, all, step, start);
      all := all + [start];
    }
  }

  lemma {:induction false} NoStepsOf(steps: seq<Step>, dev: nat, fid: nat, content: seq<byte>, ref: bool)
    ensures steps + StepsOf(dev, fid, content, ref, []) == steps
  {
  }

  lemma {:induction false} StepsGrow(steps: seq<Step>, dev: nat, fid: nat, content: seq<byte>, ref: bool,
                                     sent: seq<Sent>)
    requires sent != []
    ensures var n := |sent| - 1;
            steps + StepsOf(dev, fid, content, ref, sent)
            == steps + StepsOf(dev, fid, content, ref, sent[..n]) + [Step(dev, fid, content, ref, sent[n])]
  {
  }

  lemma Apart(log: seq<Packet>, at: nat, a: seq<Packet>, b: seq<Packet>, c: seq<Packet>)
    requires at + |a + b + c| <= |log| && log[at..at + |a + b + c|] == a + b + c
    ensures log[at..at + |a|] == a && log[at + |a|..at + |a| + |b|] == b
    ensures log[at + |a| + |b|..at + |a| + |b| + |c|] == c
  {
    var all := a + b + c;
    forall k | 0 <= k < |all| ensures log[at + k] == all[k] {
      assert log[at..at + |all|][k] == all[k];
    }
    assert forall k :: 0 <= k < |a| ==> log[at + k] == all[k] == a[k];
    assert forall k :: 0 <= k < |b| ==> log[at + |a| + k] == all[|a| + k] == b[k];
    assert forall k :: 0 <= k < |c| ==> log[at + |a| + |b| + k] == all[|a| + |b| + k] == c[k];
  }

  lemma GapIsBare(log: seq<Packet>, at: nat, fid: nat, from: nat, to: nat, ref: bool)
    requires var gap := GapOf(fid, from, to, ref); at + |gap| <= |log| && log[at..at + |gap|] == gap
    ensures AllBare(log, at, at + |GapOf(fid, from, to, ref)|)
  {
    var gap := GapOf(fid, from, to, ref);
    forall k | at <= k < at + |gap| ensures IsBare(log[k]) {
      assert log[k] == log[at..at + |gap|][k - at];
    }
  }

  lemma PlaceStep(log: seq<Packet>, steps: seq<Step>, starts: seq<nat>, step: Step, start: nat)
    requires Placed(log, steps, starts) && StandsAt(log, step, start)
    requires forall i :: 0 <= i < |steps| ==> starts[i] + |PacketsOf(steps[i])| <= start
    ensures Placed(log, steps + [step], starts + [start])
    ensures forall i :: 0 <= i < |steps| + 1 ==>
              (starts + [start])[i] + |PacketsOf((steps + [step])[i])| <= start + |PacketsOf(step)|
  {
    hide PacketsOf, Fitting;
  }

  // ----- shared bytes travel once

  /** Packet `m` of step `i` brings physical byte `b` of device `x`, known as `dev`, and is no copy. */
  ghost predicate Brings(log: seq<Packet>, steps: seq<Step>, starts: seq<nat>, i: nat, m: nat, dev: nat, x: nat, b: nat)
    requires Placed(log, steps, starts)
  {
    && i < |steps| && m < |PacketsOf(steps[i])|
    && !steps[i].ref && steps[i].dev == dev && steps[i].s.ex.device == x && IsShared(steps[i].s.ex.flags)
    && var p, e := log[starts[i] + m], steps[i].s.ex;
    && p.Extent? && !p.body.Source? && e.logical <= p.offset
    && PhysicalOf(e, p.offset) <= b < PhysicalOf(e, p.offset) + p.length
  }

  /** No byte is reported new twice. */
  lemma {:induction false} NewOnce(trace: seq<Event>, q: nat, r: nat, b: nat)
    requires TraceOk(trace) && q < r < |trace|
    ensures ClaimsByte(trace[q], b) ==> !ClaimsByte(trace[r], b)
  {
    hide TraceOk;
    if ClaimsByte(trace[q], b) && ClaimsByte(trace[r], b) {
      ReportsFollowFirstClaims(trace, r, b);
      var early := trace[..q + 1];
      assert early[..q] == trace[..q] && early[q] == trace[q];
      assert FirstClaim(early, b).Some?;
      assert trace[..r] == early + trace[q + 1..r];
      FirstClaimIsStable(early, trace[q + 1..r], b);
    }
  }

  /** The report behind a packet. */
  lemma {:induction false} PacketIsReported(log: seq<Packet>, steps: seq<Step>, starts: seq<nat>, traces: Histories,
                                            i: nat, m: nat, dev: nat, x: nat, b: nat)
    requires Placed(log, steps, starts) && StepsLawful(traces, steps) && Brings(log, steps, starts, i, m, dev, x, b)
    ensures m < |steps[i].s.events| && ClaimsByte(steps[i].s.events[m], b)
  {
    hide Packets, TraceOk, Fitting, HistoryOf;
    var step := steps[i];
    assert IsLawful(HistoryOf(traces, steps[..i]), step);
    EventsOfStep(HistoryOf(traces, steps[..i]), step);
    assert StandsAt(log, step, starts[i]);
    assert log[starts[i]..starts[i] + |PacketsOf(step)|][m] == PacketsOf(step)[m];
    PacketAt(step.s.events, step.fid, step.s.ex.flags, step.content, m);
  }

  lemma EventsOfStep(before: Histories, step: Step)
    requires IsLawful(before, step) && IsShared(step.s.ex.flags)
    ensures InFile(step.s.events, step.content)
    ensures forall m :: 0 <= m < |step.s.events| ==>
              var ev := step.s.events[m];
              && step.s.ex.logical <= ev.report.pos && ev.physical == PhysicalOf(step.s.ex, ev.report.pos)
              && 0 < ev.report.len
    ensures TraceOk(TraceAt(before[step.dev], step.s.ex.device) + step.s.events)
  {
    hide TraceOk, InFile;
  }

  /** Where the events of step `i` stand in the history that a later step ends with. */
  lemma {:induction false} EventInHistory(traces: Histories, steps: seq<Step>, i: nat, m: nat, j: nat, n: nat)
    requires StepsLawful(traces, steps) && i <= j < |steps| && steps[i].dev == steps[j].dev
    requires steps[i].s.ex.device == steps[j].s.ex.device && IsShared(steps[i].s.ex.flags)
             && IsShared(steps[j].s.ex.flags)
    requires m < |steps[i].s.events| && n < |steps[j].s.events| && (i == j ==> m < n)
    ensures var dev, x := steps[i].dev, steps[i].s.ex.device;
            var hi, hj := HistoryOf(traces, steps[..i]), HistoryOf(traces, steps[..j]);
            && dev in hi && dev in hj
            && var trace := TraceAt(hj[dev], x) + steps[j].s.events;
            var q, r := |TraceAt(hi[dev], x)| + m, |TraceAt(hj[dev], x)| + n;
            && TraceOk(trace) && q < r < |trace| && trace[q] == steps[i].s.events[m] && trace[r] == steps[j].s.events[n]
  {
    hide TraceOk, IsLawful, HistoryOf, TraceAt, Grew;
    var dev, x := steps[i].dev, steps[i].s.ex.device;
    var hi, hj := HistoryOf(traces, steps[..i]), HistoryOf(traces, steps[..j]);
    LawfulIsKnown(hi, steps[i]);
    LawfulIsKnown(hj, steps[j]);
    EventsOfStep(hj, steps[j]);
    if i < j {
      HistoryAfterStep(traces, steps, i);
      HistoryGoesOn(traces, steps, i + 1, j);
      GrewAt(HistoryOf(traces, steps[..i + 1]), hj, dev, x);
    }
  }

  /** The reports about step `i` are the last ones of its history. */
  lemma {:induction false} HistoryAfterStep(traces: Histories, steps: seq<Step>, i: nat)
    requires i < |steps| && steps[i].dev in HistoryOf(traces, steps[..i]) && IsShared(steps[i].s.ex.flags)
    ensures var dev, x := steps[i].dev, steps[i].s.ex.device;
            var before, after := HistoryOf(traces, steps[..i]), HistoryOf(traces, steps[..i + 1]);
            dev in after && TraceAt(after[dev], x) == TraceAt(before[dev], x) + steps[i].s.events
  {
    assert steps[..i + 1][..i] == steps[..i];
  }

  lemma GrewAt(before: Histories, after: Histories, dev: nat, x: nat)
    requires Grew(before, after) && dev in before
    ensures dev in after && TraceAt(before[dev], x) <= TraceAt(after[dev], x)
  {
  }

  /**
   * In the stream of a session, a physical byte of an open device that is shared travels at most
   * once: two packets that bring it are one packet.
   */
  lemma {:induction false} SharedBytesTravelOnce(log: seq<Packet>, traces: Histories, steps: seq<Step>,
                                                 starts: seq<nat>, i: nat, m: nat, j: nat, n: nat, dev: nat, x: nat,
                                                 b: nat)
    requires Placed(log, steps, starts) && StepsLawful(traces, steps)
    requires Brings(log, steps, starts, i, m, dev, x, b) && Brings(log, steps, starts, j, n, dev, x, b)
    ensures i == j && m == n
  {
    hide Placed, StepsLawful, HistoryOf, TraceOk, ClaimsByte;
    PacketIsReported(log, steps, starts, traces, i, m, dev, x, b);
    PacketIsReported(log, steps, starts, traces, j, n, dev, x, b);
    if i < j || (i == j && m < n) {
      EventInHistory(traces, steps, i, m, j, n);
      NewOnce(TraceAt(HistoryOf(traces, steps[..j])[dev], x) + steps[j].s.events,
              |TraceAt(HistoryOf(traces, steps[..i])[dev], x)| + m,
              |TraceAt(HistoryOf(traces, steps[..j])[dev], x)| + n, b);
    } else if j < i || n < m {
      EventInHistory(traces, steps, j, n, i, m);
      NewOnce(TraceAt(HistoryOf(traces, steps[..i])[dev], x) + steps[i].s.events,
              |TraceAt(HistoryOf(traces, steps[..j])[dev], x)| + n,
              |TraceAt(HistoryOf(traces, steps[..i])[dev], x)| + m, b);
    }
  }

  /** The steps stand in the log, and no shared physical byte of an open device is brought by two packets. */
  ghost predicate TravelOnce(log: seq<Packet>, steps: seq<Step>, starts: seq<nat>) {
    && Placed(log, steps, starts)
    && (forall i: nat, m: nat, j: nat, n: nat, dev: nat, x: nat, b: nat
         {:trigger Brings(log, steps, starts, i, m, dev, x, b), Brings(log, steps, starts, j, n, dev, x, b)} ::
         Brings(log, steps, starts, i, m, dev, x, b) && Brings(log, steps, starts, j, n, dev, x, b) ==>
           i == j && m == n)
  }

  lemma {:induction false} AllTravelOnce(log: seq<Packet>, traces: Histories, steps: seq<Step>, starts: seq<nat>)
    requires Placed(log, steps, starts) && StepsLawful(traces, steps)
    ensures TravelOnce(log, steps, starts)
  {
    hide StepsLawful, Brings;
    forall i: nat, m: nat, j: nat, n: nat, dev: nat, x: nat, b: nat
      | Brings(log, steps, starts, i, m, dev, x, b) && Brings(log, steps, starts, j, n, dev, x, b)
      ensures i == j && m == n
    {
      SharedBytesTravelOnce(log, traces, steps, starts, i, m, j, n, dev, x, b);
    }
  }
}
