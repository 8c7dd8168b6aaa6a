/** The index of physical extents that were already streamed (lib/emap.c, lib/emap.h). */
module ExtentMap {
  import opened Common

  /** One claimed physical interval, and the place in the claiming file it was first seen at. */
  datatype MapExtent = MapExtent(physical: nat, logical: nat, length: nat, file: nat)

  datatype Origin = Origin(file: nat, logical: nat)

  /** What one callback invocation is told. */
  datatype Report =
    | New(pos: nat, len: nat, physical: nat)
    | Avail(pos: nat, len: nat, file: nat, logical: nat)

  /** A report that was accepted by its callback, with the physical range and file it is about. */
  datatype Event = Event(report: Report, physical: nat, file: nat)

  // ----- intervals

  predicate Fits(e: MapExtent) {
    0 < e.length && e.physical + e.length < U64 && e.logical + e.length < U64
  }

  predicate Covers(e: MapExtent, b: nat) {
    e.physical <= b < e.physical + e.length
  }

  function OriginOf(e: MapExtent, b: nat): Origin
    requires Covers(e, b)
  {
    Origin(e.file, e.logical + (b - e.physical))
  }

  predicate Disjoint(a: MapExtent, b: MapExtent) {
    a.physical + a.length <= b.physical || b.physical + b.length <= a.physical
  }

  /** Sorted by physical address, without overlap and without empty or overlong extents. */
  ghost predicate Sorted(list: seq<MapExtent>) {
    && (forall i :: 0 <= i < |list| ==> Fits(list[i]))
    && (forall i, j :: 0 <= i < j < |list| ==> list[i].physical + list[i].length <= list[j].physical)
  }

  ghost function Elements(list: seq<MapExtent>): set<MapExtent> {
    set e | e in list
  }

  function Inserted(list: seq<MapExtent>, index: nat, e: MapExtent): (r: seq<MapExtent>)
    requires index <= |list|
  {
    list[..index] + [e] + list[index..]
  }

  lemma InsertKeepsSorted(list: seq<MapExtent>, index: nat, e: MapExtent)
    requires Sorted(list) && index <= |list| && Fits(e)
    requires forall i :: 0 <= i < index ==> list[i].physical + list[i].length <= e.physical
    requires index < |list| ==> e.physical + e.length <= list[index].physical
    ensures Sorted(Inserted(list, index, e))
    ensures Elements(Inserted(list, index, e)) == Elements(list) + {e}
    ensures forall x :: x in Elements(list) ==> Disjoint(e, x)
  {
    var r := Inserted(list, index, e);
    assert list == list[..index] + list[index..];
    forall x ensures x in r <==> x in list || x == e {
    }
  }

  // ----- the byte-level view

  /** The origin the sorted array records for a physical byte. */
  ghost function Lookup(list: seq<MapExtent>, b: nat): Option<Origin> {
    if exists i :: 0 <= i < |list| && Covers(list[i], b) then
      var i :| 0 <= i < |list| && Covers(list[i], b);
      Some(OriginOf(list[i], b))
    else
      None
  }

  ghost predicate ClaimsByte(ev: Event, b: nat) {
    ev.report.New? && ev.physical <= b < ev.physical + ev.report.len
  }

  /** The simple specification: the first accepted new report of a byte decides its origin for good. */
  ghost function FirstClaim(trace: seq<Event>, b: nat): Option<Origin> {
    if trace == [] then None
    else
      var n := |trace| - 1;
      var before := FirstClaim(trace[..n], b);
      if before.Some? then before
      else if ClaimsByte(trace[n], b) then
        Some(Origin(trace[n].file, trace[n].report.pos + (b - trace[n].physical)))
      else None
  }

  // ----- traces of accepted reports

  function EntryOf(ev: Event): MapExtent
    requires ev.report.New?
  {
    MapExtent(ev.physical, ev.report.pos, ev.report.len, ev.file)
  }

  ghost function NewEntries(trace: seq<Event>): set<MapExtent> {
    if trace == [] then {}
    else
      var n := |trace| - 1;
      NewEntries(trace[..n]) + (if trace[n].report.New? then {EntryOf(trace[n])} else {})
  }

  /** The reported source is the part of `e` that lies at the reported physical range. */
  ghost predicate TakenFrom(ev: Event, e: MapExtent)
    requires ev.report.Avail?
  {
    && e.physical <= ev.physical && ev.physical + ev.report.len <= e.physical + e.length
    && ev.report.file == e.file
    && ev.report.logical == e.logical + (ev.physical - e.physical)
  }

  ghost predicate EventOk(entries: set<MapExtent>, ev: Event) {
    match ev.report
    case New(_, _, physical) =>
      && physical == ev.physical
      && Fits(EntryOf(ev))
      && forall e :: e in entries ==> Disjoint(EntryOf(ev), e)
    case Avail(_, len, _, _) =>
      0 < len && exists e :: e in entries && TakenFrom(ev, e)
  }

  /** Every new report claims fresh bytes only, every available report quotes one earlier claim. */
  ghost predicate TraceOk(trace: seq<Event>) {
    trace == [] ||
    var n := |trace| - 1;
    TraceOk(trace[..n]) && EventOk(NewEntries(trace[..n]), trace[n])
  }

  // ----- one call

  /** The event is about a non-empty piece of `input` and keeps its physical/logical correspondence. */
  ghost predicate PieceOf(ev: Event, input: MapExtent) {
    && 0 < ev.report.len
    && input.physical <= ev.physical
    && ev.report.pos == input.logical + (ev.physical - input.physical)
    && ev.file == input.file
  }

  /** The events tile the first `n` bytes of `input` from left to right, without gap or overlap. */
  ghost predicate Tiles(events: seq<Event>, input: MapExtent, n: nat) {
    && (forall i :: 0 <= i < |events| ==> PieceOf(events[i], input))
    && (forall i, j :: 0 <= i && j == i + 1 < |events| ==>
          events[j].physical == events[i].physical + events[i].report.len)
    && if events == [] then n == 0 else
         && events[0].physical == input.physical
         && events[|events| - 1].physical + events[|events| - 1].report.len == input.physical + n
  }

  type ForNew<!C> = (C, nat, nat, nat) -> (int, C)
  type ForAvail<!C> = (C, nat, nat, nat, nat) -> (int, C)

  function Call<C>(c: C, r: Report, forNew: ForNew<C>, forAvail: ForAvail<C>): (int, C) {
    match r
    case New(pos, len, physical) => forNew(c, pos, len, physical)
    case Avail(pos, len, file, logical) => forAvail(c, pos, len, file, logical)
  }

  /** Runs the callbacks in order on the opaque state `c`, stopping at the first failure. */
  function Deliver<C>(c: C, events: seq<Event>, forNew: ForNew<C>, forAvail: ForAvail<C>): (int, C) {
    if events == [] then (0, c)
    else
      var k := |events| - 1;
      var (rc, c') := Deliver(c, events[..k], forNew, forAvail);
      if rc < 0 then (rc, c') else Call(c', events[k].report, forNew, forAvail)
  }

  ghost predicate Delivered<C>(c: C, events: seq<Event>, forNew: ForNew<C>, forAvail: ForAvail<C>, c': C) {
    && Deliver(c, events, forNew, forAvail).0 >= 0
    && Deliver(c, events, forNew, forAvail).1 == c'
  }

  /** The callbacks accepted `events`, and the next piece of the input made one fail with `rc`. */
  ghost predicate Failed<C>(c: C, input: MapExtent, n: nat, events: seq<Event>, forNew: ForNew<C>,
                            forAvail: ForAvail<C>, rc: int, c': C)
  {
    && rc < 0 && Deliver(c, events, forNew, forAvail).0 >= 0
    && exists ev: Event {:trigger events + [ev]} ::
      && Tiles(events + [ev], input, n + ev.report.len) && n + ev.report.len <= input.length
      && Deliver(c, events + [ev], forNew, forAvail) == (rc, c')
  }

  /** Ghost bookkeeping of one call: its opaque start state, its input and what was reported so far. */
  datatype CallState<C> = CallState(opaque_: C, input: MapExtent, n: nat, before: seq<Event>, events: seq<Event>)

  /** The extent a call is still working on; `Shift` moves its front. */
  class Cursor {
    var physical: nat
    var logical: nat
    var length: nat
    const file: nat

    constructor (physical: nat, logical: nat, length: nat, file: nat)
      ensures this.physical == physical && this.logical == logical
      ensures this.length == length && this.file == file
    {
      this.physical, this.logical, this.length, this.file := physical, logical, length, file;
    }

    function Value(): MapExtent
      reads this
    {
      MapExtent(physical, logical, length, file)
    }

    method Shift(step: nat) returns (more: bool)
      requires step < length
      modifies this
      ensures physical == old(physical) + step && logical == old(logical) + step
      ensures length == old(length) - step
      ensures more
    {
      physical := physical + step;
      logical := logical + step;
      length := length - step;
      more := length > 0;
    }
  }

  /** `index` separates the extents that end at or before `pos` from those that end after it. */
  ghost predicate Splits(list: seq<MapExtent>, index: nat, pos: nat) {
    && index <= |list|
    && (forall i :: 0 <= i < index ==> list[i].physical + list[i].length <= pos)
    && (forall i :: index <= i < |list| ==> pos < list[i].physical + list[i].length)
  }

  lemma SplitsAfterInsert(list: seq<MapExtent>, index: nat, e: MapExtent)
    requires Sorted(list) && Splits(list, index, e.physical) && Fits(e)
    requires index < |list| ==> e.physical + e.length <= list[index].physical
    ensures Splits(Inserted(list, index, e), index + 1, e.physical + e.length)
    ensures Inserted(list, index, e)[index + 1..] == list[index..]
  {
  }

  lemma SplitsNext(list: seq<MapExtent>, index: nat, pos: nat)
    requires Sorted(list) && index < |list| && Splits(list, index, pos)
    ensures pos < list[index].physical + list[index].length
    ensures Splits(list, index + 1, list[index].physical + list[index].length)
    ensures Fits(list[index])
  {
  }

  /** The extents are sorted, and they are exactly the claims of a proper history. */
  ghost predicate ListOk(extents: seq<MapExtent>, trace: seq<Event>) {
    && Sorted(extents)
    && Elements(extents) == NewEntries(trace)
    && TraceOk(trace)
  }

  /** The sorted extents of one physical device, with the history that led to them. */
  class ExtentList {
    var extents: seq<MapExtent>
    ghost var trace: seq<Event>

    ghost predicate Valid()
      reads this
    {
      ListOk(extents, trace)
    }

    constructor (extents: seq<MapExtent>, ghost trace: seq<Event>)
      requires ListOk(extents, trace)
      ensures Valid() && this.extents == extents && this.trace == trace
    {
      this.extents, this.trace := extents, trace;
    }

    /** A binary search over intervals: the extent covering `pos`, or where one would go. */
    method Find(pos: nat) returns (index: nat)
      requires Sorted(extents)
      ensures Splits(extents, index, pos)
    {
      var a, b := 0, |extents|;
      if b == 0 {
        return 0;
      }
      while a != b
        invariant 0 <= a <= b <= |extents|
        invariant forall i :: 0 <= i < a ==> extents[i].physical + extents[i].length <= pos
        invariant forall i :: b <= i < |extents| ==> pos < extents[i].physical
        decreases b - a
      {
        var i := (a + b) / 2;
        var elem := extents[i];
        if pos < elem.physical {
          b := i;
        } else if pos >= elem.physical + elem.length {
          a := i + 1;
        } else {
          return i;
        }
      }
      return a;
    }

    /** A call reported `n` bytes of `input` so far: `ex` is the rest, and the walk stands at `index`. */
    ghost predicate Progress(index: nat, ex: MapExtent, input: MapExtent, n: nat, before: seq<Event>,
                             events: seq<Event>)
      reads this
    {
      && Valid()
      && ex == MapExtent(input.physical + n, input.logical + n, ex.length, input.file)
      && Fits(ex) && n + ex.length == input.length
      && Splits(extents, index, ex.physical)
      && Done(input, n, before, events)
    }

    ghost predicate Done(input: MapExtent, n: nat, before: seq<Event>, events: seq<Event>)
      reads this
    {
      && Valid() && n <= input.length
      && Tiles(events, input, n)
      && trace == before + events
    }

    /** Offers the first `len` bytes of `ex`, which nobody claimed, and records them at `index` once accepted. */
    method ReportNew<C>(index: nat, ex: MapExtent, len: nat, forNew: ForNew<C>, ghost forAvail: ForAvail<C>, c: C,
                        ghost call: CallState<C>)
      returns (rc: int, c': C, ghost events: seq<Event>)
      requires Progress(index, ex, call.input, call.n, call.before, call.events)
      requires 0 < len <= ex.length
      requires index < |extents| ==> ex.physical + len <= extents[index].physical
      requires Delivered(call.opaque_, call.events, forNew, forAvail, c)
      modifies this
      ensures rc >= 0 ==> Done(call.input, call.n + len, call.before, events)
      ensures rc >= 0 ==> extents == Inserted(old(extents), index, MapExtent(ex.physical, ex.logical, len, ex.file))
      ensures rc >= 0 ==> Splits(extents, index + 1, ex.physical + len)
      ensures |extents| == old(|extents|) + (if rc < 0 then 0 else 1)
      ensures rc >= 0 && index < old(|extents|) ==> extents[index + 1] == old(extents)[index]
      ensures rc >= 0 ==> Delivered(call.opaque_, events, forNew, forAvail, c')
      ensures rc < 0 ==> extents == old(extents) && Done(call.input, call.n, call.before, events)
      ensures rc < 0 ==> Failed(call.opaque_, call.input, call.n, events, forNew, forAvail, rc, c')
    {
      hide Valid, Tiles, Sorted, Splits, Inserted;
      ghost var ev := Event(New(ex.logical, len, ex.physical), ex.physical, ex.file);
      events := call.events;
      DeliverStep(call.opaque_, events, ev, forNew, forAvail);
      TilesStep(call.before, events, ev, call.input, call.n);
      var result := forNew(c, ex.logical, len, ex.physical);
      rc, c' := result.0, result.1;
      if rc >= 0 {
        Insert(index, MapExtent(ex.physical, ex.logical, len, ex.file));
        events := events + [ev];
      }
    }

    /** Records an extent that nobody claimed at `index`, where it belongs. */
    method Insert(index: nat, front: MapExtent)
      requires Valid() && Splits(extents, index, front.physical) && Fits(front)
      requires index < |extents| ==> front.physical + front.length <= extents[index].physical
      modifies this
      ensures Valid() && extents == Inserted(old(extents), index, front) && |extents| == old(|extents|) + 1
      ensures trace == old(trace)
                + [Event(New(front.logical, front.length, front.physical), front.physical, front.file)]
      ensures Splits(extents, index + 1, front.physical + front.length)
      ensures index < old(|extents|) ==> extents[index + 1] == old(extents)[index]
    {
      hide TraceOk, Elements, Sorted;
      ghost var ev := Event(New(front.logical, front.length, front.physical), front.physical, front.file);
      InsertKeepsSorted(extents, index, front);
      SplitsAfterInsert(extents, index, front);
      TraceStep(trace, ev);
      extents, trace := Inserted(extents, index, front), trace + [ev];
    }

    /** Offers the first `len` bytes of `ex`, which lie in the extent at `index`, as available. */
    method ReportAvail<C>(index: nat, ex: MapExtent, len: nat, ghost forNew: ForNew<C>, forAvail: ForAvail<C>, c: C,
                          ghost call: CallState<C>)
      returns (rc: int, c': C, ghost events: seq<Event>)
      requires Progress(index, ex, call.input, call.n, call.before, call.events)
      requires 0 < len <= ex.length && index < |extents|
      requires extents[index].physical <= ex.physical
      requires ex.physical + len <= extents[index].physical + extents[index].length
      requires Delivered(call.opaque_, call.events, forNew, forAvail, c)
      modifies `trace
      ensures rc >= 0 ==> Done(call.input, call.n + len, call.before, events)
      ensures rc >= 0 ==> Delivered(call.opaque_, events, forNew, forAvail, c')
      ensures rc < 0 ==> Done(call.input, call.n, call.before, events)
      ensures rc < 0 ==> Failed(call.opaque_, call.input, call.n, events, forNew, forAvail, rc, c')
    {
      hide Valid, Tiles, Splits;
      var it := extents[index];
      var physOff := ex.physical - it.physical;
      var copyLogical := it.logical + physOff;
      ghost var ev := Event(Avail(ex.logical, len, it.file, copyLogical), ex.physical, ex.file);
      events := call.events;
      DeliverStep(call.opaque_, events, ev, forNew, forAvail);
      TilesStep(call.before, events, ev, call.input, call.n);
      var result := forAvail(c, ex.logical, len, it.file, copyLogical);
      rc, c' := result.0, result.1;
      if rc >= 0 {
        Quote(index, ev);
        events := events + [ev];
      }
    }

    /** Notes that a part of the extent at `index` was reported as available. */
    ghost method Quote(index: nat, ev: Event)
      requires Valid() && index < |extents| && ev.report.Avail? && 0 < ev.report.len && TakenFrom(ev, extents[index])
      modifies `trace
      ensures Valid() && trace == old(trace) + [ev]
    {
      hide TraceOk, Sorted, TakenFrom;
      assert extents[index] in Elements(extents);
      TraceStep(trace, ev);
      trace := trace + [ev];
    }

    /** One turn of the walk: the part of `ex` in front of the extent at `index`, then the part inside it. */
    method Step<C>(index: nat, ex: Cursor, forNew: ForNew<C>, forAvail: ForAvail<C>, c: C, ghost call: CallState<C>)
      returns (finished: bool, rc: int, index': nat, c': C, ghost events: seq<Event>, ghost n: nat)
      requires index < |extents| && Progress(index, ex.Value(), call.input, call.n, call.before, call.events)
      requires Delivered(call.opaque_, call.events, forNew, forAvail, c)
      modifies this, ex
      ensures finished && rc >= 0 ==>
                && n == call.input.length && Done(call.input, n, call.before, events)
                && Delivered(call.opaque_, events, forNew, forAvail, c')
      ensures finished && rc < 0 ==>
                && Done(call.input, n, call.before, events)
                && Failed(call.opaque_, call.input, n, events, forNew, forAvail, rc, c')
      ensures !finished ==>
                && Progress(index', ex.Value(), call.input, n, call.before, events)
                && Delivered(call.opaque_, events, forNew, forAvail, c')
                && |extents| - index' < old(|extents|) - index
    {
      hide Tiles, Sorted, Splits, TraceOk, Elements, Failed, Delivered;
      index', n, events := index, call.n, call.events;
      SplitsNext(extents, index, ex.physical);
      var it := extents[index];
      if ex.physical + ex.length <= it.physical {
        // the nearest extent does not overlap
        rc, c', events := ReportNew(index, ex.Value(), ex.length, forNew, forAvail, c, call);
        n := if rc < 0 then n else n + ex.length;
        return true, if rc < 0 then rc else 0, index, c', events, n;
      }
      c' := c;
      if ex.physical < it.physical {
        var len := it.physical - ex.physical;
        rc, c', events := ReportNew(index, ex.Value(), len, forNew, forAvail, c, call);
        if rc < 0 {
          return true, rc, index, c', events, n;
        }
        n := n + len;
        var more := ex.Shift(len);
        if !more {
          assert false;
        }
        index' := index + 1;
        it := extents[index'];
      }
      ghost var call' := call.(n := n, events := events);
      SplitsNext(extents, index', ex.physical);
      var itPhyEnd := it.physical + it.length;
      if itPhyEnd >= ex.physical + ex.length {
        // `it` covers the entire rest of `ex`
        rc, c', events := ReportAvail(index', ex.Value(), ex.length, forNew, forAvail, c', call');
        n := if rc < 0 then n else n + ex.length;
        return true, rc, index', c', events, n;
      }
      var len := itPhyEnd - ex.physical;
      rc, c', events := ReportAvail(index', ex.Value(), len, forNew, forAvail, c', call');
      if rc < 0 {
        return true, rc, index', c', events, n;
      }
      n := n + len;
      var more := ex.Shift(len);
      if !more {
        assert false;
      }
      return false, rc, index' + 1, c', events, n;
    }

    /**
     * Splits the given range along the recorded extents and reports the pieces from left to
     * right; pieces nobody claimed yet are recorded once their callback accepted them.
     */
    method Add<C>(inPhysical: nat, inLogical: nat, inLength: nat, inFile: nat, forNew: ForNew<C>, forAvail: ForAvail<C>,
                  opaque_: C)
      returns (rc: int, c: C, ghost events: seq<Event>, ghost n: nat)
      requires Valid() && Fits(MapExtent(inPhysical, inLogical, inLength, inFile))
      modifies this
      ensures Done(MapExtent(inPhysical, inLogical, inLength, inFile), n, old(trace), events)
      ensures rc >= 0 ==> n == inLength && Delivered(opaque_, events, forNew, forAvail, c)
      ensures rc < 0 ==>
                Failed(opaque_, MapExtent(inPhysical, inLogical, inLength, inFile), n, events, forNew, forAvail, rc, c)
    {
      hide Sorted, TraceOk, Elements, Failed;
      events, n, c := [], 0, opaque_;
      ghost var input := MapExtent(inPhysical, inLogical, inLength, inFile);
      ghost var before := trace;
      var ex := new Cursor(inPhysical, inLogical, inLength, inFile);
      var index: nat := Find(inPhysical);
      if index >= |extents| {
        rc, c, events := ReportNew(index, ex.Value(), ex.length, forNew, forAvail, c,
                                   CallState(opaque_, input, n, before, events));
        if rc < 0 {
          return;
        }
        return 0, c, events, n + ex.length;
      }
      while index != |extents|
        invariant Progress(index, ex.Value(), input, n, before, events)
        invariant fresh(ex)
        invariant Delivered(opaque_, events, forNew, forAvail, c)
        decreases |extents| - index
      {
        var finished;
        finished, rc, index, c, events, n :=
          Step(index, ex, forNew, forAvail, c, CallState(opaque_, input, n, before, events));
        if finished {
          return;
        }
      }
      assert ex.length > 0;
      rc, c, events := ReportNew(index, ex.Value(), ex.length, forNew, forAvail, c,
                                 CallState(opaque_, input, n, before, events));
      if rc < 0 {
        return;
      }
      return 0, c, events, n + ex.length;
    }
  }

  /** One extent list for each physical device id that ever received an extent. */
  class EMap {
    var devices: map<nat, seq<MapExtent>>
    ghost var traces: map<nat, seq<Event>>

    ghost predicate Valid()
      reads this
    {
      && traces.Keys == devices.Keys
      && forall d :: d in devices ==> ListOk(devices[d], traces[d])
    }

    constructor ()
      ensures Valid() && devices == map[] && traces == map[]
    {
      devices, traces := map[], map[];
    }

    /** The accepted reports about one physical device, oldest first. */
    ghost function TraceOf(d: nat): seq<Event>
      reads this
    {
      if d in traces then traces[d] else []
    }

    method GetDevice(device: nat) returns (list: ExtentList)
      requires Valid()
      modifies this
      ensures Valid() && devices == old(devices)[device := list.extents]
      ensures traces == old(traces)[device := old(TraceOf(device))]
      ensures fresh(list) && list.Valid() && list.extents == devices[device] && list.trace == traces[device]
    {
      if device !in devices {
        devices, traces := devices[device := []], traces[device := []];
      }
      list := new ExtentList(devices[device], traces[device]);
    }

    /** Adds a range to the list of its physical device; the list is stored back however the call ends. */
    method Add<C>(inDevice: nat, inPhysical: nat, inLogical: nat, inLength: nat, inFile: nat, forNew: ForNew<C>,
                  forAvail: ForAvail<C>, opaque_: C)
      returns (rc: int, c: C, ghost events: seq<Event>, ghost n: nat)
      requires Valid()
      requires inPhysical + inLength < U64 && inLogical + inLength < U64
      modifies this
      ensures Valid()
      ensures inLength == 0 ==> rc == 0 && c == opaque_ && events == [] && traces == old(traces)
      ensures inLength > 0 ==> traces == old(traces)[inDevice := old(TraceOf(inDevice)) + events]
      ensures Tiles(events, MapExtent(inPhysical, inLogical, inLength, inFile), n) && n <= inLength
      ensures rc >= 0 ==> n == inLength && Delivered(opaque_, events, forNew, forAvail, c)
      ensures rc < 0 ==>
                Failed(opaque_, MapExtent(inPhysical, inLogical, inLength, inFile), n, events, forNew, forAvail, rc, c)
    {
      hide Valid, Failed, ListOk, Tiles, Delivered;
      if inLength == 0 {
        NothingReported(opaque_, MapExtent(inPhysical, inLogical, inLength, inFile), forNew, forAvail);
        return 0, opaque_, [], 0;
      }
      var device := GetDevice(inDevice);
      rc, c, events, n := device.Add(inPhysical, inLogical, inLength, inFile, forNew, forAvail, opaque_);
      PutBack(inDevice, device);
    }

    method PutBack(device: nat, list: ExtentList)
      requires Valid() && list.Valid()
      modifies this
      ensures Valid() && traces == old(traces)[device := list.trace] && devices == old(devices)[device := list.extents]
    {
      hide ListOk;
      devices, traces := devices[device := list.extents], traces[device := list.trace];
    }
  }

  lemma {:induction false} TraceStep(trace: seq<Event>, ev: Event)
    requires TraceOk(trace) && EventOk(NewEntries(trace), ev)
    ensures TraceOk(trace + [ev])
    ensures NewEntries(trace + [ev]) == NewEntries(trace) + (if ev.report.New? then {EntryOf(ev)} else {})
  {
    assert (trace + [ev])[..|trace|] == trace;
  }

  lemma TilesStep(before: seq<Event>, events: seq<Event>, ev: Event, input: MapExtent, n: nat)
    requires Tiles(events, input, n)
    requires 0 < ev.report.len && ev.report.pos == input.logical + n
    requires ev.physical == input.physical + n && ev.file == input.file
    ensures Tiles(events + [ev], input, n + ev.report.len)
    ensures before + events + [ev] == before + (events + [ev])
  {
  }

  lemma NothingReported<C>(c: C, input: MapExtent, forNew: ForNew<C>, forAvail: ForAvail<C>)
    ensures Tiles([], input, 0) && Delivered(c, [], forNew, forAvail, c)
  {
  }

  lemma {:induction false} DeliverStep<C>(c: C, events: seq<Event>, ev: Event, forNew: ForNew<C>, forAvail: ForAvail<C>)
    ensures var (rc, c') := Deliver(c, events, forNew, forAvail);
            Deliver(c, events + [ev], forNew, forAvail)
            == if rc < 0 then (rc, c') else Call(c', ev.report, forNew, forAvail)
  {
    assert (events + [ev])[..|events|] == events;
  }

  // ----- the byte-level meaning of the array

  lemma LookupIsUnique(list: seq<MapExtent>, i: nat, b: nat)
    requires Sorted(list) && i < |list| && Covers(list[i], b)
    ensures Lookup(list, b) == Some(OriginOf(list[i], b))
  {
    var j :| 0 <= j < |list| && Covers(list[j], b) && Lookup(list, b) == Some(OriginOf(list[j], b));
    assert i < j ==> list[i].physical + list[i].length <= list[j].physical;
    assert j < i ==> list[j].physical + list[j].length <= list[i].physical;
  }

  /** A claimed byte keeps the origin its first new report gave it. */
  lemma {:induction false} FirstClaimOfEntry(trace: seq<Event>, e: MapExtent, b: nat)
    requires TraceOk(trace) && e in NewEntries(trace) && Covers(e, b)
    ensures FirstClaim(trace, b) == Some(OriginOf(e, b))
  {
    var n := |trace| - 1;
    if e in NewEntries(trace[..n]) {
      FirstClaimOfEntry(trace[..n], e, b);
    } else if FirstClaim(trace[..n], b).Some? {
      var e' := EntryOfFirstClaim(trace[..n], b);
      assert false;
    }
  }

  lemma {:induction false} EntryOfFirstClaim(trace: seq<Event>, b: nat) returns (e: MapExtent)
    requires FirstClaim(trace, b).Some?
    ensures e in NewEntries(trace) && Covers(e, b) && FirstClaim(trace, b) == Some(OriginOf(e, b))
  {
    var n := |trace| - 1;
    if FirstClaim(trace[..n], b).Some? {
      e := EntryOfFirstClaim(trace[..n], b);
    } else {
      e := EntryOf(trace[n]);
    }
  }

  /** The sorted array is the byte-level map of first claims. */
  lemma {:induction false} ArrayIsFirstClaimMap(extents: seq<MapExtent>, trace: seq<Event>, b: nat)
    requires ListOk(extents, trace)
    ensures Lookup(extents, b) == FirstClaim(trace, b)
  {
    if FirstClaim(trace, b).Some? {
      var e := EntryOfFirstClaim(trace, b);
      assert e in Elements(extents);
      var i :| 0 <= i < |extents| && extents[i] == e;
      LookupIsUnique(extents, i, b);
    } else if i :| 0 <= i < |extents| && Covers(extents[i], b) {
      assert extents[i] in Elements(extents);
      FirstClaimOfEntry(trace, extents[i], b);
      assert false;
    }
  }

  lemma {:induction false} TraceOkPrefix(trace: seq<Event>, k: nat)
    requires TraceOk(trace) && k < |trace|
    ensures TraceOk(trace[..k]) && EventOk(NewEntries(trace[..k]), trace[k])
  {
    var n := |trace| - 1;
    if k < n {
      TraceOkPrefix(trace[..n], k);
      assert trace[..n][..k] == trace[..k];
    }
  }

  /** A byte is reported new only before it has an origin, and available only with exactly that origin. */
  lemma {:induction false} ReportsFollowFirstClaims(trace: seq<Event>, k: nat, b: nat)
    requires TraceOk(trace) && k < |trace|
    requires trace[k].physical <= b < trace[k].physical + trace[k].report.len
    ensures trace[k].report.New? <==> FirstClaim(trace[..k], b).None?
    ensures trace[k].report.Avail? ==>
              FirstClaim(trace[..k], b)
                  == Some(Origin(trace[k].report.file, trace[k].report.logical + (b - trace[k].physical)))
  {
    TraceOkPrefix(trace, k);
    match trace[k].report {
      case New(_, _, _) =>
        if FirstClaim(trace[..k], b).Some? {
          var e := EntryOfFirstClaim(trace[..k], b);
          assert false;
        }
      case Avail(_, _, _, _) =>
        var e :| e in NewEntries(trace[..k]) && TakenFrom(trace[k], e);
        FirstClaimOfEntry(trace[..k], e, b);
    }
  }

  /** Later reports, accepted or not, never change the origin of a byte. */
  lemma {:induction false} FirstClaimIsStable(trace: seq<Event>, more: seq<Event>, b: nat)
    requires FirstClaim(trace, b).Some?
    ensures FirstClaim(trace + more, b) == FirstClaim(trace, b)
  {
    if more == [] {
      assert trace + more == trace;
    } else {
      var n := |more| - 1;
      FirstClaimIsStable(trace, more[..n], b);
      assert (trace + more)[..|trace| + n] == trace + more[..n];
    }
  }

  /** Whatever is reported about a byte, afterwards it is claimed. */
  lemma {:induction false} ReportedBytesAreClaimed(trace: seq<Event>, k: nat, b: nat)
    requires TraceOk(trace) && k < |trace|
    requires trace[k].physical <= b < trace[k].physical + trace[k].report.len
    ensures FirstClaim(trace, b).Some?
  {
    hide TraceOk;
    ReportsFollowFirstClaims(trace, k, b);
    assert trace[..k + 1][..k] == trace[..k];
    assert trace == trace[..k + 1] + trace[k + 1..];
    FirstClaimIsStable(trace[..k + 1], trace[k + 1..], b);
  }

  /** Every byte of a completed call's input is inside exactly the piece that reports its position. */
  lemma {:induction false} TiledBytesAreReported(events: seq<Event>, input: MapExtent, n: nat, b: nat) returns (k: nat)
    requires Tiles(events, input, n) && input.physical <= b < input.physical + n
    ensures k < |events| && events[k].physical <= b < events[k].physical + events[k].report.len
    ensures events[k].report.pos + (b - events[k].physical) == input.logical + (b - input.physical)
  {
    k := 0;
    while events[k].physical + events[k].report.len <= b
      invariant k < |events| && events[k].physical <= b
      decreases |events| - k
    {
      assert k + 1 < |events| ==> events[k + 1].physical == events[k].physical + events[k].report.len;
      k := k + 1;
    }
    assert PieceOf(events[k], input);
  }
}
