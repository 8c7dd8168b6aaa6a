/** The stream writer (lib/fies_writer.c). */
module Writer {
  import opened Common
  import opened Protocol
  import opened ExtentMap
  import opened Replay
  import opened Files
  import opened Header
  import opened Sending

  const EIO: int := 5
  const EFAULT: int := 14
  const EINVAL: int := 22
  const ENOENT: int := 2
  const ENAMETOOLONG: int := 36
  const ELOOP: int := 40
  const ENODATA: int := 61
  const ENOTSUP: int := 95

  /** What was written completely so far, and how many writes were attempted. */
  datatype Out = Out(log: seq<Packet>, attempts: nat)

  /** Result of the n-th write to the output stream; negative when it fails. */
  type WriteResults = nat -> int

  function Put(io: WriteResults, out: Out, p: Packet): (r: (int, Out))
    ensures r.1.attempts == out.attempts + 1
    ensures r.1.log == if r.0 < 0 then out.log else out.log + [p]
  {
    var rc := io(out.attempts);
    (rc, Out(if rc < 0 then out.log else out.log + [p], out.attempts + 1))
  }

  ghost predicate Works(io: WriteResults) {
    forall n: nat :: io(n) >= 0
  }

  /** The extent types `forNew` accepts. */
  predicate Sendable(flags: nat) {
    var t := Extype(flags);
    t == FL_DATA || t == FL_ZERO || t == FL_HOLE || t == FL_HOLE + FL_ZERO
  }

  /** Nothing can go wrong with the packets of an extent; a reference file needs none. */
  /** DATA, ZERO, HOLE, and HOLE together with ZERO, whatever flags are above them. */
  lemma TypesThatAreSent(high: nat, low: nat)
    requires low < 0x100
    ensures Sendable(high * 0x100 + low) <==> low in {0x1, 0x2, 0x4, 0x6}
  {
    TypesOfFlags(high, low);
  }

  ghost predicate Able(io: WriteResults, flags: nat, ref: bool) {
    ref || (Works(io) && Sendable(flags))
  }

  // ----- the two callbacks of the extent map

  datatype Capture = Capture(fileid: nat, flags: nat, content: seq<byte>, refFile: bool)

  function SendNew(io: WriteResults, cap: Capture, out: Out, pos: nat, len: nat): (int, Out) {
    if cap.refFile then (0, out)
    else if !Sendable(cap.flags) then (-EINVAL, out)
    else if pos + len > |cap.content| then (-EIO, Out(out.log, out.attempts + 1))
    else Put(io, out, NewPacket(cap.fileid, cap.flags, cap.content, pos, len))
  }

  function SendAvail(io: WriteResults, cap: Capture, out: Out, pos: nat, len: nat, src: nat, srcPos: nat): (int, Out) {
    if cap.refFile then (0, out)
    else Put(io, out, CopyPacket(cap.fileid, pos, len, src, srcPos))
  }

  function NewCallback(io: WriteResults, cap: Capture): ForNew<Out> {
    (out: Out, pos: nat, len: nat, physical: nat) => SendNew(io, cap, out, pos, len)
  }

  function AvailCallback(io: WriteResults, cap: Capture): ForAvail<Out> {
    (out: Out, pos: nat, len: nat, src: nat, srcPos: nat) => SendAvail(io, cap, out, pos, len, src, srcPos)
  }

  /** The packets one call of the extent map leaves in the stream. */
  lemma {:induction false} DeliveredPackets(io: WriteResults, cap: Capture, out: Out, events: seq<Event>)
    requires InFile(events, cap.content)
    requires Deliver(out, events, NewCallback(io, cap), AvailCallback(io, cap)).0 >= 0
    ensures var out' := Deliver(out, events, NewCallback(io, cap), AvailCallback(io, cap)).1;
            if cap.refFile then out' == out
            else && out'.log == out.log + Packets(events, cap.fileid, cap.flags, cap.content)
                 && out'.attempts == out.attempts + |events|
  {
    if events == [] {
      assert Packets(events, cap.fileid, cap.flags, cap.content) == [];
      assert out.log + [] == out.log;
    } else {
      var k := |events| - 1;
      DeliveredPackets(io, cap, out, events[..k]);
      if !cap.refFile {
        PacketsStep(out.log, events, cap.fileid, cap.flags, cap.content);
      }
    }
  }

  /** A failing callback leaves no packet behind, and fails for a reason. */
  lemma {:induction false} FailedPackets(io: WriteResults, cap: Capture, out: Out, input: MapExtent, n: nat,
                                         events: seq<Event>, rc: int, out': Out)
    requires Failed(out, input, n, events, NewCallback(io, cap), AvailCallback(io, cap), rc, out')
    requires InFile(events, cap.content) && input.logical + input.length <= |cap.content|
    ensures out'.log == out.log + Packets(events, cap.fileid, cap.flags, cap.content)
    ensures !Able(io, cap.flags, cap.refFile)
  {
    hide Tiles, Packets, NewPacket, Deliver, InFile;
    DeliveredPackets(io, cap, out, events);
    var ev :| Tiles(events + [ev], input, n + ev.report.len) && n + ev.report.len <= input.length
              && Deliver(out, events + [ev], NewCallback(io, cap), AvailCallback(io, cap)) == (rc, out');
    DeliverStep(out, events, ev, NewCallback(io, cap), AvailCallback(io, cap));
    LastInFile(events, ev, input, n + ev.report.len, cap.content);
  }

  lemma LastInFile(events: seq<Event>, ev: Event, input: MapExtent, n: nat, content: seq<byte>)
    requires Tiles(events + [ev], input, n) && n <= input.length && input.logical + input.length <= |content|
    ensures ev.report.pos + ev.report.len <= |content|
  {
    TilesInFile(events + [ev], input, n, content);
    assert (events + [ev])[|events|] == ev;
  }

  // ----- devices

  /** A physical device of the stream, with its own extent map. */
  datatype Device = Device(id: nat, extents: EMap, isOsdev: bool, osdev: nat)

  ghost predicate TracesBacked(traces: map<nat, seq<Event>>, log: seq<Packet>) {
    forall x :: x in traces ==> AllBacked(log, NewEntries(traces[x]))
  }

  ghost predicate TracesTrue(traces: map<nat, seq<Event>>, disk: Disk, contents: map<nat, seq<byte>>,
                             done: map<nat, nat>)
  {
    forall x :: x in traces ==> ClaimsTrue(NewEntries(traces[x]), x, disk, contents, done)
  }

  /** The histories of all devices quote finished bytes of the files and of the disks. */
  ghost predicate AllTrue(traces: Histories, disks: map<nat, Disk>, contents: map<nat, seq<byte>>, done: map<nat, nat>)
  {
    forall k :: k in traces && k in disks ==> TracesTrue(traces[k], disks[k], contents, done)
  }

  lemma {:induction false} AllTrueExtended(traces: Histories, disks: map<nat, Disk>, contents: map<nat, seq<byte>>,
                                           done: map<nat, nat>, done': map<nat, nat>, dev: nat, x: nat,
                                           events: seq<Event>)
    requires AllTrue(traces, disks, contents, done) && dev in traces && dev in disks
    requires ClaimsTrue(NewEntries(TraceAt(traces[dev], x) + events), x, disks[dev], contents, done')
    requires forall f :: f in done ==> f in done' && done[f] <= done'[f]
    requires forall f :: f in done' && f in contents ==> done'[f] <= |contents[f]|
    ensures AllTrue(Extended(traces, dev, x, events), disks, contents, done')
  {
    var traces' := Extended(traces, dev, x, events);
    forall k | k in traces' && k in disks ensures TracesTrue(traces'[k], disks[k], contents, done') {
      if k == dev {
        TracesTrueStep(traces[k], disks[k], contents, done, done', x, events);
      } else {
        TracesTrueMonotone(traces[k], disks[k], contents, done, done');
      }
    }
  }

  lemma AllTrueGrow(traces: Histories, disks: map<nat, Disk>, contents: map<nat, seq<byte>>, done: map<nat, nat>,
                    dev: nat, disk: Disk)
    ensures AllTrue(traces, disks, contents, done) ==> AllTrue(traces[dev := map[]], disks[dev := disk], contents, done)
  {
  }

  lemma NewDeviceOk(dev: Device, log: seq<Packet>)
    requires dev.extents.Valid() && dev.extents.traces == map[]
    ensures DeviceOk(dev, log)
  {
  }

  lemma AllTrueShrink(traces: Histories, disks: map<nat, Disk>, contents: map<nat, seq<byte>>, done: map<nat, nat>,
                      dev: nat)
    ensures AllTrue(traces, disks, contents, done) ==> AllTrue(traces - {dev}, disks - {dev}, contents, done)
  {
  }

  lemma ClaimsBefore(traces: Histories, disks: map<nat, Disk>, contents: map<nat, seq<byte>>, done: map<nat, nat>,
                     dev: nat, x: nat)
    requires AllTrue(traces, disks, contents, done) && dev in traces && dev in disks
    ensures ClaimsTrue(NewEntries(TraceAt(traces[dev], x)), x, disks[dev], contents, done)
  {
  }

  /** The extent map is in order, and all it records is backed by the stream. */
  ghost predicate DeviceOk(dev: Device, log: seq<Packet>)
    reads dev.extents
  {
    dev.extents.Valid() && TracesBacked(dev.extents.traces, log)
  }

  lemma TracesBackedMonotone(traces: map<nat, seq<Event>>, log: seq<Packet>, more: seq<Packet>)
    requires TracesBacked(traces, log)
    ensures TracesBacked(traces, log + more)
  {
    forall x | x in traces ensures AllBacked(log + more, NewEntries(traces[x])) {
      AllBackedMonotone(log, more, NewEntries(traces[x]));
    }
  }

  lemma DeviceMonotone(dev: Device, log: seq<Packet>, more: seq<Packet>)
    requires DeviceOk(dev, log)
    ensures DeviceOk(dev, log + more)
  {
    TracesBackedMonotone(dev.extents.traces, log, more);
  }

  lemma {:induction false} TracesBackedStep(traces: map<nat, seq<Event>>, log: seq<Packet>, more: seq<Packet>, x: nat,
                                            events: seq<Event>)
    requires TracesBacked(traces, log) && AllBacked(log + more, NewEntries(TraceAt(traces, x) + events))
    ensures TracesBacked(traces[x := TraceAt(traces, x) + events], log + more)
  {
    TracesBackedMonotone(traces, log, more);
  }

  lemma TracesTrueMonotone(traces: map<nat, seq<Event>>, disk: Disk, contents: map<nat, seq<byte>>, done: map<nat, nat>,
                           done': map<nat, nat>)
    requires TracesTrue(traces, disk, contents, done)
    requires forall f :: f in done ==> f in done' && done[f] <= done'[f]
    requires forall f :: f in done' && f in contents ==> done'[f] <= |contents[f]|
    ensures TracesTrue(traces, disk, contents, done')
  {
    forall x | x in traces ensures ClaimsTrue(NewEntries(traces[x]), x, disk, contents, done') {
      ClaimsMonotone(NewEntries(traces[x]), x, disk, contents, done, done');
    }
  }

  lemma {:induction false} TracesTrueStep(traces: map<nat, seq<Event>>, disk: Disk, contents: map<nat, seq<byte>>,
                                          done: map<nat, nat>, done': map<nat, nat>, x: nat, events: seq<Event>)
    requires TracesTrue(traces, disk, contents, done)
    requires ClaimsTrue(NewEntries(TraceAt(traces, x) + events), x, disk, contents, done')
    requires forall f :: f in done ==> f in done' && done[f] <= done'[f]
    requires forall f :: f in done' && f in contents ==> done'[f] <= |contents[f]|
    ensures TracesTrue(traces[x := TraceAt(traces, x) + events], disk, contents, done')
  {
    TracesTrueMonotone(traces, disk, contents, done, done');
  }

  /** Live and free device ids are distinct and together are the ids handed out so far. */
  ghost predicate Partition(next: nat, free: seq<nat>, live: set<nat>) {
    && (forall i, j :: 0 <= i < j < |free| ==> free[i] != free[j])
    && (forall i :: 0 <= i < |free| ==> free[i] !in live)
    && (forall k: nat :: k < next <==> k in live || k in free)
  }

  ghost predicate Numbered(devices: map<nat, Device>) {
    forall k :: k in devices ==> devices[k].id == k
  }

  /** `osdevs` is exactly the inverse of the live OS devices. */
  ghost predicate Inverse(devices: map<nat, Device>, osdevs: map<nat, nat>) {
    && (forall d :: d in osdevs ==> osdevs[d] in devices && devices[osdevs[d]].isOsdev && devices[osdevs[d]].osdev == d)
    && (forall k :: k in devices && devices[k].isOsdev ==> devices[k].osdev in osdevs && osdevs[devices[k].osdev] == k)
  }

  ghost predicate IdsBelow(log: seq<Packet>, next: nat) {
    forall i :: 0 <= i < |log| && log[i].File? && FileType(log[i].mode) != M_FHARD ==> log[i].id < next
  }

  lemma PartitionReuse(next: nat, free: seq<nat>, live: set<nat>)
    requires Partition(next, free, live) && free != []
    ensures var n := |free| - 1; free[n] !in live && Partition(next, free[..n], live + {free[n]})
  {
    assert free == free[..|free| - 1] + [free[|free| - 1]];
  }

  lemma PartitionGrow(next: nat, live: set<nat>)
    requires Partition(next, [], live)
    ensures next !in live && Partition(next + 1, [], live + {next})
  {
    assert next in live || next in [] <==> next < next;
  }

  lemma PartitionRelease(next: nat, free: seq<nat>, live: set<nat>, id: nat)
    requires Partition(next, free, live) && id in live
    ensures Partition(next, free + [id], live - {id})
  {
  }

  /** Distinct devices have distinct extent maps. */
  ghost predicate Separate(devices: map<nat, Device>) {
    forall k, l :: k in devices && l in devices && k != l ==> devices[k].extents != devices[l].extents
  }

  ghost predicate TableOk(next: nat, free: seq<nat>, devices: map<nat, Device>, osdevs: map<nat, nat>) {
    && Partition(next, free, devices.Keys) && Numbered(devices)
    && Inverse(devices, osdevs) && Separate(devices)
  }

  /** Giving a device an id that is neither live nor free keeps everything but the partition. */
  lemma TableGrow(next: nat, free: seq<nat>, devices: map<nat, Device>, osdevs: map<nat, nat>, dev: Device)
    requires Numbered(devices) && Inverse(devices, osdevs) && Separate(devices)
    requires dev.id !in devices && (dev.isOsdev ==> dev.osdev !in osdevs)
    requires forall k :: k in devices ==> devices[k].extents != dev.extents
    requires Partition(next, free, devices.Keys + {dev.id})
    ensures TableOk(next, free, devices[dev.id := dev], if dev.isOsdev then osdevs[dev.osdev := dev.id] else osdevs)
  {
    InverseGrow(devices, osdevs, dev);
    assert devices[dev.id := dev].Keys == devices.Keys + {dev.id};
  }

  lemma TableSeparate(next: nat, free: seq<nat>, devices: map<nat, Device>, osdevs: map<nat, nat>)
    requires TableOk(next, free, devices, osdevs)
    ensures Separate(devices)
  {
  }

  lemma TableShrink(next: nat, free: seq<nat>, devices: map<nat, Device>, osdevs: map<nat, nat>, id: nat)
    requires TableOk(next, free, devices, osdevs) && id in devices
    ensures TableOk(next, free + [id], devices - {id},
                    if devices[id].isOsdev then osdevs - {devices[id].osdev} else osdevs)
  {
    PartitionRelease(next, free, devices.Keys, id);
    InverseShrink(devices, osdevs, id);
  }

  lemma InverseGrow(devices: map<nat, Device>, osdevs: map<nat, nat>, dev: Device)
    requires Inverse(devices, osdevs) && dev.id !in devices && (dev.isOsdev ==> dev.osdev !in osdevs)
    ensures Inverse(devices[dev.id := dev], if dev.isOsdev then osdevs[dev.osdev := dev.id] else osdevs)
  {
  }

  lemma InverseShrink(devices: map<nat, Device>, osdevs: map<nat, nat>, id: nat)
    requires Inverse(devices, osdevs) && id in devices
    ensures Inverse(devices - {id}, if devices[id].isOsdev then osdevs - {devices[id].osdev} else osdevs)
    ensures (devices - {id}).Keys == devices.Keys - {id}
  {
  }

  class FiesWriter {
    const io: WriteResults
    var out: Out
    var nextFileid: nat
    var nextDevice: nat
    var freeDevices: seq<nat>
    var devices: map<nat, Device>
    var osdevs: map<nat, nat>

    // the receiver's file system, the expected content of every file with extents, and the
    // number of its leading bytes the stream transfers so far
    ghost const env: Environment
    ghost var contents: map<nat, seq<byte>>
    ghost var done: map<nat, nat>
    // what the physical devices store
    ghost var disks: map<nat, Disk>
    // every file so far was written completely and described truthfully
    ghost var sound: bool

    ghost function EMaps(): set<object>
      reads this`devices
    {
      set k | k in devices :: devices[k].extents
    }

    /** The live devices agree with the stream, apart from how ids are managed. */
    ghost predicate StreamOk()
      reads this`out, this`nextFileid, this`devices, this`disks, this`contents, this`done, this`sound, EMaps()
    {
      && CopiesOk(out.log) && IdsBelow(out.log, nextFileid) && disks.Keys == devices.Keys
      && (forall k :: k in devices ==> DeviceOk(devices[k], out.log))
      && (sound ==> Mirrors(env, out.log, contents, done) && Complete() && ClaimsHold())
    }

    /** What holds after every call, whether writes failed or not. */
    ghost predicate Core()
      reads this`out, this`nextFileid, this`nextDevice, this`freeDevices, this`devices, this`osdevs, this`disks, EMaps()
    {
      && TableOk(nextDevice, freeDevices, devices, osdevs) && disks.Keys == devices.Keys
      && CopiesOk(out.log) && IdsBelow(out.log, nextFileid)
      && (forall k :: k in devices ==> DeviceOk(devices[k], out.log))
    }

    /** The histories of all live devices. */
    ghost function TracesNow(): Histories
      reads this`devices, EMaps()
    {
      map k | k in devices :: devices[k].extents.traces
    }

    /** All recorded extents quote finished bytes, and these are the bytes of the devices. */
    ghost predicate ClaimsHold()
      reads this`devices, this`disks, this`contents, this`done, EMaps()
    {
      AllTrue(TracesNow(), disks, contents, done)
    }

    ghost predicate Complete()
      reads this`contents, this`done
    {
      forall f :: f in done && f in contents ==> done[f] == |contents[f]|
    }

    ghost predicate Valid()
      reads this, EMaps()
    {
      TableOk(nextDevice, freeDevices, devices, osdevs) && StreamOk()
    }

    constructor (io: WriteResults, ghost env: Environment)
      ensures Valid() && sound && contents == map[]
      ensures out == Out([], 0) && devices == map[] && freeDevices == [] && nextDevice == 0 && nextFileid == 0
    {
      this.io, this.env := io, env;
      out, nextFileid, nextDevice, freeDevices, devices, osdevs := Out([], 0), 0, 0, [], map[], map[];
      contents, done, disks, sound := map[], map[], map[], true;
    }

    // ----- device ids

    /** Takes the id freed last, or the next unused one. */
    method TakeId() returns (id: nat)
      requires Partition(nextDevice, freeDevices, devices.Keys)
      modifies this`nextDevice, this`freeDevices
      ensures if old(freeDevices) != [] then id == old(freeDevices)[|old(freeDevices)| - 1]
              && nextDevice == old(nextDevice)
              else id == old(nextDevice) && nextDevice == old(nextDevice) + 1
      ensures id !in devices && Partition(nextDevice, freeDevices, devices.Keys + {id})
    {
      if |freeDevices| > 0 {
        PartitionReuse(nextDevice, freeDevices, devices.Keys);
        id := freeDevices[|freeDevices| - 1];
        freeDevices := freeDevices[..|freeDevices| - 1];
      } else {
        PartitionGrow(nextDevice, devices.Keys);
        id := nextDevice;
        nextDevice := nextDevice + 1;
      }
    }

    /** Creates a device with an empty extent map; the caller enters an OS device into `osdevs`. */
    method CreateDevice(isOsdev: bool, osdev: nat, ghost disk: Disk) returns (dev: Device)
      requires Valid() && (isOsdev ==> osdev !in osdevs)
      modifies this`nextDevice, this`freeDevices, this`devices, this`disks
      ensures dev.id !in old(devices) && devices == old(devices)[dev.id := dev] && disks == old(disks)[dev.id := disk]
      ensures dev.isOsdev == isOsdev && dev.osdev == osdev && dev.extents.traces == map[]
      ensures TableOk(nextDevice, freeDevices, devices, if isOsdev then osdevs[osdev := dev.id] else osdevs)
      ensures StreamOk()
    {
      hide StreamOk, Inverse, Separate, Numbered, Partition;
      MapsAreSeparate();
      var id := TakeId();
      var extents := new EMap();
      dev := Device(id, extents, isOsdev, osdev);
      TableGrow(nextDevice, freeDevices, devices, osdevs, dev);
      AddDevice(dev, disk);
    }

    method AddDevice(dev: Device, ghost disk: Disk)
      requires StreamOk() && dev.id !in devices && dev.extents as object != this
      requires dev.extents.Valid() && dev.extents.traces == map[]
      modifies this`devices, this`disks
      ensures StreamOk()
      ensures devices == old(devices)[dev.id := dev] && disks == old(disks)[dev.id := disk]
    {
      hide CopiesOk, Mirrors, DeviceOk, IdsBelow, AllTrue;
      MapsAreSeparate();
      NewDeviceOk(dev, out.log);
      ghost var traces := TracesNow();
      AllTrueGrow(traces, disks, contents, done, dev.id, disk);
      devices, disks := devices[dev.id := dev], disks[dev.id := disk];
      assert TracesNow() == traces[dev.id := map[]];
    }

    method NewDevice(ghost disk: Disk) returns (id: nat)
      requires Valid()
      modifies this`nextDevice, this`freeDevices, this`devices, this`disks
      ensures Valid() && id !in old(devices) && id in devices && !devices[id].isOsdev
      ensures devices[id].extents.traces == map[]
      ensures devices == old(devices)[id := devices[id]] && disks == old(disks)[id := disk]
    {
      hide TableOk, StreamOk;
      var dev := CreateDevice(false, 0, disk);
      id := dev.id;
    }

    method GetOSDevice(node: nat, create: bool, ghost disk: Disk) returns (rc: int, id: nat)
      requires Valid()
      modifies this`nextDevice, this`freeDevices, this`devices, this`disks, this`osdevs
      ensures Valid()
      ensures node in old(osdevs) ==>
                rc == 0 && id == old(osdevs)[node] && osdevs == old(osdevs)
                && devices == old(devices)
      ensures node !in old(osdevs) && !create ==> rc == -ENOENT && osdevs == old(osdevs) && devices == old(devices)
      ensures node !in old(osdevs) && create ==>
                && rc == 0 && id !in old(devices) && osdevs == old(osdevs)[node := id]
                && id in devices && devices == old(devices)[id := devices[id]] && disks == old(disks)[id := disk]
                && devices[id].extents.traces == map[]
    {
      hide TableOk, StreamOk;
      MapsAreSeparate();
      id := 0;
      if node in osdevs {
        return 0, osdevs[node];
      }
      if !create {
        return -ENOENT, 0;
      }
      var dev := CreateDevice(true, node, disk);
      MapsAreSeparate();
      osdevs := osdevs[node := dev.id];
      return 0, dev.id;
    }

    /** Forgets a device together with its extent map; its id becomes available again. */
    method CloseDevice(id: nat) returns (rc: int)
      requires Valid()
      modifies this`freeDevices, this`devices, this`disks, this`osdevs
      ensures Valid()
      ensures id !in old(devices) ==>
                rc == -ENOENT && devices == old(devices) && freeDevices == old(freeDevices)
                && osdevs == old(osdevs)
      ensures id in old(devices) ==> rc == 0 && devices == old(devices) - {id} && freeDevices == old(freeDevices) + [id]
    {
      if id !in devices {
        return -ENOENT;
      }
      hide StreamOk, TableOk, CopiesOk, IdsBelow, DeviceOk, AllTrue, Mirrors;
      MapsAreSeparate();
      TableShrink(nextDevice, freeDevices, devices, osdevs, id);
      // the destructor of the device drops its entry in `osdevs`
      if devices[id].isOsdev {
        osdevs := osdevs - {devices[id].osdev};
      }
      freeDevices := freeDevices + [id];
      RemoveDevice(id);
      return 0;
    }

    method RemoveDevice(id: nat)
      requires StreamOk() && id in devices
      modifies this`devices, this`disks
      ensures StreamOk()
      ensures devices == old(devices) - {id} && disks == old(disks) - {id}
    {
      hide CopiesOk, Mirrors, DeviceOk, IdsBelow, AllTrue;
      MapsAreSeparate();
      ghost var traces := TracesNow();
      AllTrueShrink(traces, disks, contents, done, id);
      devices, disks := devices - {id}, disks - {id};
      assert TracesNow() == traces - {id};
    }

    // ----- packets of one file

    lemma DisksAreKnown()
      requires Core()
      ensures disks.Keys == devices.Keys
    {
    }

    /** The extent maps are objects of their own, so updates of the writer leave them alone. */
    lemma MapsAreSeparate()
      ensures forall k :: k in devices ==> devices[k].extents as object != this
      ensures this !in EMaps()
    {
      forall k | k in devices ensures devices[k].extents as object != this {
        var dev := devices[k];
      }
    }

    /** Writes a packet that quotes nothing and announces no unknown id. */
    method PutPacket(p: Packet) returns (rc: int)
      requires Core()
      requires p.File? && FileType(p.mode) != M_FHARD ==> p.id < nextFileid
      requires !(p.Extent? && p.body.Source?)
      modifies this`out
      ensures Core() && (rc, out) == Put(io, old(out), p)
    {
      hide TableOk, DeviceOk, CopiesOk;
      MapsAreSeparate();
      var result := Put(io, out, p);
      CopiesStep(out.log, p);
      forall k | k in devices ensures DeviceOk(devices[k], result.1.log) {
        DeviceMonotone(devices[k], out.log, [p]);
      }
      rc, out := result.0, result.1;
    }

    ghost predicate OthersComplete(fid: nat)
      reads this`contents, this`done
    {
      forall f :: f in done && f in contents && f != fid ==> done[f] == |contents[f]|
    }

    /** The first `at` bytes of file `fid` are in the stream (all of them, for a reference file). */
    ghost predicate InProgress(fid: nat, at: nat, content: seq<byte>, ref: bool)
      reads this, EMaps()
    {
      Core() && Stands(out.log, TracesNow(), fid, at, content, ref)
    }

    /** The same, with the stream `log` and the histories `traces`. */
    ghost predicate Stands(log: seq<Packet>, traces: Histories, fid: nat, at: nat, content: seq<byte>, ref: bool)
      reads this`contents, this`done, this`sound, this`disks
    {
      && at <= |content|
      && fid in contents && contents[fid] == content
      && fid in done && done[fid] == (if ref then |content| else at)
      && Announced(log, fid, |content|)
      && (ref ==> AnnouncedReference(log, fid, |content|))
      && (sound ==> Mirrors(env, log, contents, done) && OthersComplete(fid) && AllTrue(traces, disks, contents, done))
    }

    ghost predicate ClaimsAfter(fid: nat, n: nat)
      reads this`devices, this`disks, this`contents, this`done, EMaps()
    {
      AllTrue(TracesNow(), disks, contents, Advance(done, fid, n))
    }

    lemma ClaimsGrow(fid: nat, n: nat)
      requires ClaimsHold() && fid in done && fid in contents && done[fid] <= n <= |contents[fid]|
      requires forall f :: f in done && f in contents ==> done[f] <= |contents[f]|
      ensures ClaimsAfter(fid, n)
    {
      var traces := TracesNow();
      forall k | k in traces && k in disks
        ensures TracesTrue(traces[k], disks[k], contents, Advance(done, fid, n))
      {
        TracesTrueMonotone(traces[k], disks[k], contents, done, Advance(done, fid, n));
      }
    }

    /** Bookkeeping after packets brought file `fid` to `n` bytes, truthfully or not. */
    ghost method MoveTo(fid: nat, at: nat, n: nat, content: seq<byte>, honest: bool)
      requires Core() && at <= n <= |content|
      requires fid in contents && contents[fid] == content && fid in done && done[fid] == at
      requires Announced(out.log, fid, |content|)
      requires sound && honest ==>
                 Mirrors(env, out.log, contents, Advance(done, fid, n)) && OthersComplete(fid) && ClaimsAfter(fid, n)
      modifies this`done, this`sound
      ensures InProgress(fid, n, content, false) && sound == old(sound && honest)
    {
      hide Core, Mirrors, Announced, AllTrue;
      MapsAreSeparate();
      sound := sound && honest;
      done := Advance(done, fid, n);
    }

    method SendHole(fid: nat, pos: nat, length: nat, filesize: nat, ghost content: seq<byte>) returns (rc: int)
      requires InProgress(fid, pos, content, false) && filesize == |content|
      modifies this`out, this`done, this`sound
      ensures pos + length > filesize ==> rc == -EINVAL && out == old(out)
      ensures pos + length <= filesize ==> (rc, out) == Put(io, old(out), HolePacket(fid, pos, length))
      ensures rc >= 0 ==> InProgress(fid, pos + length, content, false)
      ensures rc >= 0 ==> sound == (old(sound) && ZeroRange(content, pos, pos + length))
      ensures rc < 0 ==> Core() && !sound
    {
      hide TableOk, DeviceOk, CopiesOk, Mirrors, Announced, IdsBelow, TracesTrue;
      MapsAreSeparate();
      if pos + length > filesize {
        sound := false;
        return -EINVAL;
      }
      ghost var log := out.log;
      rc := PutPacket(HolePacket(fid, pos, length));
      if rc < 0 {
        sound := false;
        return;
      }
      ghost var honest := ZeroRange(content, pos, pos + length);
      AnnouncedMonotone(log, [HolePacket(fid, pos, length)], fid, |content|);
      if sound && honest {
        EmitNew(env, log, contents, done, fid, FL_HOLE, length);
        MirrorsBounds(env, log, contents, done);
        ClaimsGrow(fid, pos + length);
      }
      MoveTo(fid, pos, pos + length, content, honest);
    }

    /** Replaces the stream position after callbacks have written `pkts`. */
    method Commit(out': Out, ghost pkts: seq<Packet>)
      requires Core() && out'.log == out.log + pkts
      requires CopiesOk(out'.log) && IdsBelow(out'.log, nextFileid)
      modifies this`out
      ensures Core() && out == out'
    {
      hide TableOk, CopiesOk, IdsBelow, DeviceOk;
      MapsAreSeparate();
      forall k | k in devices ensures DeviceOk(devices[k], out'.log) {
        DeviceMonotone(devices[k], out.log, pkts);
      }
      Replace(out');
    }

    /** An extent that is not marked as shared is sent without consulting the extent map. */
    method SendDirect(fid: nat, at: nat, ex: FileExtent, content: seq<byte>, ref: bool)
      returns (rc: int, ghost pkts: seq<Packet>)
      requires InProgress(fid, at, content, ref)
      requires ex.logical + ex.length <= |content| && (!ref ==> ex.logical == at)
      modifies this`out, this`done, this`sound
      ensures rc >= 0 ==> InProgress(fid, if ref then at else at + ex.length, content, ref)
      ensures rc >= 0 ==> pkts == if ref then [] else [NewPacket(fid, ex.flags, content, ex.logical, ex.length)]
      ensures rc >= 0 ==> out.log == old(out.log) + pkts
      ensures rc >= 0 ==> sound == (old(sound) && (ref || TypeFits(ex.flags, content, ex.logical, ex.length)))
      ensures rc < 0 ==> Core() && !sound && !Able(io, ex.flags, ref)
    {
      hide TableOk, DeviceOk, CopiesOk, Mirrors, Announced, IdsBelow, TracesTrue;
      MapsAreSeparate();
      var result := SendNew(io, Capture(fid, ex.flags, content, ref), out, ex.logical, ex.length);
      rc := result.0;
      pkts := [];
      if ref {
        assert out.log == out.log + [];
        return;
      }
      ghost var log := out.log;
      ghost var p := NewPacket(fid, ex.flags, content, ex.logical, ex.length);
      pkts := if rc < 0 then [] else [p];
      CopiesStep(log, p);
      IdsBelowStep(log, p, nextFileid);
      assert log + [] == log;
      Commit(result.1, pkts);
      if rc < 0 {
        sound := false;
        return;
      }
      AnnouncedMonotone(log, [p], fid, |content|);
      ghost var honest := TypeFits(ex.flags, content, ex.logical, ex.length);
      if sound && honest {
        EmitNew(env, log, contents, done, fid, ex.flags, ex.length);
        MirrorsBounds(env, log, contents, done);
        ClaimsGrow(fid, at + ex.length);
      }
      MoveTo(fid, at, at + ex.length, content, honest);
    }

    /** Runs one shared extent through the extent map of device `dev`; `c` is the stream afterwards. */
    method ExtendMap(fid: nat, ex: FileExtent, content: seq<byte>, ref: bool, dev: nat, ghost traces: Histories)
      returns (rc: int, c: Out, ghost events: seq<Event>, ghost pkts: seq<Packet>)
      requires dev in devices && traces == TracesNow() && Separate(devices) && CopiesOk(out.log)
      requires forall k :: k in devices ==> DeviceOk(devices[k], out.log)
      requires Announced(out.log, fid, |content|) && (ref ==> AnnouncedReference(out.log, fid, |content|))
      requires 0 < ex.length && ex.logical + ex.length <= |content| < U64 && ex.physical + ex.length < U64
      modifies devices[dev].extents
      ensures c.log == out.log + pkts && CopiesOk(c.log)
      ensures forall k :: k in devices ==> DeviceOk(devices[k], c.log)
      ensures TracesNow() == Extended(traces, dev, ex.device, events)
      ensures Reported(io, TraceAt(traces[dev], ex.device), fid, ex, content, ref, rc, events, pkts)
    {
      hide Reported, CopiesOk, Announced, AnnouncedReference, TracesBacked;
      MapsAreSeparate();
      rc, c, events, pkts := AddShared(io, devices[dev].extents, out, fid, ex, content, ref);
      forall k | k in devices
        ensures DeviceOk(devices[k], c.log) && devices[k].extents.traces == Extended(traces, dev, ex.device, events)[k]
      {
        if k != dev {
          DeviceMonotone(devices[k], out.log, pkts);
        }
      }
    }

    method MapShared(fid: nat, ex: FileExtent, content: seq<byte>, ref: bool, dev: nat, ghost log: seq<Packet>,
                     ghost traces: Histories)
      returns (rc: int, ghost events: seq<Event>, ghost pkts: seq<Packet>)
      requires Core() && dev in devices && log == out.log && traces == TracesNow()
      requires Announced(out.log, fid, |content|) && (ref ==> AnnouncedReference(out.log, fid, |content|))
      requires 0 < ex.length && ex.logical + ex.length <= |content| < U64 && ex.physical + ex.length < U64
      modifies this`out, devices[dev].extents
      ensures Core() && TracesNow() == Extended(traces, dev, ex.device, events)
      ensures Reported(io, TraceAt(traces[dev], ex.device), fid, ex, content, ref, rc, events, pkts)
      ensures out.log == log + pkts
    {
      TableSeparate(nextDevice, freeDevices, devices, osdevs);
      hide Reported, TableOk, CopiesOk, Announced, AnnouncedReference, IdsBelow, DeviceOk, Extended, Separate,
           TraceAt;
      MapsAreSeparate();
      var c;
      rc, c, events, pkts := ExtendMap(fid, ex, content, ref, dev, traces);
      ReportedAreExtents(io, TraceAt(traces[dev], ex.device), fid, ex, content, ref, rc, events, pkts);
      IdsBelowJoin(log, pkts, nextFileid);
      Replace(c);
    }

    /** Replaces the stream position when all devices already agree with it. */
    method Replace(out': Out)
      requires TableOk(nextDevice, freeDevices, devices, osdevs) && disks.Keys == devices.Keys
      requires CopiesOk(out'.log) && IdsBelow(out'.log, nextFileid)
      requires forall k :: k in devices ==> DeviceOk(devices[k], out'.log)
      modifies this`out
      ensures Core() && out == out' && TracesNow() == old(TracesNow())
    {
      hide TableOk, CopiesOk, IdsBelow, DeviceOk;
      MapsAreSeparate();
      out := out';
    }

    /** A shared extent goes through the extent map of the file's device. */
    method SendShared(fid: nat, at: nat, ex: FileExtent, content: seq<byte>, ref: bool, dev: nat,
                      ghost traces: Histories)
      returns (rc: int, ghost events: seq<Event>, ghost pkts: seq<Packet>)
      requires InProgress(fid, at, content, ref) && dev in devices && traces == TracesNow()
      requires 0 < ex.length && ex.logical + ex.length <= |content| < U64 && ex.physical + ex.length < U64
      requires !ref ==> ex.logical == at
      modifies this`out, this`done, this`sound, devices[dev].extents
      ensures rc >= 0 ==> InProgress(fid, if ref then at else at + ex.length, content, ref)
      ensures TracesNow() == Extended(traces, dev, ex.device, events)
      ensures rc >= 0 ==> out.log == old(out.log) + pkts
      ensures Reported(io, TraceAt(traces[dev], ex.device), fid, ex, content, ref, rc, events, pkts)
      ensures rc >= 0 ==> sound == (old(sound) && SharedHonest(ex, content, ref, disks[dev]))
      ensures rc < 0 ==> Core() && !sound
    {
      hide Reported, Core, Mirrors, Announced, AnnouncedReference, AllTrue, SharedHonest, Extended;
      DisksAreKnown();
      MapsAreSeparate();
      ghost var log := out.log;
      rc, events, pkts := MapShared(fid, ex, content, ref, dev, log, traces);
      if rc < 0 {
        sound := false;
        return;
      }
      Settle(fid, at, ex, content, ref, dev, log, traces, rc, events, pkts);
    }

    /** Bookkeeping after a shared extent of file `fid` was sent. */
    ghost method Settle(fid: nat, at: nat, ex: FileExtent, content: seq<byte>, ref: bool, dev: nat, log: seq<Packet>,
                        traces: Histories, rc: int, events: seq<Event>, pkts: seq<Packet>)
      requires Core() && Stands(log, traces, fid, at, content, ref) && dev in devices && rc >= 0
      requires ex.logical + ex.length <= |content| && (!ref ==> ex.logical == at)
      requires dev in traces && TracesNow() == Extended(traces, dev, ex.device, events) && out.log == log + pkts
      requires Reported(io, TraceAt(traces[dev], ex.device), fid, ex, content, ref, rc, events, pkts)
      modifies this`done, this`sound
      ensures InProgress(fid, if ref then at else at + ex.length, content, ref)
      ensures sound == (old(sound) && SharedHonest(ex, content, ref, disks[dev]))
    {
      hide Able, Core, Mirrors, Announced, AnnouncedReference, Tiles, TraceOk, AllTrue, Packets, InFile, SharedHonest;
      DisksAreKnown();
      MapsAreSeparate();
      ghost var honest := SharedHonest(ex, content, ref, disks[dev]);
      if ref {
        assert log + pkts == log;
        if sound && honest {
          ReferenceIsTrue(env, log, traces, disks, contents, done, dev, ex, fid, events);
        }
        sound := sound && honest;
      } else {
        AnnouncedMonotone(log, pkts, fid, |content|);
        if sound && honest {
          SharedIsTrue(env, log, traces, disks, contents, done, dev, ex, fid, events);
        }
        MoveTo(fid, at, at + ex.length, content, honest);
      }
    }

    /** Sends one extent, cut at the end of the file; the result is the number of bytes it covers. */
    method SendExtent(fid: nat, at: nat, ex: FileExtent, content: seq<byte>, ref: bool, dev: nat, ghost disk: Disk,
                      ghost traces: Histories)
      returns (rc: int, ghost s: Sent)
      requires InProgress(fid, at, content, ref) && dev in devices && dev in disks && disks[dev] == disk
               && |content| < U64
      requires 0 < ex.length && ex.logical < |content| && ex.physical + ex.length < U64
      requires (!ref ==> ex.logical == at) && traces == TracesNow()
      modifies this`out, this`done, this`sound, devices[dev].extents
      ensures rc >= 0 ==> rc == Clamp(ex, |content|).length > 0 && s.ex == ex
      ensures rc >= 0 ==> InProgress(fid, if ref then at else at + rc, content, ref)
      ensures rc >= 0 ==> Lawful(traces, dev, s, fid, content) && TracesNow() == After(traces, dev, s)
      ensures rc >= 0 ==> Fitting(s, content) && out.log == old(out.log) + BodyOf(s, fid, content, ref)
      ensures rc >= 0 && old(sound) && ExtentTrue(Clamp(ex, |content|), content, ref, disk) ==> sound
      ensures rc < 0 ==> Core() && !sound && !Able(io, ex.flags, ref)
      ensures Grew(traces, TracesNow())
    {
      hide Able, InProgress, OnDisk, TypeFits, Tiles, TraceOk, Grew;
      MapsAreSeparate();
      GrewItself(traces);
      var e := Clamp(ex, |content|);
      ghost var pkts;
      s := Sent(ex, []);
      if !IsShared(ex.flags) {
        rc, pkts := SendDirect(fid, at, e, content, ref);
      } else {
        ghost var events;
        rc, events, pkts := SendShared(fid, at, e, content, ref, dev, traces);
        ExtendedGrew(traces, dev, ex.device, events);
        s := Sent(ex, events);
      }
      if rc < 0 {
        return;
      }
      return e.length, s;
    }

    lemma ReferenceMoves(fid: nat, at: nat, at': nat, content: seq<byte>)
      requires InProgress(fid, at, content, true) && at' <= |content|
      ensures InProgress(fid, at', content, true)
    {
    }

    /** The file's content stays incomplete. */
    ghost method Abandon(fid: nat, at: nat, content: seq<byte>, ref: bool)
      requires InProgress(fid, at, content, ref)
      modifies this`sound
      ensures Core() && !sound && TracesNow() == old(TracesNow())
    {
      hide Mirrors, AllTrue, Announced, AnnouncedReference, TableOk, CopiesOk, IdsBelow, DeviceOk;
      MapsAreSeparate();
      sound := false;
    }

    ghost function Now(): Moment
      reads this`out, this`devices, EMaps()
    {
      Moment(out.log, TracesNow())
    }

    /** Since `start`, stream and histories changed by exactly the extents of `sent`, which end at `at`. */
    ghost predicate Progress(start: Moment, fid: nat, at: nat, content: seq<byte>, ref: bool, dev: nat, sent: seq<Sent>)
      reads this`out, this`devices, EMaps()
    {
      && dev in start.traces && AllLawful(start.traces, dev, sent, fid, content) && AllFitting(sent, content)
      && at == EndOf(sent, |content|)
      && Now() == Moment(start.log + StreamOf(sent, fid, content, ref), AllAfter(start.traces, dev, sent))
    }

    /** A run of merged extents: the hole in front of it, then the extent itself. */
    method SendRun(fid: nat, at: nat, ex: FileExtent, content: seq<byte>, ref: bool, dev: nat, ghost disk: Disk,
                   ghost start: Moment, ghost sent: seq<Sent>)
      returns (rc: int, at': nat, ghost s: Sent)
      requires InProgress(fid, at, content, ref) && dev in devices && dev in disks && disks[dev] == disk
               && |content| < U64
      requires Progress(start, fid, at, content, ref, dev, sent)
      requires 0 < ex.length && at <= ex.logical < |content| && ex.physical + ex.length < U64
      modifies this`out, this`done, this`sound, devices[dev].extents
      ensures rc >= 0 ==> at' == Min(ex.logical + ex.length, |content|) && InProgress(fid, at', content, ref)
      ensures rc >= 0 ==> s.ex == ex && Progress(start, fid, at', content, ref, dev, sent + [s])
      ensures (rc >= 0 && old(sound) && ExtentTrue(Clamp(ex, |content|), content, ref, disk)
               && (ref || ZeroRange(content, at, ex.logical))) ==> sound
      ensures rc < 0 ==> Core() && !sound && !Able(io, ex.flags, ref)
      ensures Grew(old(TracesNow()), TracesNow())
    {
      hide InProgress, Core, ExtentTrue, ZeroRange, Lawful, AllLawful, AllFitting, Fitting, After, AllAfter, StreamOf,
           BodyOf, EndOf, Grew;
      MapsAreSeparate();
      GrewItself(TracesNow());
      at', s := at, Sent(ex, []);
      ghost var before := StreamOf(sent, fid, content, ref);
      ghost var traces := TracesNow();
      if ref {
        ReferenceMoves(fid, at, ex.logical, content);
        at' := ex.logical;
      } else if ex.logical > at' {
        var len := ex.logical - at';
        rc := SendHole(fid, at', len, |content|, content);
        if rc < 0 {
          return;
        }
        at' := at' + len;
      }
      ghost var gap := GapOf(fid, at, ex.logical, ref);
      assert out.log == start.log + before + gap by {
        assert start.log + before + [] == start.log + before;
      }
      rc, s := SendExtent(fid, at', ex, content, ref, dev, disk, traces);
      if rc < 0 {
        return;
      }
      if ref {
        ReferenceMoves(fid, at', at' + rc, content);
      }
      at' := at' + rc;
      SentStep(start.traces, dev, sent, s, fid, content, ref);
      ConcatFour(start.log, before, gap, BodyOf(s, fid, content, ref));
    }

    /** Merges the extents from `pi` on into one run and sends it; `i` is the first extent after the run. */
    method SendMerged(fid: nat, at: nat, exbuf: array<FileExtent>, pi: nat, count: nat, content: seq<byte>, ref: bool,
                      dev: nat, ghost from: nat, ghost batch: seq<FileExtent>, ghost disk: Disk, ghost start: Moment,
                      ghost sent: seq<Sent>)
      returns (rc: int, i: nat, at': nat, ghost s: Sent)
      requires InProgress(fid, at, content, ref) && dev in devices && dev in disks && disks[dev] == disk
               && |content| < U64
      requires Progress(start, fid, at, content, ref, dev, sent)
      requires pi < count <= exbuf.Length && count == |batch| && exbuf[pi..count] == batch[pi..]
      requires BatchOk(batch, from, |content|) && at == Frontier(batch, pi, from, |content|)
      requires Stops(batch, pi)
      modifies this`out, this`done, this`sound, devices[dev].extents, exbuf
      ensures rc >= 0 ==> pi < i <= count && exbuf[i..count] == batch[i..] && Stops(batch, i)
      ensures rc >= 0 ==> from <= at < at' == Frontier(batch, i, from, |content|) && InProgress(fid, at', content, ref)
      ensures rc >= 0 ==> Runs(batch[..i]) == Runs(batch[..pi]) + [s.ex]
      ensures rc >= 0 ==> Progress(start, fid, at', content, ref, dev, sent + [s])
      ensures rc >= 0 && old(sound) && BatchTrue(batch, from, content, ref, disk) ==> sound
      ensures rc < 0 ==> Core() && !sound && !BatchAble(io, batch, ref)
      ensures Grew(old(TracesNow()), TracesNow())
    {
      hide Grew, Able, InProgress, Progress, Core, ExtentTrue, IsRun, BatchOk, BatchTrue, ZeroRange, Runs, Joins,
           BatchAble, Stops;
      MapsAreSeparate();
      ghost var before := exbuf[..];
      i := MergeExtents(exbuf, pi, count);
      RunOfBatch(exbuf[pi], before, batch, pi, i);
      BatchRunBounds(exbuf[pi], batch, pi, i, from, |content|);
      RunStops(exbuf[pi], before, batch, pi, i, from, |content|);
      if BatchAble(io, batch, ref) {
        RunIsAble(io, exbuf[pi], batch, pi, i, ref);
      }
      if BatchTrue(batch, from, content, ref, disk) {
        RunNeedsTruth(exbuf[pi], batch, pi, i, from, content, ref, disk);
      }
      rc, at', s := SendRun(fid, at, exbuf[pi], content, ref, dev, disk, start, sent);
      i := i + 1;
      RestOfBatch(before, exbuf[..], batch, pi, i, count);
    }

    /** Sends all runs of one batch. */
    method SendBatch(fid: nat, from: nat, exbuf: array<FileExtent>, count: nat, content: seq<byte>, ref: bool, dev: nat,
                     ghost batch: seq<FileExtent>, ghost disk: Disk, ghost start: Moment, ghost before: seq<Sent>)
      returns (rc: int, at: nat, ghost sent: seq<Sent>)
      requires InProgress(fid, from, content, ref) && dev in devices && dev in disks && disks[dev] == disk
               && |content| < U64
      requires Progress(start, fid, from, content, ref, dev, before)
      requires 0 < count <= exbuf.Length && count == |batch| && exbuf[..count] == batch
      requires BatchOk(batch, from, |content|)
      modifies this`out, this`done, this`sound, devices[dev].extents, exbuf
      ensures rc >= 0 ==> from < at == Frontier(batch, count, from, |content|) && InProgress(fid, at, content, ref)
      ensures rc >= 0 ==>
                Progress(start, fid, at, content, ref, dev, sent)
                && Extents(sent) == Extents(before) + Runs(batch)
      ensures rc >= 0 && old(sound) && BatchTrue(batch, from, content, ref, disk) ==> sound
      ensures rc < 0 ==> Core() && !sound && !BatchAble(io, batch, ref)
      ensures Grew(old(TracesNow()), TracesNow())
    {
      hide Grew, InProgress, Progress, Core, BatchOk, BatchTrue, Runs, Joins, BatchAble;
      rc, at, sent := 0, from, before;
      GrewItself(TracesNow());
      ghost var honest := sound && BatchTrue(batch, from, content, ref, disk);
      NoRuns(batch, before);
      var i := 0;
      while i != count
        invariant 0 <= i <= count && rc >= 0
        invariant exbuf[i..count] == batch[i..] && Stops(batch, i)
        invariant at == Frontier(batch, i, from, |content|) && from <= at && (i > 0 ==> from < at)
        invariant InProgress(fid, at, content, ref)
        invariant Progress(start, fid, at, content, ref, dev, sent)
        invariant Extents(sent) == Extents(before) + Runs(batch[..i])
        invariant honest ==> sound
        invariant Grew(old(TracesNow()), TracesNow())
        decreases count - i
      {
        ghost var s, pi, traces;
        pi, traces := i, TracesNow();
        rc, i, at, s := SendMerged(fid, at, exbuf, i, count, content, ref, dev, from, batch, disk, start, sent);
        GrewOn(old(TracesNow()), traces, TracesNow());
        if rc < 0 {
          return;
        }
        MoreRuns(before, sent, s, Runs(batch[..pi]));
        sent := sent + [s];
      }
      assert batch[..count] == batch;
    }

    /** The file's answer arrives in the buffer, and is sent. */
    method SendAnswer(fid: nat, from: nat, exbuf: array<FileExtent>, batch: seq<FileExtent>, content: seq<byte>,
                      ref: bool, dev: nat, ghost disk: Disk, ghost start: Moment, ghost before: seq<Sent>)
      returns (rc: int, at: nat, ghost sent: seq<Sent>)
      requires InProgress(fid, from, content, ref) && dev in devices && dev in disks && disks[dev] == disk
               && |content| < U64
      requires Progress(start, fid, from, content, ref, dev, before)
      requires 0 < |batch| <= exbuf.Length && BatchOk(batch, from, |content|)
      modifies this`out, this`done, this`sound, devices[dev].extents, exbuf
      ensures rc >= 0 ==> from < at == Frontier(batch, |batch|, from, |content|) && InProgress(fid, at, content, ref)
      ensures rc >= 0 ==>
                Progress(start, fid, at, content, ref, dev, sent)
                && Extents(sent) == Extents(before) + Runs(batch)
      ensures rc >= 0 && old(sound) && BatchTrue(batch, from, content, ref, disk) ==> sound
      ensures rc < 0 ==> Core() && !sound && !BatchAble(io, batch, ref)
      ensures Grew(old(TracesNow()), TracesNow())
    {
      hide Grew, InProgress, Progress, Core, BatchOk, BatchTrue, Runs, BatchAble, Extents, Frontier;
      MapsAreSeparate();
      forall i | 0 <= i < |batch| {
        exbuf[i] := batch[i];
      }
      rc, at, sent := SendBatch(fid, from, exbuf, |batch|, content, ref, dev, batch, disk, start, before);
    }

    /** Asks the file for batches of extents until all of it is described, and sends them. */
    method SendExtents(fid: nat, next: NextExtents, content: seq<byte>, ref: bool, dev: nat, ghost disk: Disk,
                       ghost start: Moment)
      returns (rc: int, at: nat, ghost sent: seq<Sent>)
      requires InProgress(fid, 0, content, ref) && dev in devices && dev in disks && disks[dev] == disk
               && |content| < U64
      requires NextOk(next, |content|) && start == Now()
      modifies this`out, this`done, this`sound, devices[dev].extents
      ensures rc >= 0 ==> at <= |content| && InProgress(fid, at, content, ref)
      ensures rc >= 0 ==>
                Progress(start, fid, at, content, ref, dev, sent)
                && Extents(sent) == Listing(next, 0, 0, |content|)
      ensures rc >= 0 && old(sound) && NextTrue(next, content, ref, disk) ==>
                sound && (ref || ZeroRange(content, at, |content|))
      ensures rc < 0 ==> Core() && !sound && !NextAble(io, next, |content|, ref)
      ensures Grew(old(TracesNow()), TracesNow())
    {
      hide Grew, InProgress, Progress, Core, BatchOk, BatchTrue, ZeroRange, NextTrue, Listing, NextAble;
      MapsAreSeparate();
      GrewItself(TracesNow());
      rc, at, sent := 0, 0, [];
      ghost var honest := sound && NextTrue(next, content, ref, disk);
      NothingLeft(content);
      ProgressStarts(start, fid, content, ref, dev);
      var exbuf := new FileExtent[EXTENT_BUFFER](_ => FileExtent(0, 0, 0, 0, 0));
      var filesize := |content|;
      var calls := 0;
      while at != filesize
        invariant at <= filesize && rc >= 0
        invariant InProgress(fid, at, content, ref)
        invariant Progress(start, fid, at, content, ref, dev, sent)
        invariant Extents(sent) + Listing(next, calls, at, filesize) == Listing(next, 0, 0, filesize)
        invariant honest ==> sound
        invariant Grew(old(TracesNow()), TracesNow())
        decreases filesize - at
      {
        var answer := next(calls, at);
        if honest && answer.Batch? {
          NextIsTrue(next, calls, at, content, ref, disk);
        }
        NextIsAble(io, next, calls, at, filesize, ref);
        ListingStep(next, calls, at, filesize);
        if answer.NextError? {
          Abandon(fid, at, content, ref);
          return answer.rc, at, sent;
        }
        var count := |answer.extents|;
        BatchFits(answer.extents, at, filesize);
        if count == 0 {
          break;
        }
        ghost var more;
        ghost var traces := TracesNow();
        rc, at, more := SendAnswer(fid, at, exbuf, answer.extents, content, ref, dev, disk, start, sent);
        GrewOn(old(TracesNow()), traces, TracesNow());
        if rc < 0 {
          return;
        }
        calls := calls + 1;
        ListingJoin(Extents(sent), Runs(answer.extents), Listing(next, calls, at, filesize));
        sent := more;
      }
      ListingEnds(next, calls, at, filesize);
      ListingJoin(Extents(sent), [], []);
    }

    lemma ProgressStarts(start: Moment, fid: nat, content: seq<byte>, ref: bool, dev: nat)
      requires start == Now() && dev in devices
      ensures Progress(start, fid, 0, content, ref, dev, [])
    {
      NothingSent(start.traces, dev, fid, content, ref);
      assert start.log + [] == start.log;
    }

    // ----- whole files

    method SendFileHeader(file: FiesFile, fid: nat, mode: nat, link: seq<byte>) returns (rc: int)
      requires Core() && (FileType(mode) != M_FHARD ==> fid < nextFileid)
      requires file.Ok() && (IsSpecial(file) ==> link == [])
      modifies this`out
      ensures Core()
      ensures rc >= 0 ==> out.log == old(out.log) + [File(fid, mode, |file.content|, file.name, link, NumbersOf(file))]
      ensures rc >= 0 && FileType(file.mode) in {0x2000, 0x6000} ==>
                file.getDevice.Numbers?
                && out.log[|old(out.log)|].node == Some(NodeId(file.getDevice.node.major, file.getDevice.node.minor))
      ensures rc < 0 ==> out.log == old(out.log) && !(Works(io) && HasNumbers(file))
      ensures rc >= 0 ==> HasNumbers(file)
    {
      if IsSpecial(file) {
        if file.getDevice.NoGetDevice? {
          return -ENOTSUP;
        }
        if file.getDevice.DeviceError? {
          return file.getDevice.rc;
        }
      }
      rc := PutPacket(File(fid, mode, |file.content|, file.name, link, NumbersOf(file)));
    }

    /** Sends the announcement of a new file with its metadata; xattrs the stream refuses are skipped. */
    method SendFileMeta(file: FiesFile, fid: nat, link: seq<byte>) returns (rc: int, ghost metas: seq<Packet>)
      requires Core() && fid < nextFileid && file.Ok() && (IsSpecial(file) ==> link == [])
      modifies this`out
      ensures Core()
      ensures rc >= 0 ==>
                out.log
                == old(out.log) + Announcement(fid, file.mode, |file.content|, file.name, link, NumbersOf(file), metas)
      ensures rc >= 0 ==> MetasOf(metas, fid, file) && (Works(io) ==> metas == AllMetas(file, fid))
      ensures rc >= 0 && Works(io) ==> TellsAll(metas, fid, file)
      ensures Works(io) ==> (rc >= 0 <==> HasNumbers(file) && XAttrsTold(file))
    {
      hide Core, MetasOf, MetaOf, Readable, TellsAll, XAttrsFault, NumbersOf, HasNumbers, AllMetas;
      MetasStart(fid, file);
      AllMetasTell(file, fid);
      metas := [];
      ghost var log := out.log;
      rc := SendFileHeader(file, fid, file.mode, link);
      if rc < 0 {
        return;
      }
      ghost var head := [File(fid, file.mode, |file.content|, file.name, link, NumbersOf(file))];
      rc, metas := SendMeta(file, fid, MetaOwner(file.uid, file.gid), log + head, metas);
      if rc < 0 && rc != -ENOTSUP {
        return;
      }
      rc, metas := SendMeta(file, fid, MetaTime(file.secs, file.nsecs), log + head, metas);
      if rc < 0 && rc != -ENOTSUP {
        return;
      }
      rc, metas := SendXAttrs(file, fid, log + head, metas);
      if rc < 0 && rc != -ENOTSUP {
        return;
      }
      rc := PutPacket(Meta(fid, MetaEnd));
      assert log + head + metas + [Meta(fid, MetaEnd)] == log + (head + metas + [Meta(fid, MetaEnd)]);
    }

    /** Sends the extended attributes up to the first one that cannot be read or sent. */
    method SendXAttrs(file: FiesFile, fid: nat, ghost before: seq<Packet>, ghost metas: seq<Packet>)
      returns (rc: int, ghost metas': seq<Packet>)
      requires Core() && file.Ok() && MetasOf(metas, fid, file) && out.log == before + metas
      modifies this`out
      ensures Core() && MetasOf(metas', fid, file) && out.log == before + metas'
      ensures Works(io) && metas == MetasUpTo(file, fid, 0) ==> metas' == AllMetas(file, fid)
      ensures Works(io) ==> if XAttrsFault(file) < 0 then rc == XAttrsFault(file) else rc >= 0
    {
      hide Core, MetaOf, MetasOf;
      rc, metas' := 0, metas;
      if file.xattrs.ListError? {
        return file.xattrs.rc, metas';
      }
      var i := 0;
      while i != |file.Entries()|
        invariant 0 <= i <= |file.Entries()| && Core() && rc >= 0
        invariant out.log == before + metas' && MetasOf(metas', fid, file)
        invariant Works(io) && metas == MetasUpTo(file, fid, 0) ==> metas' == MetasUpTo(file, fid, i)
        invariant forall k :: 0 <= k < i ==> !IsFault(file.Entries()[k])
        decreases |file.Entries()| - i
      {
        var (name, answer) := file.Entries()[i];
        if IsFault(file.Entries()[i]) {
          FirstFault(file.Entries(), i);
          return answer.rc, metas';
        }
        XAttrIsMeta(file, i);
        if name != [] && answer.Value? {
          rc, metas' := SendMeta(file, fid, MetaXAttr(name, answer.data), before, metas');
          if rc < 0 {
            return;
          }
        }
        i := i + 1;
      }
      NoFault(file.Entries());
    }

    method SendMeta(file: FiesFile, fid: nat, m: MetaBody, ghost before: seq<Packet>, ghost metas: seq<Packet>)
      returns (rc: int, ghost metas': seq<Packet>)
      requires Core() && MetasOf(metas, fid, file) && MetaOf(m, file) && out.log == before + metas
      modifies this`out
      ensures Core() && MetasOf(metas', fid, file) && out.log == before + metas'
      ensures Works(io) ==> rc >= 0 && metas' == metas + [Meta(fid, m)]
    {
      hide Core, MetaOf;
      rc := PutPacket(Meta(fid, m));
      metas' := if rc < 0 then metas else metas + [Meta(fid, m)];
    }

    lemma CoreIsValid()
      requires Core()
      requires sound ==> Mirrors(env, out.log, contents, done) && Complete() && ClaimsHold()
      ensures Valid()
    {
    }

    lemma ValidIsCore()
      requires Valid()
      ensures Core()
      ensures sound ==> Mirrors(env, out.log, contents, done) && Complete() && ClaimsHold()
    {
    }

    lemma FreshId()
      requires Core() && sound && Mirrors(env, out.log, contents, done)
      ensures nextFileid !in Run(env, out.log).state.files && nextFileid !in contents
    {
      KnownFilesAreAnnounced(env, out.log, nextFileid);
    }

    /** Bookkeeping for a file that was announced by `pkts`, which the stream ends with. */
    ghost method Track(file: FiesFile, fid: nat, link: seq<byte>, ref: bool, log: seq<Packet>, pkts: seq<Packet>,
                       metas: seq<Packet>)
      requires Core() && out.log == log + pkts && file.Ok() && 0 !in link
      requires ref ==> FileType(file.mode) == M_FREG && |file.name| <= 0xFFFF
      requires pkts == HeaderOf(file, fid, link, ref, metas) && (!ref ==> MetasOf(metas, fid, file))
      requires sound ==>
                Mirrors(env, log, contents, done) && Complete() && ClaimsHold()
                && fid !in Run(env, log).state.files
      modifies this`contents, this`done, this`sound
      ensures FileType(file.mode) == M_FREG ==>
                InProgress(fid, 0, file.content, ref) && contents == old(contents)[fid := file.content]
      ensures FileType(file.mode) != M_FREG ==> Valid() && contents == old(contents)
      ensures Announced(out.log, fid, |file.content|) || FileType(file.mode) == M_FHARD
      ensures sound == (old(sound) && AnnouncementFits(file, link, ref, env))
    {
      hide Core, Mirrors, AllTrue, NamesFit, Announced, AnnouncedReference, MetasOf;
      MapsAreSeparate();
      HeaderAnnounces(log, file, fid, link, ref, metas);
      var regular := FileType(file.mode) == M_FREG;
      var honest := sound && AnnouncementFits(file, link, ref, env);
      if honest {
        NotTracked(env, log, contents, done, fid);
        if ref {
          ReferenceFileAccepted(env, log, contents, done, fid, file.content, file.name);
        } else {
          MetasOfFit(metas, fid, file);
          if regular {
            RegularFileAccepted(env, log, contents, done, fid, file.mode, file.content, file.name, link,
                                NumbersOf(file), metas);
          } else {
            OtherFileAccepted(env, log, contents, done, fid, file.mode, |file.content|, file.name, link,
                              NumbersOf(file), metas);
          }
        }
        AllTrueNewFile(TracesNow(), disks, contents, done, fid, file.content, if ref then |file.content| else 0);
      }
      sound := honest;
      if regular {
        contents, done := contents[fid := file.content], done[fid := if ref then |file.content| else 0];
      } else {
        CoreIsValid();
      }
    }

    /** Registers a file under the next id and announces it. */
    method BeginFile(file: FiesFile, link: seq<byte>, ref: bool) returns (rc: int, fid: nat, ghost metas: seq<Packet>)
      requires Valid() && file.Ok() && 0 !in link && FileType(file.mode) != M_FHARD && (IsSpecial(file) ==> link == [])
      requires ref ==> FileType(file.mode) == M_FREG && |file.name| <= 0xFFFF
      modifies this`out, this`nextFileid, this`contents, this`done, this`sound, file`fileid
      ensures fid == old(nextFileid) && nextFileid == fid + 1 && file.fileid == fid
      ensures rc < 0 ==> Core() && !sound && contents == old(contents) && !(Works(io) && Describable(file, ref))
      ensures rc >= 0 && Works(io) && !ref ==> metas == AllMetas(file, fid)
      ensures rc >= 0 && FileType(file.mode) == M_FREG ==>
                InProgress(fid, 0, file.content, ref) && contents == old(contents)[fid := file.content]
      ensures rc >= 0 && FileType(file.mode) != M_FREG ==> Valid() && contents == old(contents)
      ensures rc >= 0 ==> Announced(out.log, fid, |file.content|)
      ensures rc >= 0 ==>
                out.log == old(out.log) + HeaderOf(file, fid, link, ref, metas)
                && (!ref ==> MetasOf(metas, fid, file))
      ensures rc >= 0 ==> sound == (old(sound) && AnnouncementFits(file, link, ref, env))
    {
      hide Valid, Core, Mirrors, AllTrue, NamesFit, Announced, AnnouncedReference, MetasOf, InProgress,
           AnnouncementFits;
      ValidIsCore();
      MapsAreSeparate();
      if sound {
        FreshId();
      }
      ghost var log := out.log;
      fid := RegisterFile(file);
      metas := [];
      if ref {
        rc := SendFileHeader(file, fid, M_FREF, []);
      } else {
        rc, metas := SendFileMeta(file, fid, link);
      }
      if rc < 0 {
        sound := false;
        return;
      }
      Track(file, fid, link, ref, log, HeaderOf(file, fid, link, ref, metas), metas);
    }

    method RegisterFile(file: FiesFile) returns (fid: nat)
      requires Core()
      modifies this`nextFileid, file`fileid
      ensures Core() && fid == old(nextFileid) == file.fileid && nextFileid == fid + 1
    {
      hide TableOk, CopiesOk, DeviceOk;
      MapsAreSeparate();
      fid := nextFileid;
      nextFileid := nextFileid + 1;
      file.fileid := fid;
    }

    lemma KnownFile(fid: nat, size: nat)
      requires Announced(out.log, fid, size) && Run(env, out.log).Ok?
      ensures fid in Run(env, out.log).state.files
    {
      KnownFilesAreAnnounced(env, out.log, fid);
    }

    /** Ends a file whose content is in the stream. */
    method SendFileEnd(fid: nat, ghost size: nat) returns (rc: int)
      requires Valid() && Announced(out.log, fid, size)
      modifies this`out, this`sound
      ensures Valid()
      ensures rc >= 0 ==> out.log == old(out.log) + [FileEnd(fid)] && sound == old(sound)
      ensures rc < 0 ==> !sound && !Works(io)
    {
      hide TableOk, CopiesOk, DeviceOk, IdsBelow, Mirrors, AllTrue, Announced;
      MapsAreSeparate();
      ghost var log := out.log;
      if sound {
        MirrorsRun(env, log, contents, done);
        KnownFile(fid, size);
        FileEndAccepted(env, log, contents, done, fid);
      }
      rc := PutPacket(FileEnd(fid));
      sound := sound && rc >= 0;
      CoreIsValid();
    }

    lemma FinishedIsValid(fid: nat, at: nat, content: seq<byte>, ref: bool)
      requires InProgress(fid, at, content, ref) && (ref || at == |content|)
      ensures Valid() && Announced(out.log, fid, |content|)
    {
    }

    lemma InProgressIsAnnounced(fid: nat, at: nat, content: seq<byte>, ref: bool)
      requires InProgress(fid, at, content, ref)
      ensures Announced(out.log, fid, |content|)
    {
    }

    /** The hole for the rest of a file whose extents ended early. */
    method SendTail(fid: nat, pos: nat, filesize: nat, ref: bool, ghost content: seq<byte>)
      returns (ghost tailFailed: bool)
      requires InProgress(fid, pos, content, ref) && filesize == |content|
      modifies this`out, this`done, this`sound
      ensures Valid() && Announced(out.log, fid, filesize)
      ensures out.log == old(out.log) + if tailFailed then [] else GapOf(fid, pos, filesize, ref)
      ensures tailFailed ==> !ref && pos < filesize && !Works(io)
      ensures !tailFailed && old(sound) && (ref || ZeroRange(content, pos, filesize)) ==> sound
    {
      hide Valid, Core, InProgress, ZeroRange, Announced, AnnouncedReference, Mirrors, AllTrue;
      MapsAreSeparate();
      InProgressIsAnnounced(fid, pos, content, ref);
      tailFailed := false;
      assert out.log + [] == out.log;
      if ref || pos >= filesize {
        InProgressIsBounded(fid, pos, content, ref);
        FinishedIsValid(fid, pos, content, ref);
        return;
      }
      var rc := SendHole(fid, pos, filesize - pos, filesize, content);
      if rc < 0 {
        // the source replaces this result by the result of the end packet
        tailFailed := true;
        CoreIsValid();
      } else {
        FinishedIsValid(fid, filesize, content, ref);
      }
    }

    lemma InProgressIsBounded(fid: nat, at: nat, content: seq<byte>, ref: bool)
      requires InProgress(fid, at, content, ref)
      ensures at <= |content|
    {
    }

    /** The content of a regular or reference file: its extents, a hole for the rest, the end packet. */
    method WriteContent(file: FiesFile, fid: nat, next: NextExtents, ref: bool, ghost start: Moment)
      returns (rc: int, ghost sent: seq<Sent>, ghost tailFailed: bool)
      requires InProgress(fid, 0, file.content, ref) && file.device in devices && file.device in disks
      requires |file.content| < U64 && NextOk(next, |file.content|) && start == Now()
      modifies this`out, this`done, this`sound, devices[file.device].extents
      ensures Valid()
      ensures rc >= 0 ==> AllFitting(sent, file.content) && Listed(start.traces, file, fid, next, sent)
      ensures rc >= 0 ==> out.log == start.log + ContentOf(sent, fid, file.content, ref, tailFailed) + [FileEnd(fid)]
      ensures tailFailed ==> !ref && EndOf(sent, |file.content|) < |file.content| && !Works(io)
      ensures rc >= 0 && old(sound) && NextTrue(next, file.content, ref, disks[file.device]) && !tailFailed ==> sound
      ensures rc < 0 ==> !Works(io) || !NextAble(io, next, |file.content|, ref)
      ensures Grew(start.traces, TracesNow())
    {
      hide Grew, Valid, Core, InProgress, NextTrue, ZeroRange, Announced, AnnouncedReference, Mirrors, AllTrue,
           NextOk, NextAble, AllLawful, AllFitting, Listing, StreamOf, AllAfter;
      MapsAreSeparate();
      var at;
      rc, at, sent := SendExtents(fid, next, file.content, ref, file.device, disks[file.device], start);
      tailFailed := false;
      if rc < 0 {
        CoreIsValid();
        return;
      }
      ghost var log := out.log;
      tailFailed := SendTail(fid, at, |file.content|, ref, file.content);
      rc := SendFileEnd(fid, |file.content|);
      ConcatAssoc(start.log, StreamOf(sent, fid, file.content, ref),
                  if tailFailed then [] else GapOf(fid, at, |file.content|, ref));
    }

    /** All extents the file lists were sent, and the map of its device knows the shared ones. */
    ghost predicate Listed(traces: Histories, file: FiesFile, fid: nat, next: NextExtents, sent: seq<Sent>)
      reads this`devices, EMaps()
    {
      && NextOk(next, |file.content|) && Extents(sent) == Listing(next, 0, 0, |file.content|)
      && file.device in traces && AllLawful(traces, file.device, sent, fid, file.content)
      && TracesNow() == AllAfter(traces, file.device, sent)
    }

    /** What a call that wrote `file` did to the histories, compared with `traces` before. */
    ghost predicate Transferred(traces: Histories, file: FiesFile, sent: seq<Sent>)
      reads this`devices, EMaps(), file`fileid
    {
      if FileType(file.mode) == M_FREG then file.next.Some? && Listed(traces, file, file.fileid, file.next.value, sent)
      else sent == [] && TracesNow() == traces
    }

    /** A further name of a file that was written before. */
    method WriteHardlink(file: FiesFile) returns (rc: int)
      requires Valid() && file.Ok() && FileType(file.mode) == M_FHARD && |file.name| <= 0xFFFF
      modifies this`out, this`sound
      ensures Valid()
      ensures rc >= 0 ==> out.log == old(out.log) + [File(file.fileid, file.mode, |file.content|, file.name, [], None)]
      ensures rc < 0 ==> !Works(io)
      ensures rc >= 0 && old(sound) && (exists size :: Announced(old(out.log), file.fileid, size)) ==> sound
    {
      hide TableOk, CopiesOk, DeviceOk, IdsBelow, Mirrors, AllTrue, Announced;
      MapsAreSeparate();
      ghost var log := out.log;
      ghost var known := exists size :: Announced(log, file.fileid, size);
      if sound && known {
        var size :| Announced(log, file.fileid, size);
        MirrorsRun(env, log, contents, done);
        KnownFile(file.fileid, size);
        HardlinkAccepted(env, log, contents, done, file.fileid, file.mode, |file.content|, file.name);
      }
      rc := SendFileHeader(file, file.fileid, file.mode, []);
      sound := sound && known && rc >= 0;
      CoreIsValid();
    }

    /** The checks made before anything is written; zero when the file may be written. */
    function Refusal(file: FiesFile, ref: bool): (rc: int)
      reads this`devices
      ensures rc in {0, -EFAULT, -EINVAL, -ELOOP, -ENAMETOOLONG}
      ensures rc == 0 <==>
                && file.device in devices && FileType(file.mode) != 0 && |file.name| <= 0xFFFF
                && (file.link.Some? <==> FileType(file.mode) == M_FLNK)
                && (file.link.Some? ==> |file.link.value| <= 0xFFFF)
                && (ref ==> FileType(file.mode) == M_FREG)
      ensures rc == -EFAULT ==> file.device !in devices
      ensures rc == -EINVAL ==> FileType(file.mode) == 0 || (ref && (file.link.Some? || FileType(file.mode) != M_FREG))
      ensures rc == -ELOOP ==> file.link.Some? != (FileType(file.mode) == M_FLNK)
      ensures rc == -ENAMETOOLONG ==> |file.name| > 0xFFFF || (file.link.Some? && |file.link.value| > 0xFFFF)
    {
      var t := FileType(file.mode);
      if ref && file.link.Some? then -EINVAL
      else if file.device !in devices then -EFAULT
      else if t == 0 then -EINVAL
      else if ref && t != M_FREG then -EINVAL
      else if file.link.Some? && t != M_FLNK then -ELOOP
      else if file.link.None? && t == M_FLNK then -ELOOP
      else if |file.name| > 0xFFFF then -ENAMETOOLONG
      else if file.link.Some? && |file.link.value| > 0xFFFF then -ENAMETOOLONG
      else 0
    }

    /** Everything after the checks for a file that gets a new id. */
    method WriteNewFile(file: FiesFile, link: seq<byte>, ref: bool)
      returns (rc: int, ghost metas: seq<Packet>, ghost sent: seq<Sent>, ghost tailFailed: bool)
      requires Valid() && file.Ok() && 0 !in link && FileType(file.mode) != M_FHARD && file.device in devices
      requires IsSpecial(file) ==> link == []
      requires ref ==> FileType(file.mode) == M_FREG && |file.name| <= 0xFFFF
      modifies this`out, this`nextFileid, this`contents, this`done, this`sound, file`fileid,
               devices[file.device].extents
      ensures Valid() && file.fileid == old(nextFileid) && nextFileid == old(nextFileid) + 1
      ensures rc >= 0 ==> AllFitting(sent, file.content) && Transferred(old(TracesNow()), file, sent)
      ensures rc >= 0 ==> out.log == old(out.log) + HeaderOf(file, file.fileid, link, ref, metas)
                                     + ExtentPackets(file, file.fileid, ref, sent, tailFailed) + [FileEnd(file.fileid)]
      ensures rc >= 0 && !ref ==> MetasOf(metas, file.fileid, file)
      ensures rc >= 0 && !ref && Works(io) ==> metas == AllMetas(file, file.fileid)
      ensures tailFailed ==> !ref && EndOf(sent, |file.content|) < |file.content| && !Works(io)
      ensures rc >= 0 ==>
                contents == if FileType(file.mode) == M_FREG then old(contents)[file.fileid := file.content]
                            else old(contents)
      ensures rc >= 0 && old(sound) && !tailFailed ==>
                AnnouncementFits(file, link, ref, env) && ExtentsFit(file, ref) ==> sound
      ensures rc < 0 ==> !Writable(io, file, ref)
      ensures Grew(old(TracesNow()), TracesNow())
    {
      hide Grew, Valid, Core, InProgress, NextTrue, Announced, AnnouncedReference, AnnouncementFits, HeaderOf,
           MetasOf, MetasUpTo, NextOk, AllFitting, Listed, NextAble, ContentOf, Works;
      MapsAreSeparate();
      KnownDisk(file.device);
      NothingFits(file.content);
      sent, tailFailed := [], false;
      ghost var traces := TracesNow();
      GrewItself(traces);
      var fid;
      rc, fid, metas := BeginFile(file, link, ref);
      if rc < 0 {
        CoreIsValid();
        return;
      }
      assert TracesNow() == traces;
      if FileType(file.mode) != M_FREG {
        ghost var log := out.log;
        assert log + [] == log;
        rc := SendFileEnd(fid, |file.content|);
        return;
      }
      if file.next.None? {
        Abandon(fid, 0, file.content, ref);
        CoreIsValid();
        rc := -ENOTSUP;
        return;
      }
      rc, sent, tailFailed := WriteContent(file, fid, file.next.value, ref, Now());
    }

    lemma KnownDisk(dev: nat)
      requires Valid() && dev in devices
      ensures dev in disks
    {
    }

    /** The file's extents are truthful about the device it is on. */
    ghost predicate ExtentsFit(file: FiesFile, ref: bool)
      reads this`disks
    {
      FileType(file.mode) == M_FREG && file.next.Some? && file.device in disks ==>
        NextTrue(file.next.value, file.content, ref, disks[file.device])
    }

    /** FiesWriter_writeFile (`ref` is false) and FiesWriter_readRefFile (`ref` is true). */
    method WriteFileDo(file: FiesFile, ref: bool)
      returns (rc: int, ghost metas: seq<Packet>, ghost sent: seq<Sent>, ghost tailFailed: bool)
      requires Valid() && file.Ok() && nextFileid + 1 < U32
      modifies this`out, this`nextFileid, this`contents, this`done, this`sound, file`fileid
      modifies if file.device in devices then {devices[file.device].extents} else {}
      ensures Valid() && old(nextFileid) <= nextFileid <= old(nextFileid) + 1
      // refused, or failed for a reason
      ensures old(Refusal(file, ref)) < 0 ==> rc == old(Refusal(file, ref)) && out == old(out) && sound == old(sound)
      ensures rc < 0 ==> old(Refusal(file, ref)) < 0 || !Writable(io, file, ref)
      // no claim is forgotten, whatever happens
      ensures Grew(old(TracesNow()), TracesNow())
      // the packets
      ensures rc >= 0 && FileType(file.mode) == M_FHARD ==>
                && out.log == old(out.log) + [File(file.fileid, file.mode, |file.content|, file.name, [], None)]
                && file.fileid == old(file.fileid) && contents == old(contents)
      ensures rc >= 0 ==> AllFitting(sent, file.content) && Transferred(old(TracesNow()), file, sent)
      ensures rc >= 0 && FileType(file.mode) != M_FHARD ==>
                && file.fileid == old(nextFileid) && nextFileid == old(nextFileid) + 1
                && out.log == old(out.log) + HeaderOf(file, file.fileid, Target(file), ref, metas)
                              + ExtentPackets(file, file.fileid, ref, sent, tailFailed) + [FileEnd(file.fileid)]
                && contents == if FileType(file.mode) == M_FREG then old(contents)[file.fileid := file.content]
                               else old(contents)
      ensures rc >= 0 && FileType(file.mode) != M_FHARD && !ref ==>
                && MetasOf(metas, file.fileid, file)
                && (Works(io) ==> metas == AllMetas(file, file.fileid) && TellsAll(metas, file.fileid, file))
      ensures rc >= 0 && FileType(file.mode) == M_FREG && !ref ==>
                TilesFile(ExtentPackets(file, file.fileid, ref, sent, tailFailed), file.fileid, 0,
                          Covered(file, sent, tailFailed))
      ensures tailFailed ==> !ref && EndOf(sent, |file.content|) < |file.content| && !Works(io)
      // every listed byte is there, and shared ones are claimed, or quoted if they were before
      ensures rc >= 0 ==> AllThere(old(TracesNow()), file, ref, out.log[|old(out.log)|..])
      // the meaning
      ensures rc >= 0 && old(sound) && old(Faithful(file, ref)) && !tailFailed ==> sound
    {
      hide Grew, Valid, TilesFile, NextTrue, Announced, AnnouncementFits, HeaderOf, MetasOf, MetasUpTo, NextOk,
           AllFitting, Listed, NextAble, ContentOf, Works, EndOf, AllThere, TellsAll;
      metas, sent, tailFailed := [], [], false;
      AllMetasTell(file, nextFileid);
      NothingFits(file.content);
      GrewItself(TracesNow());
      MapsAreSeparate();
      rc := Refusal(file, ref);
      if rc < 0 {
        return;
      }
      if FileType(file.mode) == M_FHARD {
        rc := WriteHardlink(file);
      } else {
        ghost var log, traces := out.log, TracesNow();
        rc, metas, sent, tailFailed := WriteNewFile(file, Target(file), ref);
        if rc >= 0 && FileType(file.mode) == M_FREG {
          FileIsThere(log, traces, file, ref, metas, sent, tailFailed);
          if !ref {
            FileIsTiled(traces, file, sent, tailFailed);
          }
        }
      }
      if rc >= 0 && FileType(file.mode) != M_FREG {
        NothingIsListed(old(TracesNow()), file, ref, out.log[|old(out.log)|..]);
      }
    }

    lemma FileIsTiled(traces: Histories, file: FiesFile, sent: seq<Sent>, tailFailed: bool)
      requires Transferred(traces, file, sent) && FileType(file.mode) == M_FREG && AllFitting(sent, file.content)
      ensures TilesFile(ExtentPackets(file, file.fileid, false, sent, tailFailed), file.fileid, 0,
                Covered(file, sent, tailFailed))
    {
      hide TilesFile, AllLawful, AllFitting;
      ContentTiles(traces, file.device, sent, file.fileid, file.content, tailFailed);
    }

    /** What a call that wrote `file` owes to the extents the file lists; `pkts` is what it added to the log. */
    ghost predicate AllThere(before: Histories, file: FiesFile, ref: bool, pkts: seq<Packet>)
      reads this`devices, EMaps(), file`fileid
    {
      FileType(file.mode) == M_FREG ==>
        && file.next.Some? && NextOk(file.next.value, |file.content|)
        && var es := Listing(file.next.value, 0, 0, |file.content|);
        && AllClaimed(TracesNow(), file.device, es, |file.content|)
        && (!ref ==> AllBrought(before, file.device, es, file.fileid, file.content, pkts))
    }

    lemma NothingIsListed(before: Histories, file: FiesFile, ref: bool, pkts: seq<Packet>)
      requires FileType(file.mode) != M_FREG
      ensures AllThere(before, file, ref, pkts)
    {
    }

    lemma FileIsThere(log: seq<Packet>, traces: Histories, file: FiesFile, ref: bool, metas: seq<Packet>,
                      sent: seq<Sent>, tailFailed: bool)
      requires Transferred(traces, file, sent) && FileType(file.mode) == M_FREG && AllFitting(sent, file.content)
      ensures var all := log + HeaderOf(file, file.fileid, Target(file), ref, metas)
                         + ExtentPackets(file, file.fileid, ref, sent, tailFailed) + [FileEnd(file.fileid)];
              AllThere(traces, file, ref, all[|log|..])
    {
      hide AllLawful, AllFitting, AllAfter, AllBrought, AllClaimed, StreamOf, GapOf, HeaderOf, Extents, Listing;
      var all := log + HeaderOf(file, file.fileid, Target(file), ref, metas)
                 + ExtentPackets(file, file.fileid, ref, sent, tailFailed) + [FileEnd(file.fileid)];
      assert all[|log|..] == HeaderOf(file, file.fileid, Target(file), ref, metas)
                             + ExtentPackets(file, file.fileid, ref, sent, tailFailed) + [FileEnd(file.fileid)];
      ListedBytesAreClaimed(traces, file.device, sent, file.fileid, file.content);
      if !ref {
        ListedBytesAreBrought(traces, file.device, sent, file.fileid, file.content, all[|log|..]);
      }
    }

    /** The caller's side of a faithful transfer. */
    ghost predicate Faithful(file: FiesFile, ref: bool)
      reads file`fileid, this`disks, this`out
    {
      if FileType(file.mode) == M_FHARD then
        exists size :: Announced(out.log, file.fileid, size)
      else
        AnnouncementFits(file, Target(file), ref, env) && ExtentsFit(file, ref)
    }
  }

  function Target(file: FiesFile): seq<byte> {
    if file.link.Some? then file.link.value else []
  }

  /** The stream and the histories of all extent maps at one moment. */
  datatype Moment = Moment(log: seq<Packet>, traces: Histories)

  /** No run goes on from the extents before `i` to extent `i`. */
  predicate Stops(batch: seq<FileExtent>, i: nat) {
    0 < i < |batch| ==> !Joins(batch[i - 1], batch[i])
  }

  ghost predicate BatchAble(io: WriteResults, batch: seq<FileExtent>, ref: bool) {
    forall i :: 0 <= i < |batch| ==> Able(io, batch[i].flags, ref)
  }

  ghost predicate NextAble(io: WriteResults, next: NextExtents, filesize: nat, ref: bool) {
    forall n: nat, at: nat {:trigger next(n, at)} :: at < filesize ==>
      next(n, at).Batch? && BatchAble(io, next(n, at).extents, ref)
  }

  lemma NextIsAble(io: WriteResults, next: NextExtents, n: nat, at: nat, filesize: nat, ref: bool)
    requires at < filesize
    ensures next(n, at).NextError? ==> !NextAble(io, next, filesize, ref)
    ensures next(n, at).Batch? && !BatchAble(io, next(n, at).extents, ref) ==> !NextAble(io, next, filesize, ref)
  {
  }

  lemma RunIsAble(io: WriteResults, e: FileExtent, batch: seq<FileExtent>, from: nat, last: nat, ref: bool)
    requires IsRun(e, batch, from, last) && BatchAble(io, batch, ref)
    ensures Able(io, e.flags, ref)
  {
  }

  /** The run that merging found is the next one of the batch. */
  lemma {:induction false} RunStops(e: FileExtent, buffer: seq<FileExtent>, batch: seq<FileExtent>, from: nat,
                                    last: nat, at: nat, filesize: nat)
    requires IsRun(e, batch, from, last) && BatchOk(batch, at, filesize) && Stops(batch, from)
    requires |batch| <= |buffer| && buffer[from..|batch|] == batch[from..]
    requires last + 1 < |batch| ==> !Joins(buffer[last], buffer[last + 1])
    ensures Stops(batch, last + 1)
    ensures Runs(batch[..last + 1]) == Runs(batch[..from]) + [e]
  {
    assert from <= last < |batch|;
    hide IsRun, BatchOk, Runs, Joins;
    RunIsNext(e, batch, from, last, at, filesize);
    forall k | from <= k < |batch| ensures buffer[k] == batch[k] {
      assert buffer[from..|batch|][k - from] == batch[from..][k - from];
    }
  }

  lemma {:induction false} NoRuns(batch: seq<FileExtent>, before: seq<Sent>)
    ensures Extents(before) == Extents(before) + Runs(batch[..0])
  {
  }

  lemma {:induction false} MoreRuns(before: seq<Sent>, sent: seq<Sent>, s: Sent, runs: seq<FileExtent>)
    requires Extents(sent) == Extents(before) + runs
    ensures Extents(sent + [s]) == Extents(before) + (runs + [s.ex])
  {
    assert Extents(sent + [s]) == Extents(sent) + [s.ex];
  }

  lemma {:induction false} ListingStep(next: NextExtents, n: nat, at: nat, filesize: nat)
    requires NextOk(next, filesize) && at < filesize
    ensures Listing(next, n, at, filesize) ==
              if next(n, at).NextError? || next(n, at).extents == [] then []
              else
                var b := next(n, at).extents;
                var at' := Frontier(b, |b|, at, filesize);
                if at' <= filesize then Runs(b) + Listing(next, n + 1, at', filesize) else []
  {
  }

  lemma {:induction false} ListingEnds(next: NextExtents, n: nat, at: nat, filesize: nat)
    requires NextOk(next, filesize) && at <= filesize
    requires at < filesize ==> next(n, at).NextError? || next(n, at).extents == []
    ensures Listing(next, n, at, filesize) == []
  {
  }

  lemma {:induction false} ListingJoin(a: seq<FileExtent>, b: seq<FileExtent>, c: seq<FileExtent>)
    ensures a + (b + c) == a + b + c
    ensures a + [] == a
  {
  }

  lemma {:induction false} ConcatFour(a: seq<Packet>, b: seq<Packet>, c: seq<Packet>, d: seq<Packet>)
    ensures a + b + c + d == a + (b + c + d)
  {
  }

  lemma {:induction false} MirrorsRun(env: Environment, log: seq<Packet>, contents: map<nat, seq<byte>>,
                                      done: map<nat, nat>)
    requires Mirrors(env, log, contents, done)
    ensures Run(env, log).Ok?
  {
  }

  function HeaderOf(file: FiesFile, fid: nat, link: seq<byte>, ref: bool, metas: seq<Packet>): seq<Packet> {
    if ref then [File(fid, M_FREF, |file.content|, file.name, [], None)]
    else Announcement(fid, file.mode, |file.content|, file.name, link, NumbersOf(file), metas)
  }

  lemma HeaderAnnounces(log: seq<Packet>, file: FiesFile, fid: nat, link: seq<byte>, ref: bool, metas: seq<Packet>)
    ensures var log' := log + HeaderOf(file, fid, link, ref, metas);
            && (ref || FileType(file.mode) != M_FHARD ==> Announced(log', fid, |file.content|))
            && (ref ==> AnnouncedReference(log', fid, |file.content|))
  {
    var log' := log + HeaderOf(file, fid, link, ref, metas);
    assert log'[|log|]
           == File(fid, if ref then M_FREF else file.mode, |file.content|, file.name, if ref then [] else link,
                                if ref then None else NumbersOf(file));
  }

  lemma {:induction false} NotTracked(env: Environment, log: seq<Packet>, contents: map<nat, seq<byte>>,
                                      done: map<nat, nat>, fid: nat)
    requires Mirrors(env, log, contents, done) && fid !in Run(env, log).state.files
    ensures fid !in contents && fid !in done
  {
  }

  lemma MetasOfFit(metas: seq<Packet>, fid: nat, file: FiesFile)
    requires MetasOf(metas, fid, file) && file.Ok()
    requires XAttrsFit(file)
    ensures MetasFit(metas, fid)
  {
  }

  lemma AllTrueNewFile(traces: Histories, disks: map<nat, Disk>, contents: map<nat, seq<byte>>, done: map<nat, nat>,
                       fid: nat, content: seq<byte>, n: nat)
    requires AllTrue(traces, disks, contents, done) && fid !in done
    ensures AllTrue(traces, disks, contents[fid := content], done[fid := n])
  {
    forall k | k in traces && k in disks
      ensures TracesTrue(traces[k], disks[k], contents[fid := content], done[fid := n])
    {
      forall x | x in traces[k]
        ensures ClaimsTrue(NewEntries(traces[k][x]), x, disks[k], contents[fid := content], done[fid := n])
      {
        ClaimsNewFile(NewEntries(traces[k][x]), x, disks[k], contents, done, fid, content, n);
      }
    }
  }

  lemma ClaimsNewFile(entries: set<MapExtent>, x: nat, disk: Disk, contents: map<nat, seq<byte>>, done: map<nat, nat>,
                      fid: nat, content: seq<byte>, n: nat)
    requires ClaimsTrue(entries, x, disk, contents, done) && fid !in done
    ensures ClaimsTrue(entries, x, disk, contents[fid := content], done[fid := n])
  {
  }

  /** The announcement is one the reader takes, and a reference file is one the receiver has. */
  ghost predicate AnnouncementFits(file: FiesFile, link: seq<byte>, ref: bool, env: Environment) {
    if ref then ReceiverHas(env, file.name, file.content)
    else NamesFit(file.mode, file.name, link, NumbersOf(file)) && FileType(file.mode) != M_FREF
         && XAttrsFit(file)
  }

  predicate XAttrsFit(file: FiesFile) {
    forall i :: 0 <= i < |file.Entries()| && file.Entries()[i].1.Value? ==>
      MetaFits(MetaXAttr(file.Entries()[i].0, file.Entries()[i].1.data))
  }

  predicate MetaOf(m: MetaBody, file: FiesFile) {
    || m == MetaOwner(file.uid, file.gid)
    || m == MetaTime(file.secs, file.nsecs)
    || (m.MetaXAttr? && m.name != [] && (m.name, Value(m.value)) in file.Entries())
  }

  lemma MetasStart(fid: nat, file: FiesFile)
    ensures MetasOf([], fid, file)
    ensures MetaOf(MetaOwner(file.uid, file.gid), file) && MetaOf(MetaTime(file.secs, file.nsecs), file)
  {
  }

  lemma XAttrIsMeta(file: FiesFile, i: nat)
    requires i < |file.Entries()| && file.Ok()
    ensures var (name, answer) := file.Entries()[i];
            name != [] && answer.Value? ==> MetaOf(MetaXAttr(name, answer.data), file)
  {
  }

  /** Attributes that are gone are skipped; every other error ends the announcement. */
  predicate IsFault(entry: (seq<byte>, XAttrAnswer)) {
    entry.0 != [] && entry.1.XAttrError? && entry.1.rc !in {-ENODATA, -ENOENT}
  }

  /** How many entries are in front of the first one that cannot be read. */
  function Readable(entries: seq<(seq<byte>, XAttrAnswer)>): (n: nat)
    ensures n <= |entries| && (forall i :: 0 <= i < n ==> !IsFault(entries[i]))
    ensures n < |entries| ==> IsFault(entries[n])
  {
    if entries == [] then 0
    else
      var last := |entries| - 1;
      var n := Readable(entries[..last]);
      if n < last || IsFault(entries[last]) then n else n + 1
  }

  lemma {:induction false} FirstFault(entries: seq<(seq<byte>, XAttrAnswer)>, i: nat)
    requires i < |entries| && IsFault(entries[i]) && forall k :: 0 <= k < i ==> !IsFault(entries[k])
    ensures Readable(entries) == i
  {
    var n := Readable(entries);
  }

  lemma {:induction false} NoFault(entries: seq<(seq<byte>, XAttrAnswer)>)
    requires forall k :: 0 <= k < |entries| ==> !IsFault(entries[k])
    ensures Readable(entries) == |entries|
  {
    var n := Readable(entries);
  }

  /** The error with which the attributes cannot be told, or zero. */
  function XAttrsFault(file: FiesFile): int {
    var n := Readable(file.Entries());
    if file.xattrs.ListError? then file.xattrs.rc
    else if n < |file.Entries()| then file.Entries()[n].1.rc
    else 0
  }

  /** The announcement goes on; attributes that are not supported do not end it. */
  predicate XAttrsTold(file: FiesFile) {
    XAttrsFault(file) >= 0 || XAttrsFault(file) == -ENOTSUP
  }

  /** All the meta packets of a file. */
  function AllMetas(file: FiesFile, fid: nat): seq<Packet> {
    MetasUpTo(file, fid, Readable(file.Entries()))
  }

  /** The attribute cannot be read, for another reason than being gone (ENODATA, ENOENT). */
  predicate Unreadable(entry: (seq<byte>, XAttrAnswer)) {
    entry.0 != [] && entry.1.XAttrError? && entry.1.rc != -61 && entry.1.rc != -2
  }

  /** The packets tell attributes at ascending places of the list, each with its name and its value. */
  ghost predicate TellsSome(told: seq<Packet>, fid: nat, entries: seq<(seq<byte>, XAttrAnswer)>, places: seq<nat>) {
    && |places| == |told| && (forall i, j :: 0 <= i < j < |places| ==> places[i] < places[j])
    && forall i :: 0 <= i < |places| ==>
         && places[i] < |entries| && entries[places[i]].0 != [] && entries[places[i]].1.Value?
         && told[i] == Meta(fid, MetaXAttr(entries[places[i]].0, entries[places[i]].1.data))
  }

  /** They tell every attribute of the first `n` that has a name and a value, and no other. */
  ghost predicate TellsFirst(told: seq<Packet>, fid: nat, entries: seq<(seq<byte>, XAttrAnswer)>, n: nat,
                             places: seq<nat>)
    requires n <= |entries|
  {
    && TellsSome(told, fid, entries, places) && (forall i :: 0 <= i < |places| ==> places[i] < n)
    && forall k :: 0 <= k < n && entries[k].0 != [] && entries[k].1.Value? ==> k in places
  }

  /** Owner, time, and the attributes in front of the first one that is unreadable, in the order of the list. */
  ghost predicate TellsAll(metas: seq<Packet>, fid: nat, file: FiesFile) {
    && |metas| >= 2 && metas[0] == Meta(fid, MetaOwner(file.uid, file.gid))
    && metas[1] == Meta(fid, MetaTime(file.secs, file.nsecs))
    && exists n: nat, places {:trigger TellsFirst(metas[2..], fid, file.Entries(), n, places)} ::
         && n <= |file.Entries()| && (forall i :: 0 <= i < n ==> !Unreadable(file.Entries()[i]))
         && (n < |file.Entries()| ==> Unreadable(file.Entries()[n]))
         && TellsFirst(metas[2..], fid, file.Entries(), n, places)
  }

  lemma {:induction false} AllMetasTell(file: FiesFile, fid: nat)
    ensures TellsAll(AllMetas(file, fid), fid, file)
  {
    hide TellsFirst, Readable;
    var places := MetasTell(file, fid, Readable(file.Entries()));
  }

  lemma {:induction false} MetasTell(file: FiesFile, fid: nat, n: nat) returns (places: seq<nat>)
    requires n <= |file.Entries()|
    ensures var metas := MetasUpTo(file, fid, n);
            && |metas| >= 2 && metas[0] == Meta(fid, MetaOwner(file.uid, file.gid))
            && metas[1] == Meta(fid, MetaTime(file.secs, file.nsecs))
            && TellsFirst(metas[2..], fid, file.Entries(), n, places)
  {
    hide TellsFirst, MetasUpTo;
    MetasCases(file, fid, n);
    var metas := MetasUpTo(file, fid, n);
    if n == 0 {
      places := [];
      TellsNothing(fid, file.Entries());
    } else {
      var front := MetasUpTo(file, fid, n - 1);
      places := MetasTell(file, fid, n - 1);
      var (name, answer) := file.Entries()[n - 1];
      if name != [] && answer.Value? {
        assert metas[2..] == front[2..] + [Meta(fid, MetaXAttr(name, answer.data))];
        TellsNext(front[2..], fid, file.Entries(), n - 1, places);
        places := places + [n - 1];
      } else {
        assert metas == front;
        TellsNoMore(front[2..], fid, file.Entries(), n - 1, places);
      }
    }
  }

  lemma {:induction false} MetasCases(file: FiesFile, fid: nat, n: nat)
    requires n <= |file.Entries()|
    ensures n == 0 ==> MetasUpTo(file, fid, 0)
                       == [Meta(fid, MetaOwner(file.uid, file.gid)), Meta(fid, MetaTime(file.secs, file.nsecs))]
    ensures n > 0 ==>
              var (name, answer) := file.Entries()[n - 1];
              MetasUpTo(file, fid, n)
              == if name == [] || !answer.Value? then MetasUpTo(file, fid, n - 1)
                 else MetasUpTo(file, fid, n - 1) + [Meta(fid, MetaXAttr(name, answer.data))]
  {
  }

  lemma {:induction false} TellsNothing(fid: nat, entries: seq<(seq<byte>, XAttrAnswer)>)
    ensures TellsFirst([], fid, entries, 0, [])
  {
  }

  lemma {:induction false} TellsNoMore(told: seq<Packet>, fid: nat, entries: seq<(seq<byte>, XAttrAnswer)>, n: nat,
                                       places: seq<nat>)
    requires n < |entries| && TellsFirst(told, fid, entries, n, places)
    requires entries[n].0 == [] || !entries[n].1.Value?
    ensures TellsFirst(told, fid, entries, n + 1, places)
  {
  }

  lemma {:induction false} TellsNext(told: seq<Packet>, fid: nat, entries: seq<(seq<byte>, XAttrAnswer)>, n: nat,
                                     places: seq<nat>)
    requires n < |entries| && TellsFirst(told, fid, entries, n, places) && entries[n].0 != [] && entries[n].1.Value?
    ensures TellsFirst(told + [Meta(fid, MetaXAttr(entries[n].0, entries[n].1.data))], fid, entries, n + 1,
                       places + [n])
  {
    forall k | 0 <= k < n + 1 && entries[k].0 != [] && entries[k].1.Value? ensures k in places + [n] {
      if k < n {
        assert k in places;
      } else {
        assert (places + [n])[|places|] == n;
      }
    }
  }

  /** Owner, time and those of the first `n` extended attributes that have a name and a value. */
  function MetasUpTo(file: FiesFile, fid: nat, n: nat): seq<Packet>
    requires n <= |file.Entries()|
  {
    if n == 0 then [Meta(fid, MetaOwner(file.uid, file.gid)), Meta(fid, MetaTime(file.secs, file.nsecs))]
    else
      var (name, answer) := file.Entries()[n - 1];
      MetasUpTo(file, fid, n - 1)
      + if name == [] || !answer.Value? then [] else [Meta(fid, MetaXAttr(name, answer.data))]
  }

  predicate IsSpecial(file: FiesFile) {
    FileType(file.mode) == M_FBLK || FileType(file.mode) == M_FCHR
  }

  /** The device numbers are known if the announcement of the file needs them. */
  predicate HasNumbers(file: FiesFile) {
    IsSpecial(file) ==> file.getDevice.Numbers?
  }

  /** The file tells all that its announcement needs; reference files and hard links have no metadata. */
  predicate Describable(file: FiesFile, ref: bool) {
    HasNumbers(file) && (ref || FileType(file.mode) == M_FHARD || XAttrsTold(file))
  }

  /** The device numbers in the FILE packet, which take the place of a link target. */
  function NumbersOf(file: FiesFile): Option<NodeId> {
    if IsSpecial(file) && file.getDevice.Numbers? then Some(file.getDevice.node) else None
  }

  /** Named pipes are sent without device numbers, which the reader insists on. */
  lemma PipesAreRefused(env: Environment, s: ReaderState, file: FiesFile, fid: nat)
    requires FileType(file.mode) == M_FIFO && s.newfile == None && fid !in s.files && |file.name| <= 0xFFFF
    ensures Apply(env, s, HeaderOf(file, fid, [], false, [])[0]) == Throw(TruncatedFilePacket)
  {
  }

  /** The file can tell all its extents and they are of types that can be sent. */
  ghost predicate Writable(io: WriteResults, file: FiesFile, ref: bool) {
    && Works(io) && Describable(file, ref)
    && (FileType(file.mode) == M_FREG ==> file.next.Some? && NextAble(io, file.next.value, |file.content|, ref))
  }

  /** The extent packets of a file: its extents, and a hole for the rest unless that was not written. */
  function ExtentPackets(file: FiesFile, fid: nat, ref: bool, sent: seq<Sent>, tailFailed: bool): seq<Packet>
    requires AllFitting(sent, file.content)
  {
    if FileType(file.mode) != M_FREG then [] else ContentOf(sent, fid, file.content, ref, tailFailed)
  }

  /** How far the extent packets of a file reach. */
  function Covered(file: FiesFile, sent: seq<Sent>, tailFailed: bool): nat {
    if tailFailed then EndOf(sent, |file.content|) else |file.content|
  }

  ghost predicate MetasOf(metas: seq<Packet>, fid: nat, file: FiesFile) {
    forall i :: 0 <= i < |metas| ==> metas[i].Meta? && metas[i].file == fid && MetaOf(metas[i].meta, file)
  }

  lemma BatchFits(b: seq<FileExtent>, at: nat, filesize: nat)
    requires BatchOk(b, at, filesize)
    ensures |b| <= EXTENT_BUFFER
  {
  }

  lemma NothingLeft(content: seq<byte>)
    ensures ZeroRange(content, |content|, |content|)
  {
  }

  /** One answer of a truthful callback. */
  lemma NextIsTrue(next: NextExtents, n: nat, at: nat, content: seq<byte>, ref: bool, disk: Disk)
    requires NextTrue(next, content, ref, disk) && at < |content| && next(n, at).Batch?
    ensures BatchTrue(next(n, at).extents, at, content, ref, disk)
    ensures next(n, at).extents == [] ==> ref || ZeroRange(content, at, |content|)
  {
  }

  lemma RestOfBatch(before: seq<FileExtent>, after: seq<FileExtent>, batch: seq<FileExtent>, pi: nat, i: nat,
                    count: nat)
    requires pi < i <= count == |batch| <= |before| == |after|
    requires forall k :: 0 <= k < |after| && k != pi ==> after[k] == before[k]
    requires before[pi..count] == batch[pi..]
    ensures after[i..count] == batch[i..]
  {
    forall k | i <= k < count ensures after[k] == batch[k] {
      assert before[pi..count][k - pi] == batch[pi..][k - pi];
    }
  }

  lemma ConcatAssoc(a: seq<Packet>, b: seq<Packet>, c: seq<Packet>)
    ensures a + b + c == a + (b + c)
  {
  }

  /** The run found in the buffer is a run of the batch. */
  lemma RunOfBatch(e: FileExtent, buffer: seq<FileExtent>, batch: seq<FileExtent>, from: nat, last: nat)
    requires IsRun(e, buffer, from, last) && last < |batch| <= |buffer|
    requires buffer[from..|batch|] == batch[from..]
    ensures IsRun(e, batch, from, last)
  {
    forall k | from <= k <= last ensures batch[k] == buffer[k] {
      assert batch[k] == batch[from..][k - from] == buffer[from..|batch|][k - from];
    }
    forall k, l | from <= k && l == k + 1 <= last ensures Joins(batch[k], batch[l]) {
      assert Joins(buffer[k], buffer[l]);
    }
    forall k | from <= k <= last ensures PartOf(batch[k], e) {
      assert PartOf(buffer[k], e);
    }
  }

  lemma BatchRunBounds(e: FileExtent, batch: seq<FileExtent>, from: nat, last: nat, at: nat, filesize: nat)
    requires BatchOk(batch, at, filesize) && IsRun(e, batch, from, last)
    ensures 0 < e.length && e.logical == batch[from].logical && e.logical < filesize
    ensures e.physical + e.length < U64
    ensures e.logical + e.length == batch[last].logical + batch[last].length
    ensures at <= e.logical && (from > 0 ==> batch[from - 1].logical + batch[from - 1].length <= e.logical)
    ensures at <= Frontier(batch, from, at, filesize)
  {
    assert PartOf(batch[from], e) && PartOf(batch[last], e);
  }

  /** Before the first extent, or between the extents, the file reads as zeros. */
  lemma RunNeedsTruth(e: FileExtent, batch: seq<FileExtent>, from: nat, last: nat, at: nat, content: seq<byte>,
                      ref: bool, disk: Disk)
    requires BatchOk(batch, at, |content|) && IsRun(e, batch, from, last) && BatchTrue(batch, at, content, ref, disk)
    ensures e.logical <= |content| && ExtentTrue(Clamp(e, |content|), content, ref, disk)
    ensures ref || ZeroRange(content, if from == 0 then at else batch[from - 1].logical + batch[from - 1].length,
                             e.logical)
  {
    hide ExtentTrue, ZeroRange;
    RunTrue(e, batch, from, last, at, content, ref, disk);
  }

  /** What the extent map reported about an extent, and the packets for it; complete unless the call failed. */
  ghost predicate Reported(io: WriteResults, trace: seq<Event>, fid: nat, ex: FileExtent, content: seq<byte>, ref: bool,
                           rc: int, events: seq<Event>, pkts: seq<Packet>)
  {
    && TraceOk(trace + events)
    && InFile(events, content) && pkts == (if ref then [] else Packets(events, fid, ex.flags, content))
    && if rc < 0 then !Able(io, ex.flags, ref) else Tiles(events, AsInput(ex, fid), ex.length)
  }

  lemma {:induction false} ReportedAreExtents(io: WriteResults, trace: seq<Event>, fid: nat, ex: FileExtent,
                                              content: seq<byte>, ref: bool, rc: int, events: seq<Event>,
                                              pkts: seq<Packet>)
    requires Reported(io, trace, fid, ex, content, ref, rc, events, pkts)
    ensures forall i :: 0 <= i < |pkts| ==> !pkts[i].File?
  {
    PacketsAreExtents(events, fid, ex.flags, content);
  }

  /** The extent map and the stream after one shared extent, however the call ends. */
  method AddShared(io: WriteResults, m: EMap, out: Out, fid: nat, ex: FileExtent, content: seq<byte>, ref: bool)
    returns (rc: int, c: Out, ghost events: seq<Event>, ghost pkts: seq<Packet>)
    requires m.Valid() && TracesBacked(m.traces, out.log) && CopiesOk(out.log)
    requires Announced(out.log, fid, |content|) && (ref ==> AnnouncedReference(out.log, fid, |content|))
    requires 0 < ex.length && ex.logical + ex.length <= |content| < U64 && ex.physical + ex.length < U64
    modifies m
    ensures m.Valid() && m.traces == old(m.traces)[ex.device := TraceAt(old(m.traces), ex.device) + events]
    ensures c.log == out.log + pkts && CopiesOk(c.log) && TracesBacked(m.traces, c.log)
    ensures Reported(io, TraceAt(old(m.traces), ex.device), fid, ex, content, ref, rc, events, pkts)
  {
    hide Able, CopiesOk, Announced, Tiles, TracesBacked, Packets, InFile, TraceOk, NewEntries, AnnouncedReference,
         Sorted;
    var cap := Capture(fid, ex.flags, content, ref);
    ghost var traces, before := m.traces, TraceAt(m.traces, ex.device);
    ghost var n;
    rc, c, events, n := m.Add(ex.device, ex.physical, ex.logical, ex.length, fid,
                              NewCallback(io, cap), AvailCallback(io, cap), out);
    assert ListOk(m.devices[ex.device], m.traces[ex.device]);
    ghost var input := AsInput(ex, fid);
    TilesInFile(events, input, n, content);
    if rc < 0 {
      FailedPackets(io, cap, out, input, n, events, rc, c);
      assert !ref by { AlwaysAble(io, ex.flags); }
    } else {
      DeliveredPackets(io, cap, out, events);
    }
    pkts := if ref then [] else Packets(events, fid, ex.flags, content);
    assert out.log + [] == out.log;
    BackedBefore(traces, out.log, ex.device);
    if ref {
      BackReferenceEvents(out.log, |content|, before, events, input, n);
    } else {
      BackEvents(out.log, ex.flags, content, before, events, input, n);
    }
    TracesBackedStep(traces, out.log, pkts, ex.device, events);
  }

  lemma AlwaysAble(io: WriteResults, flags: nat)
    ensures Able(io, flags, true)
  {
  }

  lemma BackedBefore(traces: map<nat, seq<Event>>, log: seq<Packet>, x: nat)
    requires TracesBacked(traces, log)
    ensures AllBacked(log, NewEntries(TraceAt(traces, x)))
  {
  }

  ghost predicate SharedHonest(ex: FileExtent, content: seq<byte>, ref: bool, disk: Disk)
    requires ex.logical + ex.length <= |content|
  {
    && OnDisk(AsInput(ex, 0), ex.length, content, ex.device, disk)
    && (ref || TypeFits(ex.flags, content, ex.logical, ex.length))
  }

  /** The packets of an honest shared extent mirror the file, and the new histories are true. */
  lemma {:induction false} SharedIsTrue(env: Environment, log: seq<Packet>, traces: Histories, disks: map<nat, Disk>,
                                        contents: map<nat, seq<byte>>, done: map<nat, nat>, dev: nat, ex: FileExtent,
                                        fid: nat, events: seq<Event>)
    requires Mirrors(env, log, contents, done) && AllTrue(traces, disks, contents, done)
    requires dev in traces && dev in disks && fid in contents && fid in done && done[fid] == ex.logical
    requires Tiles(events, AsInput(ex, fid), ex.length) && TraceOk(TraceAt(traces[dev], ex.device) + events)
    requires ex.logical + ex.length <= |contents[fid]| && SharedHonest(ex, contents[fid], false, disks[dev])
    requires InFile(events, contents[fid])
    ensures Mirrors(env, log + Packets(events, fid, ex.flags, contents[fid]), contents,
                    Advance(done, fid, ex.logical + ex.length))
    ensures AllTrue(Extended(traces, dev, ex.device, events), disks, contents,
                    Advance(done, fid, ex.logical + ex.length))
  {
    hide Mirrors, AllTrue, Tiles, TraceOk, NewEntries, ClaimsTrue, Packets, InFile, TypeFits;
    MirrorsBounds(env, log, contents, done);
    ClaimsBefore(traces, disks, contents, done, dev, ex.device);
    EmitEvents(env, log, contents, done, ex.device, disks[dev], ex.flags, TraceAt(traces[dev], ex.device), events,
               AsInput(ex, fid), ex.length);
    AllTrueExtended(traces, disks, contents, done, Advance(done, fid, ex.logical + ex.length), dev, ex.device, events);
  }

  lemma {:induction false} ReferenceIsTrue(env: Environment, log: seq<Packet>, traces: Histories, disks: map<nat, Disk>,
                                           contents: map<nat, seq<byte>>, done: map<nat, nat>, dev: nat, ex: FileExtent,
                                           fid: nat, events: seq<Event>)
    requires Mirrors(env, log, contents, done) && AllTrue(traces, disks, contents, done)
    requires dev in traces && dev in disks && fid in contents && fid in done && done[fid] == |contents[fid]|
    requires Tiles(events, AsInput(ex, fid), ex.length) && TraceOk(TraceAt(traces[dev], ex.device) + events)
    requires ex.logical + ex.length <= |contents[fid]| && SharedHonest(ex, contents[fid], true, disks[dev])
    ensures AllTrue(Extended(traces, dev, ex.device, events), disks, contents, done)
  {
    hide Mirrors, AllTrue, Tiles, TraceOk, NewEntries, ClaimsTrue;
    MirrorsBounds(env, log, contents, done);
    ClaimsBefore(traces, disks, contents, done, dev, ex.device);
    ReferenceEvents(contents, done, ex.device, disks[dev], TraceAt(traces[dev], ex.device), events, AsInput(ex, fid),
                    ex.length);
    AllTrueExtended(traces, disks, contents, done, done, dev, ex.device, events);
  }

  lemma {:induction false} PacketsAreExtents(events: seq<Event>, fid: nat, flags: nat, content: seq<byte>)
    requires InFile(events, content)
    ensures forall i :: 0 <= i < |events| ==> Packets(events, fid, flags, content)[i].Extent?
  {
    forall i | 0 <= i < |events| ensures Packets(events, fid, flags, content)[i].Extent? {
      PacketAt(events, fid, flags, content, i);
    }
  }

  lemma IdsBelowJoin(log: seq<Packet>, more: seq<Packet>, next: nat)
    requires IdsBelow(log, next) && forall i :: 0 <= i < |more| ==> !more[i].File?
    ensures IdsBelow(log + more, next)
  {
  }

  lemma IdsBelowStep(log: seq<Packet>, p: Packet, next: nat)
    requires IdsBelow(log, next) && (p.File? && FileType(p.mode) != M_FHARD ==> p.id < next)
    ensures IdsBelow(log + [p], next)
  {
  }
}
