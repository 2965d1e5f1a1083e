/** Mapping and unmapping an rbd image: a thread writes to sysfs and reports through a pipe while
    udev events arrive on a socket; `wait_for_mapping` joins the two in whatever order they come. */
module KrbdWait {
  import opened Options
  import opened Sequences

  const SNAP_HEAD_NAME := "-"
  const INT_MAX := 0x7FFF_FFFF
  const EBUSY := 16

  datatype Spec = Spec(pool: string, nspace: string, image: string, snap: string)

  /** A udev device: the sysfs attributes (null when absent), the MAJOR and MINOR properties of a
      block device, and its names. `id` tells apart two received devices with equal contents. */
  datatype Device = Device(id: nat, action: string, subsystem: string,
                           pool: Option<string>, poolNs: Option<string>, image: Option<string>,
                           snap: Option<string>, major: Option<string>, minor: Option<string>,
                           blockMajor: Option<string>, blockMinor: Option<string>,
                           sysname: string, devnode: string, devnum: nat)

  function MakeSpec(pool: string, nspace: string, image: string, snap: string): Spec {
    Spec(pool, nspace, image, if snap == "" then SNAP_HEAD_NAME else snap)
  }

  function SpecFromDev(d: Device): Option<Spec> {
    if d.pool.None? || d.image.None? || d.snap.None? then None
    else Some(MakeSpec(d.pool.value, if d.poolNs.Some? then d.poolNs.value else "",
                       d.image.value, d.snap.value))
  }

  function RbdName(d: Device): string {
    "/dev/rbd" + d.sysname
  }

  // ---------- What a stream of devices amounts to ----------

  predicate IsBus(d: Device, spec: Spec) {
    d.action == "add" && d.subsystem == "rbd" && SpecFromDev(d) == Some(spec)
  }

  predicate IsBlock(d: Device) {
    d.action == "add" && d.subsystem == "block"
  }

  /** The numbers of a bus device and of a block device agree; old kernels have no minor. */
  predicate SameNumbers(b: Device, p: Device) {
    b.major == p.blockMajor && (b.minor.Some? ==> b.minor == p.blockMinor)
  }

  /** The bus device of an image: added to the rbd bus with the image's pool, namespace, name and
      snapshot. No namespace is the empty one, and the head has the snapshot name "-" or none. */
  lemma BusExactly(d: Device, pool: string, nspace: string, image: string, snap: string)
    ensures IsBus(d, MakeSpec(pool, nspace, image, snap)) <==>
            && d.action == "add" && d.subsystem == "rbd"
            && d.pool == Some(pool) && d.image == Some(image)
            && (d.poolNs == Some(nspace) || (d.poolNs == None && nspace == ""))
            && d.snap.Some?
            && (d.snap.value == snap || (d.snap.value in {"", "-"} && snap in {"", "-"}))
  {
  }

  /** A block device has the numbers of a bus device when its MAJOR property is the bus device's
      major attribute and its MINOR the minor one, which old kernels do not have. */
  lemma BlockExactly(b: Device, p: Device)
    ensures IsBlock(p) && SameNumbers(b, p) <==>
            && p.action == "add" && p.subsystem == "block" && p.blockMajor == b.major
            && (b.minor == None || p.blockMinor == b.minor)
  {
  }

  /** What the kernel guarantees of a bus and a block device, as far as the handler reads them; it
      asserts the rest. */
  predicate Agree(b: Device, p: Device, haveMinor: bool) {
    && b.major.Some? && (b.minor.Some? <==> haveMinor)
    && p.blockMajor.Some? && (b.minor.Some? && b.major == p.blockMajor ==> p.blockMinor.Some?)
    && (SameNumbers(b, p) ==> p.devnode == RbdName(b))
  }

  /** The first bus device announced for the image. */
  function FirstBus(h: seq<Device>, spec: Spec): (r: Option<Device>)
    ensures r.Some? ==> r.value in h && IsBus(r.value, spec)
    ensures r.None? ==> forall d | d in h :: !IsBus(d, spec)
  {
    if h == [] then None
    else if IsBus(h[0], spec) then Some(h[0])
    else FirstBus(h[1..], spec)
  }

  /** The bus device that is remembered agrees with every block device. */
  ghost predicate Consistent(h: seq<Device>, spec: Spec, haveMinor: bool) {
    var bus := FirstBus(h, spec);
    bus.Some? ==> forall p | p in h && IsBlock(p) :: Agree(bus.value, p, haveMinor)
  }

  function Blocks(h: seq<Device>): (r: seq<Device>)
    ensures forall d :: d in r <==> d in h && IsBlock(d)
  {
    if h == [] then []
    else if IsBlock(h[|h| - 1]) then Blocks(h[..|h| - 1]) + [h[|h| - 1]]
    else Blocks(h[..|h| - 1])
  }

  datatype Job = MapImage(spec: Spec) | UnmapDevice(devno: nat)

  /** The devices announced so far complete the job: for a map, the image's first bus device and
      a block device with its numbers; for an unmap, the removal of the device. */
  ghost predicate Fired(job: Job, h: seq<Device>) {
    match job
    case MapImage(spec) =>
      var bus := FirstBus(h, spec);
      bus.Some? && exists p :: p in h && IsBlock(p) && SameNumbers(bus.value, p)
    case UnmapDevice(devno) =>
      exists d :: d in h && d.action == "remove" && d.devnum == devno
  }

  lemma {:induction false} FirstBusAppend(h: seq<Device>, d: Device, spec: Spec)
    ensures FirstBus(h + [d], spec) ==
            if FirstBus(h, spec).Some? then FirstBus(h, spec)
            else if IsBus(d, spec) then Some(d) else None
  {
    if h != [] {
      assert (h + [d])[1..] == h[1..] + [d];
      FirstBusAppend(h[1..], d, spec);
    }
  }

  lemma {:induction false} FirstBusOfPrefix(h: seq<Device>, g: seq<Device>, spec: Spec)
    ensures FirstBus(h + g, spec) == if FirstBus(h, spec).Some? then FirstBus(h, spec) else FirstBus(g, spec)
  {
    if h == [] {
      assert h + g == g;
    } else {
      assert (h + g)[1..] == h[1..] + g;
      FirstBusOfPrefix(h[1..], g, spec);
    }
  }

  lemma PrefixConsistent(h: seq<Device>, g: seq<Device>, spec: Spec, haveMinor: bool)
    requires h <= g && Consistent(g, spec, haveMinor)
    ensures Consistent(h, spec, haveMinor)
  {
    assert g == h + g[|h|..];
    FirstBusOfPrefix(h, g[|h|..], spec);
  }

  lemma BlocksAppend(h: seq<Device>, d: Device)
    ensures Blocks(h + [d]) == if IsBlock(d) then Blocks(h) + [d] else Blocks(h)
  {
    assert (h + [d])[..|h|] == h;
  }

  /** Once complete, always complete. */
  lemma {:induction false} FiredGrows(job: Job, h: seq<Device>, g: seq<Device>)
    requires Fired(job, h)
    ensures Fired(job, h + g)
  {
    if g == [] {
      assert h + g == h;
    } else {
      FiredGrows(job, h, g[..|g| - 1]);
      assert h + g == (h + g[..|g| - 1]) + [g[|g| - 1]];
      if job.MapImage? {
        FirstBusAppend(h + g[..|g| - 1], g[|g| - 1], job.spec);
      }
    }
  }

  lemma OtherDevicesDoNotFire(h: seq<Device>, d: Device, spec: Spec)
    requires !IsBlock(d) && (IsBus(d, spec) ==> FirstBus(h, spec).Some?)
    ensures Fired(MapImage(spec), h + [d]) <==> Fired(MapImage(spec), h)
  {
    FirstBusAppend(h, d, spec);
  }

  /** Some bus device of the image and some block device with its numbers are among h. */
  ghost predicate HasPair(h: seq<Device>, spec: Spec) {
    exists b, p :: b in h && p in h && IsBus(b, spec) && IsBlock(p) && SameNumbers(b, p)
  }

  /** Every bus device of the image has the numbers of the first, as far as that has them. */
  ghost predicate SameBuses(h: seq<Device>, spec: Spec) {
    var bus := FirstBus(h, spec);
    forall b | b in h && IsBus(b, spec) ::
      b.major == bus.value.major && (bus.value.minor.Some? ==> b.minor == bus.value.minor)
  }

  ghost predicate NoBus(g: seq<Device>, spec: Spec) {
    forall d | d in g :: !IsBus(d, spec)
  }

  lemma PairCompletes(h: seq<Device>, g: seq<Device>, spec: Spec)
    requires SameBuses(h, spec) && NoBus(g, spec)
    ensures Fired(MapImage(spec), h + g) <==> HasPair(h + g, spec)
  {
    FirstBusOfPrefix(h, g, spec);
    if HasPair(h + g, spec) {
      var b, p :| b in h + g && p in h + g && IsBus(b, spec) && IsBlock(p) && SameNumbers(b, p);
      assert b in h;
      assert SameNumbers(FirstBus(h, spec).value, p);
    }
    if Fired(MapImage(spec), h + g) {
      var b := FirstBus(h + g, spec).value;
      assert b in h + g && IsBus(b, spec);
    }
  }

  /** When the image is mapped twice at once, the block device of the second mapping pairs with its
      bus device and does not complete the job: only the first bus device is remembered. */
  lemma SecondMappingIsIgnored(h: seq<Device>, spec: Spec) returns (p: Device)
    requires !SameBuses(h, spec) && forall d | d in h :: !IsBlock(d)
    ensures IsBlock(p) && HasPair(h + [p], spec) && !Fired(MapImage(spec), h + [p])
  {
    var first := FirstBus(h, spec).value;
    var b :| b in h && IsBus(b, spec) &&
             !(b.major == first.major && (first.minor.Some? ==> b.minor == first.minor));
    var minor := if b.minor.Some? then b.minor else if first.minor == Some("0") then Some("1") else Some("0");
    p := Device(0, "add", "block", None, None, None, None, None, None, b.major, minor, "", RbdName(b), 0);
    assert b in h + [p] && p in h + [p] && SameNumbers(b, p);
    FirstBusAppend(h, p, spec);
    assert !SameNumbers(first, p);
  }

  /** The rule that a map completes with the first pair of a bus and a block device is right,
      whatever follows the bus devices, exactly when these all have the same numbers. */
  lemma FirstPairExactly(h: seq<Device>, spec: Spec)
    requires forall d | d in h :: !IsBlock(d)
    ensures SameBuses(h, spec) <==>
            forall g | NoBus(g, spec) :: Fired(MapImage(spec), h + g) <==> HasPair(h + g, spec)
  {
    if SameBuses(h, spec) {
      forall g | NoBus(g, spec)
        ensures Fired(MapImage(spec), h + g) <==> HasPair(h + g, spec)
      {
        PairCompletes(h, g, spec);
      }
    } else {
      var p := SecondMappingIsIgnored(h, spec);
      assert NoBus([p], spec);
    }
  }

  ghost predicate OneBus(h: seq<Device>, spec: Spec) {
    forall b, c | b in h && c in h && IsBus(b, spec) && IsBus(c, spec) :: b == c
  }

  /** Events reordered: the same jobs complete, with the same device. */
  lemma OrderDoesNotMatter(h: seq<Device>, g: seq<Device>, spec: Spec)
    requires multiset(h) == multiset(g) && OneBus(h, spec)
    ensures Fired(MapImage(spec), h) <==> Fired(MapImage(spec), g)
    ensures FirstBus(h, spec) == FirstBus(g, spec)
  {
    assert forall d :: d in h <==> d in multiset(h);
    assert forall d :: d in g <==> d in multiset(g);
    assert forall d :: d in h <==> d in g;
  }

  // ---------- The handlers ----------

  function Held(bus: Option<Device>, blocks: seq<Device>): multiset<Device> {
    multiset(if bus.Some? then [bus.value] else []) + multiset(blocks)
  }

  lemma HeldAlso(bus: Option<Device>, blocks: seq<Device>, dev: Device)
    ensures Held(bus, blocks + [dev]) == Held(bus, blocks) + multiset{dev}
    ensures bus.None? ==> Held(Some(dev), blocks) == Held(bus, blocks) + multiset{dev}
  {
  }

  /** UdevMapHandler and UdevUnmapHandler: one class, the two instances of the template
      parameter of `wait_for_mapping`. */
  class UdevHandler {
    const job: Job
    const haveMinor: bool
    var busDev: Option<Device>
    var blockDevs: seq<Device>
    var devnode: Option<string>
    ghost var received: seq<Device>
    ghost var released: multiset<Device>

    /** The stored devices are the first bus device and every block device, in order. */
    ghost predicate Stored()
      reads this
    {
      match job
      case MapImage(spec) => busDev == FirstBus(received, spec) && blockDevs == Blocks(received)
      case UnmapDevice(_) => busDev.None? && blockDevs == []
    }

    /** Also, each device received is either stored or already released, once. */
    ghost predicate Valid()
      reads this
    {
      Stored() && released + Held(busDev, blockDevs) == multiset(received)
    }

    constructor (job: Job, haveMinor: bool)
      ensures Valid() && received == [] && devnode.None?
      ensures this.job == job && this.haveMinor == haveMinor
    {
      this.job, this.haveMinor := job, haveMinor;
      busDev, blockDevs, devnode := None, [], None;
      received, released := [], multiset{};
    }

    /** `operator()`: on a stream that was not complete, answers whether it now is. */
    method Handle(dev: Device) returns (matched: bool)
      requires Valid()
      requires job.MapImage? ==> Consistent(received + [dev], job.spec, haveMinor)
      modifies this
      ensures Valid() && received == old(received) + [dev]
      ensures old(busDev).Some? ==> busDev == old(busDev)
      ensures !Fired(job, old(received)) ==> matched == Fired(job, received)
      ensures job.UnmapDevice? ==> matched == (dev.action == "remove" && dev.devnum == job.devno)
      ensures devnode == if matched && job.MapImage? then Some(RbdName(busDev.value)) else old(devnode)
    {
      if job.MapImage? {
        matched := HandleMap(dev);
      } else {
        matched := HandleUnmap(dev);
      }
    }

    /** The labels `next` and `check` begin with what becomes of the device: it is released at once,
        remembered as the bus device, or added to the block devices. */
    method Release(dev: Device)
      requires Valid()
      requires job.MapImage? ==> !IsBlock(dev) && (IsBus(dev, job.spec) ==> busDev.Some?)
      modifies this
      ensures Valid() && received == old(received) + [dev]
      ensures busDev == old(busDev) && devnode == old(devnode)
    {
      if job.MapImage? {
        FirstBusAppend(received, dev, job.spec);
        BlocksAppend(received, dev);
      }
      received, released := received + [dev], released + multiset{dev};
    }

    method StoreBus(dev: Device)
      requires Valid() && job.MapImage? && busDev.None? && IsBus(dev, job.spec)
      modifies this
      ensures Valid() && received == old(received) + [dev] && devnode == old(devnode)
    {
      FirstBusAppend(received, dev, job.spec);
      BlocksAppend(received, dev);
      HeldAlso(busDev, blockDevs, dev);
      received, busDev := received + [dev], Some(dev);
    }

    method StoreBlock(dev: Device)
      requires Valid() && job.MapImage? && IsBlock(dev)
      modifies this
      ensures Valid() && received == old(received) + [dev]
      ensures busDev == old(busDev) && devnode == old(devnode)
    {
      FirstBusAppend(received, dev, job.spec);
      BlocksAppend(received, dev);
      HeldAlso(busDev, blockDevs, dev);
      received, blockDevs := received + [dev], blockDevs + [dev];
    }

    /** `UdevUnmapHandler::operator()`. */
    method HandleUnmap(dev: Device) returns (matched: bool)
      requires Valid() && job.UnmapDevice?
      modifies this
      ensures Valid() && received == old(received) + [dev] && devnode == old(devnode)
      ensures matched == (dev.action == "remove" && dev.devnum == job.devno)
    {
      matched := dev.action == "remove" && dev.devnum == job.devno;
      Release(dev);
    }

    /** `UdevMapHandler::operator()`. */
    method HandleMap(dev: Device) returns (matched: bool)
      requires Valid() && job.MapImage? && Consistent(received + [dev], job.spec, haveMinor)
      modifies this
      ensures Valid() && received == old(received) + [dev]
      ensures old(busDev).Some? ==> busDev == old(busDev)
      ensures !Fired(job, old(received)) ==> matched == Fired(job, received)
      ensures matched ==> busDev.Some? && devnode == Some(RbdName(busDev.value))
      ensures !matched ==> devnode == old(devnode)
    {
      matched := false;
      if IsBlock(dev) {
        StoreBlock(dev);
        matched := Check();
      } else if busDev.None? && IsBus(dev, job.spec) {
        StoreBus(dev);
        matched := Check();
      } else {
        OtherDevicesDoNotFire(received, dev, job.spec);
        Release(dev);
      }
    }

    /** The label `check`: look for a stored block device with the numbers of the bus device. */
    method Check() returns (matched: bool)
      requires job.MapImage? && Stored() && Consistent(received, job.spec, haveMinor)
      modifies this
      ensures matched == Fired(job, received) && received == old(received) && busDev == old(busDev)
      ensures old(Valid()) ==> Valid()
      ensures matched ==> busDev.Some? && devnode == Some(RbdName(busDev.value))
      ensures !matched ==> devnode == old(devnode)
    {
      matched := false;
      if busDev.Some? {
        var i := 0;
        while i < |blockDevs|
          invariant 0 <= i <= |blockDevs|
          invariant forall j | 0 <= j < i :: !SameNumbers(busDev.value, blockDevs[j])
        {
          if SameNumbers(busDev.value, blockDevs[i]) {
            assert blockDevs[i] in received && IsBlock(blockDevs[i]);
            var name := RbdName(busDev.value);
            assert Agree(busDev.value, blockDevs[i], haveMinor);
            assert blockDevs[i].devnode == name;
            devnode := Some(name);
            return true;
          }
          i := i + 1;
        }
      }
      assert !Fired(job, received);
    }

    /** The destructor: whatever path each device took, it has now been released exactly once. */
    method Destroy()
      requires Valid()
      modifies this
      ensures released == multiset(received) && received == old(received)
      ensures devnode == old(devnode)
    {
      released := released + Held(busDev, blockDevs);
      busDev, blockDevs := None, [];
    }
  }

  // ---------- The rendezvous ----------

  /** What one readiness of the udev socket yields: devices until `udev_monitor_receive_device`
      returns null, with an error or (None) with EAGAIN or EINTR. */
  datatype Batch = Batch(devs: seq<Device>, errno: Option<Errno>)

  type Errno = e: int | e > 0 witness 1

  /** One return of `poll`: the descriptors that are ready and what reading them gives. A
      descriptor the caller has disabled is ignored. */
  datatype Poll = Poll(sysfs: Option<int>, udev: Option<Batch>)

  datatype Recv = Dev(dev: Device) | Err(errno: Errno)

  /** The result of the sysfs write: the pipe carries one. */
  function SysfsResult(polls: seq<Poll>): Option<int> {
    if polls == [] then None
    else if SysfsResult(polls[..|polls| - 1]).Some? then SysfsResult(polls[..|polls| - 1])
    else polls[|polls| - 1].sysfs
  }

  function BatchStream(b: Batch): seq<Recv> {
    seq(|b.devs|, i requires 0 <= i < |b.devs| => Dev(b.devs[i])) +
    if b.errno.Some? then [Err(b.errno.value)] else []
  }

  /** Everything udev delivers, in order, however the polls cut it up. */
  function Stream(polls: seq<Poll>): seq<Recv> {
    if polls == [] then []
    else
      var last := polls[|polls| - 1].udev;
      Stream(polls[..|polls| - 1]) + if last.Some? then BatchStream(last.value) else []
  }

  /** The first terminal event of a stream that follows devices h: an error, or the device that
      completes the job. */
  ghost function Terminal(job: Job, h: seq<Device>, s: seq<Recv>): (r: Option<int>)
    ensures r.Some? ==> r.value <= 0
    decreases s
  {
    if s == [] then None
    else if s[0].Err? then Some(-(s[0].errno as int))
    else if Fired(job, h + [s[0].dev]) then Some(0)
    else Terminal(job, h + [s[0].dev], s[1..])
  }

  /** The devices of a stream that follows devices h, through its first terminal event. */
  ghost function Through(job: Job, h: seq<Device>, s: seq<Recv>): seq<Device>
    decreases s
  {
    if s == [] || s[0].Err? then []
    else if Fired(job, h + [s[0].dev]) then [s[0].dev]
    else [s[0].dev] + Through(job, h + [s[0].dev], s[1..])
  }

  predicate Failed(polls: seq<Poll>) {
    SysfsResult(polls).Some? && SysfsResult(polls).value < 0
  }

  /** The polls before the one, if any, that brings the kernel's error. */
  function Watched(polls: seq<Poll>): seq<Poll> {
    if !Failed(polls) then polls else Watched(polls[..|polls| - 1])
  }

  /** The devices received under a schedule: through the first terminal event, and none from the
      poll on that brings the kernel's error. */
  ghost function Consumed(job: Job, polls: seq<Poll>): seq<Device> {
    Through(job, [], Stream(Watched(polls)))
  }

  datatype Outcome = Done(r: int, mapped: bool) | Waiting(onSysfs: bool, onUdev: bool)

  /** The promised result: the kernel's error if the write failed, otherwise the first terminal
      udev event, and neither before the write's result is in. */
  ghost function Expected(job: Job, sysfs: Option<int>, s: seq<Recv>): Outcome {
    var t := Terminal(job, [], s);
    match sysfs
    case None => Waiting(true, t.None?)
    case Some(k) =>
      if k < 0 then Done(k, false)
      else if t.Some? then Done(t.value, true)
      else Waiting(false, true)
  }

  /** What has ended a stream still ends a longer one. */
  lemma {:induction false} TerminalOfPrefix(job: Job, h: seq<Device>, s: seq<Recv>, t: seq<Recv>)
    requires Terminal(job, h, s).Some?
    ensures Terminal(job, h, s + t) == Terminal(job, h, s)
    ensures Through(job, h, s + t) == Through(job, h, s)
    decreases s
  {
    assert (s + t)[0] == s[0] && (s + t)[1..] == s[1..] + t;
    if s[0].Dev? && !Fired(job, h + [s[0].dev]) {
      TerminalOfPrefix(job, h + [s[0].dev], s[1..], t);
    }
  }

  lemma {:induction false} ThroughGrows(job: Job, h: seq<Device>, s: seq<Recv>, t: seq<Recv>)
    ensures Through(job, h, s) <= Through(job, h, s + t)
    decreases s
  {
    if s != [] {
      assert (s + t)[0] == s[0] && (s + t)[1..] == s[1..] + t;
      if s[0].Dev? && !Fired(job, h + [s[0].dev]) {
        ThroughGrows(job, h + [s[0].dev], s[1..], t);
      }
    }
  }

  /** s starts with exactly the devices g. */
  ghost predicate StartsWith(s: seq<Recv>, g: seq<Device>) {
    |g| <= |s| && forall i | 0 <= i < |g| :: s[i] == Dev(g[i])
  }

  lemma StillOpen(job: Job, h: seq<Device>, g: seq<Device>)
    requires !Fired(job, h + g)
    ensures !Fired(job, h)
  {
    if Fired(job, h) {
      FiredGrows(job, h, g);
    }
  }

  /** Devices that do not complete the job are passed over. */
  lemma {:induction false} PassOver(job: Job, h: seq<Device>, s: seq<Recv>, g: seq<Device>)
    requires StartsWith(s, g) && !Fired(job, h + g)
    ensures Terminal(job, h, s) == Terminal(job, h + g, s[|g|..])
    ensures Through(job, h, s) == g + Through(job, h + g, s[|g|..])
    decreases s
  {
    if g == [] {
      assert h + g == h && s[0..] == s;
    } else {
      var h1, s1, g1 := h + [g[0]], s[1..], g[1..];
      assert h1 + g1 == h + g && s1[|g1|..] == s[|g|..] && s[0] == Dev(g[0]);
      StillOpen(job, h1, g1);
      PassOver(job, h1, s1, g1);
      calc {
        Through(job, h, s);
        [g[0]] + Through(job, h1, s1);
        [g[0]] + (g1 + Through(job, h + g, s[|g|..]));
        { AppendAssociative([g[0]], g1, Through(job, h + g, s[|g|..])); assert g == [g[0]] + g1; }
        g + Through(job, h + g, s[|g|..]);
      }
    }
  }

  /** What has been decided by some poll stays decided. */
  lemma {:induction false} Settled(job: Job, polls: seq<Poll>, i: nat)
    requires i <= |polls|
    ensures Stream(polls[..i]) <= Stream(polls)
    ensures SysfsResult(polls[..i]).Some? ==> SysfsResult(polls) == SysfsResult(polls[..i])
    ensures Terminal(job, [], Stream(polls[..i])).Some? ==>
              && Terminal(job, [], Stream(polls)) == Terminal(job, [], Stream(polls[..i]))
              && Through(job, [], Stream(polls)) == Through(job, [], Stream(polls[..i]))
    decreases |polls| - i
  {
    if i == |polls| {
      assert polls[..i] == polls;
    } else {
      Settled(job, polls, i + 1);
      NextPoll(job, polls, i);
    }
  }

  lemma NextPoll(job: Job, polls: seq<Poll>, i: nat)
    requires i < |polls|
    ensures SysfsResult(polls[..i + 1]) ==
            if SysfsResult(polls[..i]).Some? then SysfsResult(polls[..i]) else polls[i].sysfs
    ensures Stream(polls[..i + 1]) ==
            if polls[i].udev.Some? then Stream(polls[..i]) + BatchStream(polls[i].udev.value)
            else Stream(polls[..i])
    ensures Terminal(job, [], Stream(polls[..i])).Some? ==>
              && Terminal(job, [], Stream(polls[..i + 1])) == Terminal(job, [], Stream(polls[..i]))
              && Through(job, [], Stream(polls[..i + 1])) == Through(job, [], Stream(polls[..i]))
  {
    assert polls[..i + 1][..i] == polls[..i] && Stream(polls[..i]) + [] == Stream(polls[..i]);
    if Terminal(job, [], Stream(polls[..i])).Some? && polls[i].udev.Some? {
      TerminalOfPrefix(job, [], Stream(polls[..i]), BatchStream(polls[i].udev.value));
    }
  }

  /** The devices received start the stream, and no fewer of them complete the job. */
  lemma {:induction false} ThroughExactly(job: Job, h: seq<Device>, s: seq<Recv>)
    requires !Fired(job, h)
    ensures StartsWith(s, Through(job, h, s))
    ensures forall n | 0 <= n < |Through(job, h, s)| :: !Fired(job, h + Through(job, h, s)[..n])
    decreases s
  {
    assert h + [] == h;
    var g := Through(job, h, s);
    if |g| > 1 {
      var h1, g1 := h + [s[0].dev], g[1..];
      ThroughExactly(job, h1, s[1..]);
      forall n | 0 < n < |g|
        ensures !Fired(job, h + g[..n])
      {
        assert h + g[..n] == h1 + g1[..n - 1];
      }
    }
  }

  /** t is what it means to have received devices g of a stream s, and no more. */
  ghost predicate DecidedBy(job: Job, h: seq<Device>, s: seq<Recv>, g: seq<Device>, t: Option<int>) {
    if Fired(job, h + g) then t == Some(0)
    else if |g| < |s| then s[|g|].Err? && t == Some(-(s[|g|].errno as int))
    else t == None
  }

  /** If the devices received complete the job the wait has succeeded; if not, an error follows them
      or nothing does. */
  lemma {:induction false} TerminalExactly(job: Job, h: seq<Device>, s: seq<Recv>)
    requires !Fired(job, h)
    ensures DecidedBy(job, h, s, Through(job, h, s), Terminal(job, h, s))
    decreases s
  {
    assert h + [] == h;
    if s != [] && s[0].Dev? {
      var d, s1 := s[0].dev, s[1..];
      if !Fired(job, h + [d]) {
        TerminalExactly(job, h + [d], s1);
        OneFurther(job, h, s, Through(job, h + [d], s1), Terminal(job, h, s));
      }
    }
  }

  lemma OneFurther(job: Job, h: seq<Device>, s: seq<Recv>, g: seq<Device>, t: Option<int>)
    requires s != [] && s[0].Dev? && DecidedBy(job, h + [s[0].dev], s[1..], g, t)
    ensures DecidedBy(job, h, s, [s[0].dev] + g, t)
  {
    assert h + ([s[0].dev] + g) == (h + [s[0].dev]) + g;
  }

  lemma {:induction false} WatchedFrom(polls: seq<Poll>, i: nat)
    requires i <= |polls| && !Failed(polls[..i])
    ensures polls[..i] <= Watched(polls)
    decreases |polls|
  {
    if Failed(polls) {
      assert i < |polls| by {
        assert polls[..|polls|] == polls;
      }
      assert polls[..|polls| - 1][..i] == polls[..i];
      WatchedFrom(polls[..|polls| - 1], i);
    }
  }

  lemma {:induction false} SysfsStays(polls: seq<Poll>, i: nat)
    requires i <= |polls| && SysfsResult(polls[..i]).Some?
    ensures SysfsResult(polls) == SysfsResult(polls[..i])
    decreases |polls|
  {
    if i < |polls| {
      assert polls[..|polls| - 1][..i] == polls[..i];
      SysfsStays(polls[..|polls| - 1], i);
    } else {
      assert polls[..i] == polls;
    }
  }

  lemma {:induction false} WatchedUntil(polls: seq<Poll>, i: nat)
    requires i < |polls| && !Failed(polls[..i]) && Failed(polls[..i + 1])
    ensures Watched(polls) == polls[..i]
    decreases |polls|
  {
    SysfsStays(polls, i + 1);
    var shorter := polls[..|polls| - 1];
    assert shorter[..i] == polls[..i];
    if i + 1 < |polls| {
      assert shorter[..i + 1] == polls[..i + 1];
      WatchedUntil(shorter, i);
    }
  }

  /** What has been received by some poll stays received. */
  lemma ReceivedSoFar(job: Job, polls: seq<Poll>, i: nat)
    requires i <= |polls| && !Failed(polls[..i])
    ensures Through(job, [], Stream(polls[..i])) <= Consumed(job, polls)
    ensures Terminal(job, [], Stream(polls[..i])).Some? ==>
              Consumed(job, polls) == Through(job, [], Stream(polls[..i]))
  {
    WatchedFrom(polls, i);
    var w := Watched(polls);
    assert w[..i] == polls[..i];
    Settled(job, w, i);
    assert Stream(w) == Stream(w[..i]) + Stream(w)[|Stream(w[..i])|..];
    ThroughGrows(job, [], Stream(w[..i]), Stream(w)[|Stream(w[..i])|..]);
  }

  /** The handler has seen exactly the first n events of a stream, devices that do not complete
      the job. */
  ghost predicate Following(h: UdevHandler, all: seq<Recv>, n: nat)
    reads h
  {
    h.Valid() && |h.received| == n && StartsWith(all, h.received) && !Fired(h.job, h.received)
  }

  lemma FirstDecides(job: Job, g: seq<Device>, s: seq<Recv>)
    ensures s == [] ==> Terminal(job, g, s).None?
    ensures s == [] || s[0].Err? ==> g + Through(job, g, s) == g
    ensures s != [] && s[0].Err? ==> Terminal(job, g, s) == Some(-(s[0].errno as int))
    ensures s != [] && s[0].Dev? ==> g + [s[0].dev] <= g + Through(job, g, s)
    ensures s != [] && s[0].Dev? && Fired(job, g + [s[0].dev]) ==>
              Terminal(job, g, s) == Some(0 as int) && Through(job, g, s) == [s[0].dev]
  {
    if s != [] && s[0].Dev? {
      var t := Through(job, g, s);
      assert t[0] == s[0].dev;
      assert (g + t)[..|g| + 1] == g + [s[0].dev];
    }
  }

  /** What the event after devices g, if any, decides. */
  lemma NextDecides(job: Job, g: seq<Device>, all: seq<Recv>, n: nat)
    requires |g| == n && StartsWith(all, g) && !Fired(job, g)
    ensures n == |all| ==> Terminal(job, [], all).None?
    ensures n == |all| || all[n].Err? ==> Through(job, [], all) == g
    ensures n < |all| && all[n].Err? ==> Terminal(job, [], all) == Some(-(all[n].errno as int))
    ensures n < |all| && all[n].Dev? ==> g + [all[n].dev] <= Through(job, [], all)
    ensures n < |all| && all[n].Dev? && Fired(job, g + [all[n].dev]) ==>
              Terminal(job, [], all) == Some(0 as int) && Through(job, [], all) == g + [all[n].dev]
  {
    assert [] + g == g;
    PassOver(job, [], all, g);
    var s := all[n..];
    FirstDecides(job, g, s);
  }

  /** The job is complete, and a mapped device is named after the first bus device. */
  ghost predicate Completed(h: UdevHandler)
    reads h
  {
    && Fired(h.job, h.received)
    && (h.job.MapImage? ==> h.devnode == Some(RbdName(FirstBus(h.received, h.job.spec).value)))
  }

  method Receive(h: UdevHandler, dev: Device, ghost all: seq<Recv>, ghost n: nat) returns (matched: bool)
    requires Following(h, all, n) && n < |all| && all[n] == Dev(dev)
    requires h.job.MapImage? ==> Consistent(Through(h.job, [], all), h.job.spec, h.haveMinor)
    modifies h
    ensures h.Valid()
    ensures if matched then
              Completed(h) && Terminal(h.job, [], all) == Some(0) && h.received == Through(h.job, [], all)
            else Following(h, all, n + 1)
  {
    ghost var job, g := h.job, h.received + [dev];
    assert job.MapImage? ==> Consistent(g, job.spec, h.haveMinor) by {
      NextDecides(job, h.received, all, n);
      if job.MapImage? {
        PrefixConsistent(g, Through(job, [], all), job.spec, h.haveMinor);
      }
    }
    assert StartsWith(all, g);
    assert Fired(job, g) ==> Terminal(job, [], all) == Some(0) && Through(job, [], all) == g by {
      NextDecides(job, h.received, all, n);
    }
    matched := h.Handle(dev);
    assert h.received == g;
  }

  /** From position n on, the stream is exactly this batch. */
  ghost predicate EndsWith(all: seq<Recv>, n: nat, batch: Batch) {
    && |all| == n + |batch.devs| + (if batch.errno.Some? then 1 else 0)
    && (forall j | 0 <= j < |batch.devs| :: all[n + j] == Dev(batch.devs[j]))
    && (batch.errno.Some? ==> all[|all| - 1] == Err(batch.errno.value))
  }

  /** The inner loop of `wait_for_mapping`: receive until the socket is empty, fails, or yields
      the device that completes the job. */
  method DrainUdev(h: UdevHandler, batch: Batch, ghost all: seq<Recv>, ghost n: nat) returns (udevR: int)
    requires Following(h, all, n) && EndsWith(all, n, batch)
    requires h.job.MapImage? ==> Consistent(Through(h.job, [], all), h.job.spec, h.haveMinor)
    modifies h
    ensures h.Valid()
    ensures var t := Terminal(h.job, [], all); udevR == if t.Some? then t.value else INT_MAX
    ensures h.received == Through(h.job, [], all)
    ensures udevR == 0 ==> Completed(h)
    ensures udevR == INT_MAX ==> Following(h, all, |all|)
  {
    var j := 0;
    while j < |batch.devs|
      invariant 0 <= j <= |batch.devs|
      invariant Following(h, all, n + j)
    {
      var matched := Receive(h, batch.devs[j], all, n + j);
      if matched {
        return 0;
      }
      j := j + 1;
    }
    NextDecides(h.job, h.received, all, n + j);
    udevR := if batch.errno.Some? then -(batch.errno.value as int) else INT_MAX;
  }

  lemma BatchAtEnd(s: seq<Recv>, b: Batch)
    ensures EndsWith(s + BatchStream(b), |s|, b)
    ensures forall g | StartsWith(s, g) :: StartsWith(s + BatchStream(b), g)
  {
  }

  lemma StartBatch(h: UdevHandler, polls: seq<Poll>, i: nat)
    requires i < |polls| && polls[i].udev.Some?
    requires Following(h, Stream(polls[..i]), |Stream(polls[..i])|)
    ensures Following(h, Stream(polls[..i + 1]), |Stream(polls[..i])|)
    ensures EndsWith(Stream(polls[..i + 1]), |Stream(polls[..i])|, polls[i].udev.value)
  {
    NextPoll(h.job, polls, i);
    BatchAtEnd(Stream(polls[..i]), polls[i].udev.value);
  }

  /** A result as the loop keeps it. */
  function Got(r: int): Option<int> {
    if r == INT_MAX then None else Some(r)
  }

  /** What the pipe has yielded after i polls. */
  function SysfsAt(polls: seq<Poll>, i: nat): Option<int>
    requires i <= |polls|
  {
    SysfsResult(polls[..i])
  }

  /** What udev has decided after i polls, if the handler has received the devices up to there. */
  datatype Standing = Astray | At(udev: Option<int>)

  ghost predicate InStep(h: UdevHandler, polls: seq<Poll>, i: nat)
    requires i <= |polls|
    reads h
  {
    var s := Stream(polls[..i]);
    && h.Valid() && h.received == Through(h.job, [], s)
    && (Terminal(h.job, [], s) == Some(0) ==> Completed(h))
    && (Terminal(h.job, [], s).None? ==> Following(h, s, |s|))
  }

  ghost function UdevAt(h: UdevHandler, polls: seq<Poll>, i: nat): Standing
    requires i <= |polls|
    reads h
  {
    if InStep(h, polls, i) then At(Terminal(h.job, [], Stream(polls[..i]))) else Astray
  }

  lemma AtStart(h: UdevHandler, polls: seq<Poll>)
    requires h.Valid() && h.received == []
    ensures SysfsAt(polls, 0) == None && UdevAt(h, polls, 0) == At(None)
  {
    assert polls[..0] == [];
  }

  lemma NextSysfs(job: Job, polls: seq<Poll>, i: nat, r: int)
    requires i < |polls| && SysfsAt(polls, i) == Got(r) && polls[i].sysfs != Some(INT_MAX)
    ensures SysfsAt(polls, i + 1) == Got(if r == INT_MAX && polls[i].sysfs.Some? then polls[i].sysfs.value else r)
  {
    NextPoll(job, polls, i);
  }

  lemma UdevIdle(h: UdevHandler, polls: seq<Poll>, i: nat, r: int)
    requires i < |polls| && UdevAt(h, polls, i) == At(Got(r)) && (r != INT_MAX || polls[i].udev.None?)
    ensures UdevAt(h, polls, i + 1) == At(Got(r))
  {
    NextPoll(h.job, polls, i);
  }

  /** The kernel's error is in: later polls change neither the outcome nor what was received. */
  lemma KernelErrorIn(h: UdevHandler, polls: seq<Poll>, i: nat, k: int, r: int)
    requires i < |polls| && SysfsAt(polls, i) == None && UdevAt(h, polls, i) == At(Got(r))
    requires k < 0 && SysfsAt(polls, i + 1) == Got(k)
    ensures Expected(h.job, SysfsResult(polls), Stream(polls)) == Done(k, false)
    ensures h.Valid() && h.received == Consumed(h.job, polls)
  {
    var failed := polls[..i + 1];
    assert SysfsResult(failed) == Some(k) && SysfsResult(polls[..i]) == None;
    SysfsStays(polls, i + 1);
    WatchedUntil(polls, i);
  }

  lemma BothIn(h: UdevHandler, polls: seq<Poll>, i: nat, k: int, r: int)
    requires i <= |polls| && 0 <= k < INT_MAX && SysfsAt(polls, i) == Got(k)
    requires r != INT_MAX && UdevAt(h, polls, i) == At(Got(r))
    ensures Expected(h.job, SysfsResult(polls), Stream(polls)) == Done(r, true)
    ensures h.Valid() && h.received == Consumed(h.job, polls) && (r == 0 ==> Completed(h))
  {
    Settled(h.job, polls, i);
    ReceivedSoFar(h.job, polls, i);
  }

  lemma StillWaiting(h: UdevHandler, polls: seq<Poll>, k: int, r: int)
    requires SysfsAt(polls, |polls|) == Got(k) && UdevAt(h, polls, |polls|) == At(Got(r))
    requires k == INT_MAX || (k == 0 && r == INT_MAX)
    ensures Expected(h.job, SysfsResult(polls), Stream(polls)) == Waiting(k == INT_MAX, r == INT_MAX)
    ensures h.Valid() && h.received == Consumed(h.job, polls)
  {
    assert polls[..|polls|] == polls;
  }

  /** The udev half of one round of `wait_for_mapping`. */
  method PollUdev(h: UdevHandler, batch: Batch, ghost polls: seq<Poll>, ghost i: nat) returns (udevR: int)
    requires i < |polls| && polls[i].udev == Some(batch)
    requires SysfsAt(polls, i + 1) == None || SysfsAt(polls, i + 1) == Some(0)
    requires UdevAt(h, polls, i) == At(None)
    requires h.job.MapImage? ==> Consistent(Consumed(h.job, polls), h.job.spec, h.haveMinor)
    modifies h
    ensures UdevAt(h, polls, i + 1) == At(Got(udevR))
  {
    ghost var all := Stream(polls[..i + 1]);
    StartBatch(h, polls, i);
    ReceivedSoFar(h.job, polls, i + 1);
    if h.job.MapImage? {
      PrefixConsistent(Through(h.job, [], all), Consumed(h.job, polls), h.job.spec, h.haveMinor);
    }
    udevR := DrainUdev(h, batch, all, |Stream(polls[..i])|);
  }

  /** The outcome in terms of the devices received: a failed write is reported as such; after a
      successful one the wait succeeds exactly when they complete the job, fails with the error that
      follows them, and goes on when nothing does; and nothing ends before the result of the write
      is in. */
  lemma OutcomeExactly(job: Job, polls: seq<Poll>)
    ensures var out := Expected(job, SysfsResult(polls), Stream(polls));
            && (Failed(polls) ==> out == Done(SysfsResult(polls).value, false))
            && (!Failed(polls) ==>
                  var s, g := Stream(polls), Consumed(job, polls);
                  var open := !Fired(job, g) && |g| >= |s|;
                  && (SysfsResult(polls).None? ==> out == Waiting(true, open))
                  && (SysfsResult(polls).Some? && Fired(job, g) ==> out == Done(0, true))
                  && (SysfsResult(polls).Some? && open ==> out == Waiting(false, true))
                  && (SysfsResult(polls).Some? && !Fired(job, g) && |g| < |s| ==>
                        s[|g|].Err? && out == Done(-(s[|g|].errno as int), true)))
  {
    assert [] + Consumed(job, polls) == Consumed(job, polls);
    TerminalExactly(job, [], Stream(polls));
  }

  /** `wait_for_mapping` gives the promised result for every way the polls interleave the pipe
      and the socket, and whenever it still waits, it waits on something. */
  method WaitForMapping(h: UdevHandler, polls: seq<Poll>) returns (out: Outcome)
    requires h.Valid() && h.received == []
    requires forall p | p in polls && p.sysfs.Some? :: p.sysfs.value <= 0
    requires h.job.MapImage? ==> Consistent(Consumed(h.job, polls), h.job.spec, h.haveMinor)
    modifies h
    ensures h.Valid() && h.received == Consumed(h.job, polls)
    ensures out == Expected(h.job, SysfsResult(polls), Stream(polls))
    ensures out.Waiting? ==> out.onSysfs || out.onUdev
    ensures out == Done(0, true) ==> Completed(h)
  {
    var sysfsR, udevR := INT_MAX, INT_MAX;
    var fd0, fd1 := true, true;
    AtStart(h, polls);
    var i := 0;
    while i < |polls|
      invariant 0 <= i <= |polls|
      invariant SysfsAt(polls, i) == Got(sysfsR) && UdevAt(h, polls, i) == At(Got(udevR))
      invariant sysfsR == INT_MAX || (sysfsR == 0 && udevR == INT_MAX)
      invariant fd0 == (sysfsR == INT_MAX) && fd1 == (udevR == INT_MAX)
    {
      var p := polls[i];
      NextSysfs(h.job, polls, i, sysfsR);
      if fd0 && p.sysfs.Some? {
        sysfsR := p.sysfs.value;
        if sysfsR < 0 {
          KernelErrorIn(h, polls, i, sysfsR, udevR);
          return Done(sysfsR, false);
        }
        if udevR != INT_MAX {
          UdevIdle(h, polls, i, udevR);
          BothIn(h, polls, i + 1, sysfsR, udevR);
          return Done(udevR, true);
        }
        fd0 := false;
      }
      if fd1 && p.udev.Some? {
        udevR := PollUdev(h, p.udev.value, polls, i);
        if udevR != INT_MAX {
          if sysfsR != INT_MAX {
            BothIn(h, polls, i + 1, sysfsR, udevR);
            return Done(udevR, true);
          }
          fd1 := false;
        }
      } else {
        UdevIdle(h, polls, i, udevR);
      }
      i := i + 1;
    }
    StillWaiting(h, polls, sysfsR, udevR);
    return Waiting(fd0, fd1);
  }

  lemma {:induction false} PollsConcat(a: seq<Poll>, b: seq<Poll>)
    ensures Stream(a + b) == Stream(a) + Stream(b)
    ensures SysfsResult(a + b) == if SysfsResult(a).Some? then SysfsResult(a) else SysfsResult(b)
  {
    if b == [] {
      assert a + b == a && Stream(a) + [] == Stream(a);
    } else {
      var c := b[..|b| - 1];
      assert (a + b)[..|a + b| - 1] == a + c;
      PollsConcat(a, c);
    }
  }

  lemma OnePoll(p: Poll)
    ensures SysfsResult([p]) == p.sysfs
    ensures Stream([p]) == if p.udev.Some? then BatchStream(p.udev.value) else []
  {
    assert [p][..0] == [];
  }

  lemma BatchSplit(xs: seq<Device>, ys: seq<Device>, e: Option<Errno>)
    ensures BatchStream(Batch(xs, None)) + BatchStream(Batch(ys, e)) == BatchStream(Batch(xs + ys, e))
  {
    var s, t := BatchStream(Batch(xs, None)) + BatchStream(Batch(ys, e)), BatchStream(Batch(xs + ys, e));
    forall i | 0 <= i < |s|
      ensures s[i] == t[i]
    {
    }
  }

  lemma TwoPolls(k: Option<int>, l: Option<int>, xs: seq<Device>, ys: seq<Device>, e: Option<Errno>)
    ensures var two := [Poll(k, Some(Batch(xs, None))), Poll(l, Some(Batch(ys, e)))];
            && SysfsResult(two) == (if k.Some? then k else l)
            && Stream(two) == BatchStream(Batch(xs + ys, e))
  {
    var p, q := Poll(k, Some(Batch(xs, None))), Poll(l, Some(Batch(ys, e)));
    OnePoll(p);
    OnePoll(q);
    assert [p, q] == [p] + [q];
    PollsConcat([p], [q]);
    BatchSplit(xs, ys, e);
  }

  lemma InContext(job: Job, a: seq<Poll>, m: seq<Poll>, m': seq<Poll>, b: seq<Poll>)
    requires SysfsResult(m) == SysfsResult(m') && Stream(m) == Stream(m')
    ensures Expected(job, SysfsResult(a + m + b), Stream(a + m + b)) ==
            Expected(job, SysfsResult(a + m' + b), Stream(a + m' + b))
  {
    PollsConcat(a, m);
    PollsConcat(a, m');
    PollsConcat(a + m, b);
    PollsConcat(a + m', b);
  }

  /** Whether events come in one batch or two, and whether the sysfs result is seen with the
      first or the second, changes nothing. */
  lemma Rescheduled(job: Job, a: seq<Poll>, b: seq<Poll>, k: Option<int>,
                    xs: seq<Device>, ys: seq<Device>, e: Option<Errno>)
    ensures var whole := a + [Poll(k, Some(Batch(xs + ys, e)))] + b;
            var early := a + [Poll(k, Some(Batch(xs, None))), Poll(None, Some(Batch(ys, e)))] + b;
            var late := a + [Poll(None, Some(Batch(xs, None))), Poll(k, Some(Batch(ys, e)))] + b;
            && Expected(job, SysfsResult(early), Stream(early)) == Expected(job, SysfsResult(whole), Stream(whole))
            && Expected(job, SysfsResult(late), Stream(late)) == Expected(job, SysfsResult(whole), Stream(whole))
  {
    OnePoll(Poll(k, Some(Batch(xs + ys, e))));
    TwoPolls(k, None, xs, ys, e);
    TwoPolls(None, k, xs, ys, e);
    InContext(job, a, [Poll(k, Some(Batch(xs, None))), Poll(None, Some(Batch(ys, e)))],
              [Poll(k, Some(Batch(xs + ys, e)))], b);
    InContext(job, a, [Poll(None, Some(Batch(xs, None))), Poll(k, Some(Batch(ys, e)))],
              [Poll(k, Some(Batch(xs + ys, e)))], b);
  }

  /** `do_map`, from the start of the wait: on success the name is that of the image's first bus
      device, and in every case each device received has been released exactly once. */
  method DoMap(spec: Spec, haveMinor: bool, polls: seq<Poll>)
    returns (out: Outcome, name: Option<string>, h: UdevHandler)
    requires forall p | p in polls && p.sysfs.Some? :: p.sysfs.value <= 0
    requires Consistent(Consumed(MapImage(spec), polls), spec, haveMinor)
    ensures out == Expected(MapImage(spec), SysfsResult(polls), Stream(polls))
    ensures out == Done(0, true) ==>
              var devs := Consumed(MapImage(spec), polls);
              Fired(MapImage(spec), devs) && name == Some("/dev/rbd" + FirstBus(devs, spec).value.sysname)
    ensures h.released == multiset(Consumed(MapImage(spec), polls))
  {
    h := new UdevHandler(MapImage(spec), haveMinor);
    out := WaitForMapping(h, polls);
    name := h.devnode;
    h.Destroy();
  }

  /** The unmapper thread: a busy device is retried, at most twice. The answers are what
      successive writes to sysfs return. */
  method Unmapper(answers: seq<int>) returns (sysfsR: int, tries: nat)
    requires |answers| >= 3
    ensures tries <= 2 && sysfsR == answers[tries]
    ensures forall t | 0 <= t < tries :: answers[t] == -EBUSY
    ensures sysfsR == -EBUSY <==> forall t | 0 <= t < 3 :: answers[t] == -EBUSY
  {
    tries := 0;
    while true
      invariant tries <= 2
      invariant forall t | 0 <= t < tries :: answers[t] == -EBUSY
      decreases 3 - tries
    {
      sysfsR := answers[tries];
      if sysfsR == -EBUSY && tries < 2 {
        tries := tries + 1;
      } else {
        break;
      }
    }
  }

  /** `do_unmap`, from the start of the wait: once the write has succeeded the unmap counts as
      done, even if waiting for udev failed. */
  method DoUnmap(devno: nat, polls: seq<Poll>) returns (r: Option<int>, h: UdevHandler)
    requires forall p | p in polls && p.sysfs.Some? :: p.sysfs.value <= 0
    ensures var out := Expected(UnmapDevice(devno), SysfsResult(polls), Stream(polls));
            r == if out.Waiting? then None else if out.mapped then Some(0) else Some(out.r)
    ensures h.released == multiset(Consumed(UnmapDevice(devno), polls))
  {
    h := new UdevHandler(UnmapDevice(devno), true);
    var out := WaitForMapping(h, polls);
    h.Destroy();
    if out.Waiting? {
      return None, h;
    }
    r := Some(if out.r < 0 && out.mapped then 0 else out.r);
  }
}
