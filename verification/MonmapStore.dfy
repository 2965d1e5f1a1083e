/** Where a monitor keeps its monmap on disk, which copy it starts from, and how injecting a map,
    stashing one, committing and full syncs change that. */
module MonmapStore {
  import opened Options

  const ENOENT := 2

  datatype MonMap = MonMap(epoch: nat, mons: string)

  /** The keys of the store that hold monmaps: `monmap:last_committed`, `monmap:<version>`,
      `monmap:latest`, `mon_sync:temp_newer_monmap`, `mon_sync:latest_monmap`, the flags
      `mon_sync:in_sync` and `mon_sync:force_sync`, and `mkfs:monmap`. */
  datatype Store = Store(lastCommitted: Option<nat>, maps: map<nat, MonMap>, latest: Option<(nat, MonMap)>,
                         temp: Option<MonMap>, backup: Option<MonMap>,
                         inSync: bool, forceSync: bool, mkfs: Option<MonMap>) {
    predicate Committed() {
      lastCommitted.Some? && lastCommitted.value in maps
    }

    predicate Syncing() {
      inSync || forceSync
    }
  }

  /** The last committed version names a stored map of that epoch. */
  predicate WellFormed(s: Store) {
    s.lastCommitted.Some? ==>
      s.lastCommitted.value in s.maps && s.maps[s.lastCommitted.value].epoch == s.lastCommitted.value
  }

  /** The map `obtain_monmap` finds, if any. */
  function Obtained(s: Store): Option<MonMap> {
    if s.Committed() then
      if s.temp.Some? && s.temp.value.epoch > s.lastCommitted.value then s.temp
      else Some(s.maps[s.lastCommitted.value])
    else if s.Syncing() && s.backup.Some? then s.backup
    else s.mkfs
  }

  /** The epoch the monitor would start with, or -1. */
  function StartEpoch(s: Store): int {
    var m := Obtained(s);
    if m.Some? then m.value.epoch else -1
  }

  function Max(a: int, b: int): int {
    if a < b then b else a
  }

  function EpochOf(m: Option<MonMap>): int {
    if m.Some? then m.value.epoch else -1
  }

  /** With a committed map the monitor starts from the newer of that and the stashed one. */
  lemma StartsFromNewest(s: Store)
    requires WellFormed(s) && s.lastCommitted.Some?
    ensures StartEpoch(s) == Max(s.lastCommitted.value, EpochOf(s.temp))
  {
  }

  /** Which copy is used, contents and all: the committed map unless the stash is newer; without a
      committed map, the backup if a sync is pending and has one; otherwise the map from mkfs. */
  lemma ObtainedExactly(s: Store, m: MonMap)
    ensures Obtained(s) == Some(m) <==>
            || (s.Committed() && EpochOf(s.temp) <= s.lastCommitted.value && m == s.maps[s.lastCommitted.value])
            || (s.Committed() && EpochOf(s.temp) > s.lastCommitted.value && s.temp == Some(m))
            || (!s.Committed() && (s.inSync || s.forceSync) && s.backup == Some(m))
            || (!s.Committed() && !((s.inSync || s.forceSync) && s.backup.Some?) && s.mkfs == Some(m))
  {
  }

  /** `sync_obtain_latest_monmap`: the newest of the committed map, the last backup and the map in
      use, for the backup a sync takes. */
  function Newest(s: Store, current: MonMap): (m: MonMap)
    ensures m.epoch >= current.epoch && m.epoch >= EpochOf(s.backup)
    ensures s.Committed() ==> m.epoch >= s.maps[s.lastCommitted.value].epoch
  {
    var ver := if s.lastCommitted.Some? then s.lastCommitted.value else 0;
    var committed := if ver in s.maps then s.maps[ver] else MonMap(0, "");
    var backedUp := if EpochOf(s.backup) > committed.epoch then s.backup.value else committed;
    if current.epoch > backedUp.epoch then current else backedUp
  }

  /** The result is one of the candidates as it stands; of several equally new ones the committed map
      is preferred, then the backup. A store without a last committed version reads as version 0. */
  lemma NewestExactly(s: Store, current: MonMap)
    ensures var m, ver := Newest(s, current), if s.lastCommitted.Some? then s.lastCommitted.value else 0;
            var committed, backup := if ver in s.maps then s.maps[ver].epoch else 0, EpochOf(s.backup);
            && (current.epoch > committed && current.epoch > backup ==> m == current)
            && (backup > committed && backup >= current.epoch ==> Some(m) == s.backup)
            && (committed >= backup && committed >= current.epoch ==>
                  m == if ver in s.maps then s.maps[ver] else MonMap(0, ""))
  {
  }

  // ---------- What changes the store ----------

  function Injected(s: Store, m: MonMap): Store {
    var v := (if s.lastCommitted.Some? then s.lastCommitted.value else 0) + 1;
    var stored := m.(epoch := v);
    s.(maps := s.maps[v := stored], latest := Some((v, stored)), lastCommitted := Some(v))
  }

  /** Clearing the sync targets drops every key of the monmap service. */
  function Cleared(s: Store): Store {
    s.(lastCommitted := None, maps := map[], latest := None)
  }

  /** A monitor: its store, the map in use while it runs, and whether it is between marking the
      start of a full sync and clearing the store. */
  datatype State = State(db: Store, running: Option<MonMap>, clearing: bool)

  datatype Op =
    | Boot                 // obtain_monmap, then drop a store whose sync was cut short
    | Exit                 // stop or crash
    | Inject(m: MonMap)    // ceph-mon --inject-monmap, on a stopped monitor
    | Learn(m: MonMap)     // a peer has a newer map
    | Commit(m: MonMap)    // the quorum commits a map
    | Stash                // the map in use is put aside for the next start, and the monitor respawns
    | BeginSync            // full sync: take a backup and set in_sync, in one transaction
    | ClearStore           // full sync: drop the sync targets
    | Receive(m: MonMap)   // full sync: a chunk, or the commits that came later, bring a map
    | FinishSync           // full sync: drop in_sync and force_sync, and use the map received
    | ForceSync            // take a backup and set force_sync, to take effect at the next start

  /** m comes after the last committed version. */
  predicate Later(db: Store, m: MonMap) {
    db.lastCommitted.Some? ==> m.epoch > db.lastCommitted.value
  }

  /** When an operation can happen. Between the two halves of starting a sync only a crash can
      come. */
  predicate Enabled(s: State, op: Op) {
    var free := s.running.Some? && !s.clearing;
    match op
    case Boot => s.running.None? && Obtained(s.db).Some?
    case Exit => true
    case Inject(_) => s.running.None?
    case Learn(m) => free && m.epoch > s.running.value.epoch
    case Commit(m) => free && !s.db.inSync && Later(s.db, m)
    case Stash => free && s.running.value.epoch > 0
    case BeginSync => free
    case ClearStore => s.running.Some? && s.clearing
    case Receive(m) => free && s.db.inSync && Later(s.db, m)
    case FinishSync => free && s.db.inSync && s.db.Committed()
    case ForceSync => free
  }

  function Put(db: Store, m: MonMap): Store {
    db.(maps := db.maps[m.epoch := m], lastCommitted := Some(m.epoch))
  }

  /** `update_from_paxos`: a committed map newer than the one in use replaces it, and with that the
      map the monitor was made with goes. */
  function Refreshed(s: State): State
    requires s.running.Some? && s.db.Committed()
  {
    if s.db.lastCommitted.value <= s.running.value.epoch then s
    else s.(db := s.db.(mkfs := None), running := Some(s.db.maps[s.db.lastCommitted.value]))
  }

  function Step(s: State, op: Op): State
    requires Enabled(s, op)
  {
    match op
    case Boot => State(if s.db.Syncing() then Cleared(s.db) else s.db, Obtained(s.db), false)
    case Exit => s.(running := None, clearing := false)
    case Inject(m) => s.(db := Injected(s.db, m))
    case Learn(m) => s.(running := Some(m))
    case Commit(m) => Refreshed(s.(db := Put(s.db, m)))
    case Stash => State(s.db.(temp := s.running), None, false)
    case BeginSync =>
      s.(db := s.db.(backup := Some(Newest(s.db, s.running.value)), inSync := true), clearing := true)
    case ClearStore => s.(db := Cleared(s.db), clearing := false)
    case Receive(m) => s.(db := Put(s.db, m))
    case FinishSync => Refreshed(s.(db := s.db.(inSync := false, forceSync := false)))
    case ForceSync => s.(db := s.db.(backup := Some(Newest(s.db, s.running.value)), forceSync := true))
  }

  /** What every operation keeps: the store is well-formed, a pending sync has its backup, and
      outside a sync a running monitor uses a map at least as new as the committed one, or as the
      one it was made with. */
  predicate Inv(s: State) {
    && WellFormed(s.db)
    && (s.db.Syncing() ==> s.db.backup.Some?)
    && (s.clearing ==> s.running.Some? && s.db.inSync)
    && (s.running.Some? && s.db.Committed() && !s.db.inSync ==> s.running.value.epoch >= s.db.lastCommitted.value)
    && (s.running.Some? && !s.db.Committed() && !s.db.Syncing() ==> s.running.value.epoch >= StartEpoch(s.db))
  }

  lemma StepKeepsInv(s: State, op: Op)
    requires Inv(s) && Enabled(s, op)
    ensures Inv(Step(s, op))
  {
  }

  /** What an operation leaves on disk, key by key. */
  lemma StoreAfter(s: State, op: Op)
    requires Inv(s) && Enabled(s, op)
    ensures var d, e := s.db, Step(s, op).db;
            && (op.Exit? || op.Learn? ==> e == d)
            && (op.Boot? && !d.inSync && !d.forceSync ==> e == d)
            && ((op.Boot? && (d.inSync || d.forceSync)) || op.ClearStore? ==>
                  && e.lastCommitted == None && e.maps == map[] && e.latest == None
                  && d == e.(lastCommitted := d.lastCommitted, maps := d.maps, latest := d.latest))
            && (op.Stash? ==> e.temp == s.running && d == e.(temp := d.temp))
            && (op.BeginSync? ==> e.inSync && d == e.(backup := d.backup, inSync := d.inSync))
            && (op.ForceSync? ==> e.forceSync && d == e.(backup := d.backup, forceSync := d.forceSync))
            && (op.BeginSync? || op.ForceSync? ==> e.backup == Some(Newest(d, s.running.value)))
            && (op.FinishSync? ==>
                  && !e.inSync && !e.forceSync && d == e.(inSync := d.inSync, forceSync := d.forceSync, mkfs := d.mkfs)
                  && e.mkfs == if d.lastCommitted.value > s.running.value.epoch then None else d.mkfs)
  {
  }

  /** A committed or received map is stored under its epoch, which is the last committed version
      from then on; other versions stay. */
  lemma MapStored(s: State, op: Op)
    requires Inv(s) && Enabled(s, op) && (op.Commit? || op.Receive?)
    ensures var d, e := s.db, Step(s, op).db;
            && e.lastCommitted == Some(op.m.epoch) && op.m.epoch in e.maps && e.maps[op.m.epoch] == op.m
            && (forall v | v != op.m.epoch ::
                  (v in e.maps <==> v in d.maps) && (v in d.maps ==> e.maps[v] == d.maps[v]))
            && d == e.(lastCommitted := d.lastCommitted, maps := d.maps, mkfs := d.mkfs)
            && e.mkfs == if op.Commit? && op.m.epoch > s.running.value.epoch then None else d.mkfs
  {
  }

  /** The map in use is the one obtained at the start, and from then on the newest learned, or
      committed outside a sync. */
  lemma InUseAfter(s: State, op: Op)
    requires Inv(s) && Enabled(s, op)
    ensures var n := Step(s, op).running;
            match op
            case Boot => n == Obtained(s.db)
            case Exit => n == None
            case Stash => n == None
            case Learn(m) => n == Some(m)
            case Commit(m) => n == if m.epoch > s.running.value.epoch then Some(m) else s.running
            case FinishSync =>
              var m := s.db.maps[s.db.lastCommitted.value];
              n == if m.epoch > s.running.value.epoch then Some(m) else s.running
            case _ => n == s.running
  {
  }

  /** The backup, if it were all that is left, is as new as what the monitor would start from. */
  predicate BackedUp(db: Store) {
    db.backup.Some? && db.backup.value.epoch >= StartEpoch(db)
  }

  /** What can be checked beforehand to know that the start epoch will not go back: the store is
      not cleared behind a backup older than what it holds, and a first map that comes in, or a
      replaced stash, is not older than what was there. */
  predicate Safe(s: State, op: Op) {
    match op
    case Boot => s.db.Syncing() ==> BackedUp(s.db)
    case ClearStore => BackedUp(s.db)
    case Inject(_) => s.db.Committed() || Max(1, EpochOf(s.db.temp)) >= StartEpoch(s.db)
    case Commit(m) => s.db.Committed() || Max(m.epoch, EpochOf(s.db.temp)) >= StartEpoch(s.db)
    case Receive(m) => s.db.Committed() || Max(m.epoch, EpochOf(s.db.temp)) >= StartEpoch(s.db)
    case Stash => s.db.Committed() ==> Max(s.db.lastCommitted.value, EpochOf(s.running)) >= StartEpoch(s.db)
    case _ => true
  }

  /** The start epoch goes back exactly when an unsafe operation is done. */
  lemma SafeExactly(s: State, op: Op)
    requires Inv(s) && Enabled(s, op)
    ensures StartEpoch(Step(s, op).db) >= StartEpoch(s.db) <==> Safe(s, op)
  {
  }

  // ---------- Whole histories of a monitor ----------

  /** The lowest epoch of any later start if nothing but starts and crashes follow: a start with a
      sync pending drops the store, and the next one has to make do with the backup. */
  function Guaranteed(db: Store): int {
    if db.Syncing() && EpochOf(db.backup) < StartEpoch(db) then EpochOf(db.backup) else StartEpoch(db)
  }

  predicate CanRun(s: State, ops: seq<Op>)
    decreases ops
  {
    ops == [] || (Enabled(s, ops[0]) && CanRun(Step(s, ops[0]), ops[1..]))
  }

  function Run(s: State, ops: seq<Op>): State
    requires CanRun(s, ops)
    decreases ops
  {
    if ops == [] then s else Run(Step(s, ops[0]), ops[1..])
  }

  /** A history of starts and crashes. */
  predicate OnlyRestarts(ops: seq<Op>) {
    forall i | 0 <= i < |ops| :: ops[i] == Boot || ops[i] == Exit
  }

  /** However often the monitor crashes and starts, it starts with the guaranteed epoch or later. */
  lemma {:induction false} RestartsKeepGuarantee(s: State, ops: seq<Op>)
    requires Inv(s) && CanRun(s, ops) && OnlyRestarts(ops)
    ensures StartEpoch(Run(s, ops).db) >= Guaranteed(s.db)
    decreases ops
  {
    if ops != [] {
      StepKeepsInv(s, ops[0]);
      RestartsKeepGuarantee(Step(s, ops[0]), ops[1..]);
    }
  }

  /** A better guarantee cannot be given: some starts come down to it. */
  lemma GuaranteeIsMet(s: State) returns (ops: seq<Op>)
    requires Inv(s) && s.running.None? && Obtained(s.db).Some?
    ensures CanRun(s, ops) && OnlyRestarts(ops) && StartEpoch(Run(s, ops).db) == Guaranteed(s.db)
  {
    if Guaranteed(s.db) == StartEpoch(s.db) {
      ops := [];
    } else {
      ops := [Boot];
      assert ops[1..] == [];
    }
  }

  /** What can be checked beforehand to know that the guarantee will not go back. */
  predicate Keeps(s: State, op: Op) {
    var least := Guaranteed(s.db);
    match op
    case Inject(_) => s.db.Committed() || Max(1, EpochOf(s.db.temp)) >= least
    case Commit(m) => s.db.Committed() || Max(m.epoch, EpochOf(s.db.temp)) >= least
    case Receive(m) => s.db.Committed() || Max(m.epoch, EpochOf(s.db.temp)) >= least
    case Stash => s.db.Committed() ==> Max(s.db.lastCommitted.value, EpochOf(s.running)) >= least
    case BeginSync => s.running.Some? ==> Newest(s.db, s.running.value).epoch >= least
    case ForceSync => s.running.Some? ==> Newest(s.db, s.running.value).epoch >= least
    case _ => true
  }

  lemma GuaranteeExactly(s: State, op: Op)
    requires Inv(s) && Enabled(s, op)
    ensures Guaranteed(Step(s, op).db) >= Guaranteed(s.db) <==> Keeps(s, op)
  {
  }

  /** Nothing out of the ordinary: maps are injected into a store that has one; a first map that is
      committed, or that a sync brings, is not older than what was there; and no map is stashed or
      backed up while the stash is newer than the map in use. */
  predicate Ordinary(s: State, op: Op) {
    match op
    case Inject(_) => s.db.Committed()
    case Commit(m) => s.db.Committed() || m.epoch >= StartEpoch(s.db)
    case Receive(m) => s.db.Committed() || m.epoch >= EpochOf(s.db.backup)
    case Stash => EpochOf(s.running) >= EpochOf(s.db.temp)
    case BeginSync => EpochOf(s.running) >= EpochOf(s.db.temp)
    case ForceSync => EpochOf(s.running) >= EpochOf(s.db.temp)
    case _ => true
  }

  lemma OrdinaryKeeps(s: State, op: Op)
    requires Inv(s) && Enabled(s, op) && Ordinary(s, op)
    ensures Keeps(s, op)
  {
  }

  predicate AllOrdinary(s: State, ops: seq<Op>)
    requires CanRun(s, ops)
    decreases ops
  {
    ops == [] || (Ordinary(s, ops[0]) && AllOrdinary(Step(s, ops[0]), ops[1..]))
  }

  /** Over every ordinary history, with crashes, finished, cut-short and forced syncs anywhere, the
      guaranteed epoch never goes back. From a store with no sync pending, where the guarantee is
      the start epoch itself, neither does that. */
  lemma {:induction false} StartEpochNeverGoesBack(s: State, ops: seq<Op>)
    requires Inv(s) && CanRun(s, ops) && AllOrdinary(s, ops)
    ensures Inv(Run(s, ops)) && Guaranteed(Run(s, ops).db) >= Guaranteed(s.db)
    ensures !s.db.Syncing() ==> StartEpoch(Run(s, ops).db) >= StartEpoch(s.db)
    decreases ops
  {
    if ops != [] {
      StepKeepsInv(s, ops[0]);
      OrdinaryKeeps(s, ops[0]);
      GuaranteeExactly(s, ops[0]);
      StartEpochNeverGoesBack(Step(s, ops[0]), ops[1..]);
    }
  }

  /** Injections alone: each raises the committed epoch by one, and never lowers the start epoch
      of a store that has a committed map. */
  lemma {:induction false} InjectionsCountUp(db: Store, ms: seq<MonMap>)
    requires WellFormed(db) && db.Committed()
    ensures WellFormed(InjectAll(db, ms)) && InjectAll(db, ms).Committed()
    ensures InjectAll(db, ms).lastCommitted.value == db.lastCommitted.value + |ms|
    ensures StartEpoch(InjectAll(db, ms)) == Max(db.lastCommitted.value + |ms|, EpochOf(db.temp))
    decreases ms
  {
    if ms != [] {
      InjectionsCountUp(Injected(db, ms[0]), ms[1..]);
    }
  }

  function InjectAll(db: Store, ms: seq<MonMap>): Store
    decreases ms
  {
    if ms == [] then db else InjectAll(Injected(db, ms[0]), ms[1..])
  }

  /** A store that has seen nine commits, and its stopped monitor. */
  const NINE := State(Store(Some(9), map[9 := MonMap(9, "a")], None, None, None, false, false, None), None, false)

  /** A forced sync takes its backup at once but clears the store only at the next start, so a
      commit in between is lost if that start is followed by another. */
  lemma ForcedSyncGoesBack() returns (s1: State, s2: State, s3: State, s4: State, s5: State)
    ensures Inv(NINE) && Enabled(NINE, Boot) && s1 == Step(NINE, Boot)
    ensures Enabled(s1, ForceSync) && s2 == Step(s1, ForceSync)
    ensures Enabled(s2, Commit(MonMap(10, "b"))) && s3 == Step(s2, Commit(MonMap(10, "b")))
    ensures Enabled(s3, Exit) && s4 == Step(s3, Exit)
    ensures Enabled(s4, Boot) && s5 == Step(s4, Boot)
    ensures StartEpoch(s4.db) == 10 && StartEpoch(s5.db) == 9
  {
    s1 := Step(NINE, Boot);
    s2 := Step(s1, ForceSync);
    s3 := Step(s2, Commit(MonMap(10, "b")));
    s4 := Step(s3, Exit);
    s5 := Step(s4, Boot);
  }

  /** A monitor whose sync has begun and cleared the store. */
  lemma Syncs() returns (s: State)
    ensures Inv(s) && CanRun(NINE, [Boot, BeginSync, ClearStore]) && s == Run(NINE, [Boot, BeginSync, ClearStore])
    ensures s == State(Store(None, map[], None, None, Some(MonMap(9, "a")), true, false, None),
                       Some(MonMap(9, "a")), false)
  {
    var s1 := Step(NINE, Boot);
    var s2 := Step(s1, BeginSync);
    s := Step(s2, ClearStore);
    var ops := [Boot, BeginSync, ClearStore];
    assert ops[1..][1..] == [ClearStore] && [ClearStore][1..] == [];
    assert ops[1..][0] == BeginSync;
  }

  /** A map injected after a sync that was cut short starts again at epoch 1. */
  lemma InjectAfterCutSyncGoesBack(s0: State) returns (s1: State, s2: State)
    requires CanRun(NINE, [Boot, BeginSync, ClearStore]) && s0 == Run(NINE, [Boot, BeginSync, ClearStore])
    ensures Enabled(s0, Exit) && s1 == Step(s0, Exit)
    ensures Enabled(s1, Inject(MonMap(12, "b"))) && s2 == Step(s1, Inject(MonMap(12, "b")))
    ensures StartEpoch(s1.db) == 9 && StartEpoch(s2.db) == 1
  {
    var _ := Syncs();
    s1 := Step(s0, Exit);
    s2 := Step(s1, Inject(MonMap(12, "b")));
  }

  /** A sync that is cut short after the new map came in: the monitor would start with it once,
      and then no more. */
  lemma CutAfterReceiptGoesBack(s0: State) returns (s1: State, s2: State, s3: State)
    requires CanRun(NINE, [Boot, BeginSync, ClearStore]) && s0 == Run(NINE, [Boot, BeginSync, ClearStore])
    ensures Enabled(s0, Receive(MonMap(12, "b"))) && s1 == Step(s0, Receive(MonMap(12, "b")))
    ensures Enabled(s1, Exit) && s2 == Step(s1, Exit)
    ensures Enabled(s2, Boot) && s3 == Step(s2, Boot)
    ensures StartEpoch(s2.db) == 12 && StartEpoch(s3.db) == 9
  {
    var _ := Syncs();
    s1 := Step(s0, Receive(MonMap(12, "b")));
    s2 := Step(s1, Exit);
    s3 := Step(s2, Boot);
  }

  /** A map stashed during a sync is not looked at by the next start, which uses the backup. Once
      the sync has finished it would be, but the next sync takes its backup without it. */
  lemma IgnoredStashIsLost(s0: State) returns (s1: State, s2: State, s3: State)
    requires CanRun(NINE, [Boot, BeginSync, ClearStore]) && s0 == Run(NINE, [Boot, BeginSync, ClearStore])
    ensures Enabled(s0, Learn(MonMap(20, "c"))) && Enabled(Step(s0, Learn(MonMap(20, "c"))), Stash)
    ensures s1 == Step(Step(s0, Learn(MonMap(20, "c"))), Stash)
    ensures CanRun(s1, [Boot, Receive(MonMap(16, "b")), FinishSync])
    ensures s2 == Run(s1, [Boot, Receive(MonMap(16, "b")), FinishSync])
    ensures CanRun(s2, [BeginSync, ClearStore]) && s3 == Run(s2, [BeginSync, ClearStore])
    ensures !s2.db.Syncing() && StartEpoch(s2.db) == 20 && StartEpoch(s3.db) == 16
  {
    var _ := Syncs();
    s1 := Step(Step(s0, Learn(MonMap(20, "c"))), Stash);
    var booted := Step(s1, Boot);
    var received := Step(booted, Receive(MonMap(16, "b")));
    s2 := Step(received, FinishSync);
    var ops := [Boot, Receive(MonMap(16, "b")), FinishSync];
    assert ops[1..][0] == Receive(MonMap(16, "b")) && ops[1..][1..] == [FinishSync] && [FinishSync][1..] == [];
    s3 := Step(Step(s2, BeginSync), ClearStore);
    assert [BeginSync, ClearStore][1..] == [ClearStore] && [ClearStore][1..] == [];
  }

  // ---------- The store object ----------

  class MonitorStore {
    var db: Store

    constructor (db: Store)
      ensures this.db == db
    {
      this.db := db;
    }

    /** `obtain_monmap`: the copies are tried in order, and the store is left as it is. */
    method ObtainMonmap() returns (err: int, bl: Option<MonMap>)
      ensures bl == Obtained(db)
      ensures err == if bl.Some? then 0 else -ENOENT
    {
      if db.lastCommitted.Some? {
        var latestVer := db.lastCommitted.value;
        if latestVer in db.maps {
          bl := Some(db.maps[latestVer]);
          if db.temp.Some? {
            if db.temp.value.epoch > latestVer {
              bl := db.temp;
            }
          }
          return 0, bl;
        }
      }
      if db.inSync || db.forceSync {
        if db.backup.Some? {
          return 0, db.backup;
        }
      }
      if db.mkfs.Some? {
        return 0, db.mkfs;
      }
      return -ENOENT, None;
    }

    /** The injection in `main`: one transaction that numbers the map after the last one. */
    method InjectMonmap(m: MonMap)
      requires WellFormed(db)
      modifies this
      ensures db == Injected(old(db), m) && WellFormed(db) && db.Committed()
      ensures db.lastCommitted.value == (if old(db.lastCommitted).Some? then old(db.lastCommitted).value else 0) + 1
      ensures db.maps[db.lastCommitted.value].mons == m.mons
      ensures db.latest == Some((db.lastCommitted.value, db.maps[db.lastCommitted.value]))
      ensures old(db) == db.(lastCommitted := old(db).lastCommitted, maps := old(db).maps, latest := old(db).latest)
      ensures forall v | v in old(db.maps) && v != db.lastCommitted.value ::
                v in db.maps && db.maps[v] == old(db.maps)[v]
    {
      var v := if db.lastCommitted.Some? then db.lastCommitted.value else 0;
      v := v + 1;
      var tmp := m;
      if tmp.epoch != v {
        tmp := tmp.(epoch := v);
      }
      db := db.(maps := db.maps[v := tmp], latest := Some((v, tmp)), lastCommitted := Some(v));
    }

    /** `sync_obtain_latest_monmap`. */
    method SyncObtainLatest(current: MonMap) returns (latest: MonMap)
      requires WellFormed(db)
      ensures latest == Newest(db, current)
      ensures forall m | m == current || Some(m) == db.backup ||
                         (db.Committed() && m == db.maps[db.lastCommitted.value]) :: latest.epoch >= m.epoch
    {
      latest := MonMap(0, "");
      var ver := if db.lastCommitted.Some? then db.lastCommitted.value else 0;
      if ver in db.maps {
        latest := db.maps[ver];
      }
      if db.backup.Some? && db.backup.value.epoch > latest.epoch {
        latest := db.backup.value;
      }
      if current.epoch > latest.epoch {
        latest := current;
      }
    }
  }
}
