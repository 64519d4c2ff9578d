/** The scheduler itself (internal/server/scheduler.go), as the one goroutine that runs `scanOne` while HTTP handlers
    change the store between its sections. Every method is a run of the scan protocol. */
module ScanScheduler {
  import opened Text
  import opened Findings
  import opened Alerts
  import opened Storage
  import opened Protocol
  import opened Safety
  import opened AlertRuns

  // ----- What the surroundings decide ---------------------------------------------

  /** One scan's share of chance: what handlers do before each section and after the last, the id that is drawn, the
      clock, the scan result and the health of the disk. */
  datatype Env = Env(
    beforeClaim: seq<Action>, beforeRead: seq<Action>, beforeSave: seq<Action>, beforeStamp: seq<Action>,
    beforeAlert: seq<Action>, beforeRelease: seq<Action>, afterRelease: seq<Action>,
    recID: string, now: int, outcome: Outcome, duration: int,
    readDisk: Disk, saveDisk: Disk, stampDisk: Disk, listDisk: Disk, scanDisk: Disk)

  /** What an HTTP handler does: it is nobody's scan step. */
  predicate ByHandler(a: Action) { Actor(a).None? }

  predicate AllByHandlers(ops: seq<Action>) {
    forall i | 0 <= i < |ops| :: ByHandler(ops[i])
  }

  function DrawnBy(a: Action): set<string> {
    match a
    case Read(_, _, recID, _) => {recID}
    case AddTarget(_, newID, _, _) => {newID}
    case AddAlert(_, newID, _, _) => {newID}
    case _ => {}
  }

  /** Ids drawn along a plan are new: newID never repeats. */
  predicate DrawsFresh(issued: set<string>, plan: seq<Action>)
    decreases plan
  {
    plan == [] ||
    (DrawnBy(plan[0]) !! issued && "" !in DrawnBy(plan[0]) && DrawsFresh(issued + DrawnBy(plan[0]), plan[1..]))
  }

  // What may still draw an id from the given section on, and then `rest`.

  function PlanFromRelease(env: Env, rest: seq<Action>): seq<Action> { env.beforeRelease + (env.afterRelease + rest) }

  function PlanFromAlert(env: Env, rest: seq<Action>): seq<Action> { env.beforeAlert + PlanFromRelease(env, rest) }

  function PlanFromStamp(env: Env, rest: seq<Action>): seq<Action> { env.beforeStamp + PlanFromAlert(env, rest) }

  function PlanFromSave(env: Env, rest: seq<Action>): seq<Action> { env.beforeSave + PlanFromStamp(env, rest) }

  function PlanFromRead(env: Env, rest: seq<Action>): seq<Action> {
    [Read(0, env.readDisk, env.recID, env.now)] + PlanFromSave(env, rest)
  }

  /** Everything that may draw an id during a scan, in order, and then `rest`. */
  function Plan(env: Env, rest: seq<Action>): seq<Action> {
    env.beforeClaim + (env.beforeRead + PlanFromRead(env, rest))
  }

  predicate EnvOK(env: Env) {
    && AllByHandlers(env.beforeClaim) && AllByHandlers(env.beforeRead) && AllByHandlers(env.beforeSave)
    && AllByHandlers(env.beforeStamp) && AllByHandlers(env.beforeAlert) && AllByHandlers(env.beforeRelease)
    && AllByHandlers(env.afterRelease)
  }

  predicate Healthy(env: Env) {
    env.readDisk == HEALTHY && env.saveDisk == HEALTHY && env.stampDisk == HEALTHY
  }

  lemma {:induction false} DrawsSkip(issued: set<string>, a: seq<Action>, b: seq<Action>, now: set<string>)
    requires DrawsFresh(issued, a + b)
    requires now <= issued + Drawn(a)
    ensures DrawsFresh(now, b)
    decreases a
  {
    if a == [] {
      assert a + b == b;
      DrawsFewer(issued, now, b);
    } else {
      assert (a + b)[0] == a[0] && (a + b)[1..] == a[1..] + b;
      DrawsSkip(issued + DrawnBy(a[0]), a[1..], b, now);
    }
  }

  lemma {:induction false} DrawsFewer(issued: set<string>, now: set<string>, plan: seq<Action>)
    requires DrawsFresh(issued, plan) && now <= issued
    ensures DrawsFresh(now, plan)
    decreases plan
  {
    if plan != [] {
      DrawsFewer(issued + DrawnBy(plan[0]), now + DrawnBy(plan[0]), plan[1..]);
    }
  }

  /** Sections that are skipped draw nothing. */
  lemma SkipToRelease(issued: set<string>, env: Env, rest: seq<Action>)
    requires DrawsFresh(issued, PlanFromSave(env, rest)) || DrawsFresh(issued, PlanFromStamp(env, rest))
    ensures DrawsFresh(issued, PlanFromRelease(env, rest))
  {
    if DrawsFresh(issued, PlanFromSave(env, rest)) {
      DrawsSkip(issued, env.beforeSave, PlanFromStamp(env, rest), issued);
    }
    DrawsSkip(issued, env.beforeStamp, PlanFromAlert(env, rest), issued);
    DrawsSkip(issued, env.beforeAlert, PlanFromRelease(env, rest), issued);
  }

  lemma AfterRead(issued: set<string>, env: Env, rest: seq<Action>)
    requires DrawsFresh(issued, PlanFromRead(env, rest))
    ensures env.recID != "" && env.recID !in issued
    ensures DrawsFresh(issued + {env.recID}, PlanFromSave(env, rest))
    ensures DrawsFresh(issued, PlanFromSave(env, rest))
  {
    var plan := PlanFromRead(env, rest);
    assert plan[1..] == PlanFromSave(env, rest);
    assert env.recID in DrawnBy(plan[0]);
    DrawsFewer(issued + {env.recID}, issued, PlanFromSave(env, rest));
  }

  lemma SkipAll(issued: set<string>, env: Env, rest: seq<Action>)
    requires DrawsFresh(issued, env.beforeRead + PlanFromRead(env, rest))
    ensures DrawsFresh(issued, rest)
  {
    DrawsSkip(issued, env.beforeRead, PlanFromRead(env, rest), issued);
    AfterRead(issued, env, rest);
    SkipToRelease(issued, env, rest);
    DrawsSkip(issued, env.beforeRelease, env.afterRelease + rest, issued);
    DrawsSkip(issued, env.afterRelease, rest, issued);
  }

  function Drawn(plan: seq<Action>): set<string> {
    if plan == [] then {} else DrawnBy(plan[0]) + Drawn(plan[1..])
  }

  // ----- What a scan of one id leaves alone -------------------------------------------

  /** From `before` to `after`, only the target `id` was stamped and only its records were saved. */
  ghost predicate OnlyScans(before: World, after: World, id: string) {
    && before.issued <= after.issued
    && (forall x | x in after.store.watchlist && x.id in before.issued && x.id != id :: x in before.store.watchlist)
    && before.saved <= after.saved
    && (forall i | |before.saved| <= i < |after.saved| :: after.saved[i].targetID == id)
  }

  lemma OnlyScansTrans(a: World, b: World, c: World, id: string)
    requires OnlyScans(a, b, id) && OnlyScans(b, c, id)
    ensures OnlyScans(a, c, id)
  {
    forall x | x in c.store.watchlist && x.id in a.issued && x.id != id ensures x in a.store.watchlist {
      assert x in b.store.watchlist;
    }
    forall i | |a.saved| <= i < |c.saved| ensures c.saved[i].targetID == id {
      if i < |b.saved| { assert c.saved[i] == b.saved[i]; }
    }
  }

  predicate About(p: Worker, id: string) {
    Held(p) == Some(id) || (p.Entering? && p.id == id)
  }

  lemma StepOnlyScans(s: World, a: Action, id: string)
    requires Inv(s) && Enabled(s, a)
    requires Actor(a).Some? ==> About(s.workers[Actor(a).value], id) || a.Call? || a.TakeManual?
    ensures OnlyScans(s, Next(s, a), id)
  {
    LinksMove(s, a);
    ScansGrow(s, a);
    HistoryMoves(s, a);
    if a.Save? {
      assert PlaceOK(s, s.workers[a.w]);
    }
  }

  // ----- What a scan leaves behind ---------------------------------------------------------

  predicate Listed(s: World, id: string) {
    exists t :: t in s.store.watchlist && t.id == id
  }

  /** Whether an id is on the watchlist after some handler operations: additions and deletions that reach the disk
      count, in their order. */
  predicate ListedAfter(there: bool, ops: seq<Action>, id: string) {
    if ops == [] then there
    else
      var before := ListedAfter(there, ops[..|ops| - 1], id);
      match ops[|ops| - 1]
      case AddTarget(_, newID, _, disk) => before || (newID == id && disk.readOK && disk.writeOK)
      case DeleteTarget(gone, disk) => before && !(gone == id && disk.readOK && disk.writeOK)
      case _ => before
  }

  lemma {:induction false} ListedAfterConcat(there: bool, a: seq<Action>, b: seq<Action>, id: string)
    ensures ListedAfter(there, a + b, id) == ListedAfter(ListedAfter(there, a, id), b, id)
  {
    if b == [] {
      assert a + b == a;
    } else {
      assert (a + b)[..|a + b| - 1] == a + b[..|b| - 1];
      ListedAfterConcat(there, a, b[..|b| - 1], id);
    }
  }

  lemma ListedByHandler(s: World, a: Action, id: string)
    requires Enabled(s, a) && ByHandler(a)
    ensures Listed(Next(s, a), id) == ListedAfter(Listed(s, id), [a], id)
  {
    assert [a][..0] == [];
    assert ListedAfter(Listed(s, id), [], id) == Listed(s, id);
    if a.DeleteTarget? {
      WithoutMembers(s.store.watchlist, a.id);
    } else if a.AddTarget? && a.disk.readOK && a.disk.writeOK {
      var t := a.t.(id := a.newID, addedAt := a.now);
      assert t in Next(s, a).store.watchlist;
      assert forall x | x in s.store.watchlist :: x in Next(s, a).store.watchlist;
    }
  }

  lemma FindListed(s: World, id: string)
    ensures Find(s.store.watchlist, id).Some? <==> Listed(s, id)
  {
    var list := s.store.watchlist;
    if t :| t in list && t.id == id {
      var k :| 0 <= k < |list| && list[k] == t;
    }
  }

  /** No record was saved, no alert section was passed, and no request was taken from the queue; some may have come. */
  predicate Quiet(before: World, after: World) {
    && after.saved == before.saved && after.store.scans == before.store.scans
    && after.dispatched == before.dispatched && after.handled == before.handled && before.manual <= after.manual
  }

  /** The record tells what the scan of the id found, or why it failed. */
  predicate Reports(rec: ScanRecord, id: string, env: Env) {
    && rec.id == env.recID && rec.targetID == id && rec.startedAt == env.now && rec.duration == env.duration
    && match env.outcome
       case Results(found) => rec.findings == found && rec.error == ""
       case Failed(message) => rec.findings == [] && rec.error == message
  }

  /** One record was saved, in the history and on disk, and one alert section was passed, for it. */
  predicate SavedOne(before: World, after: World, rec: ScanRecord) {
    && after.saved == before.saved + [rec] && after.store.scans == before.store.scans[rec.id := rec]
    && after.handled == before.handled && before.manual <= after.manual
    && |after.dispatched| == |before.dispatched| + 1 && after.dispatched[..|before.dispatched|] == before.dispatched
    && after.dispatched[|before.dispatched|].rec == rec
  }

  /** What a scan of the id leaves behind: one record of it if it had something to scan and the disk took the record,
      and nothing otherwise. */
  predicate Leaves(before: World, after: World, id: string, env: Env, scanned: bool) {
    if scanned && env.saveDisk.writeOK
    then |after.saved| > 0
         && var rec := after.saved[|after.saved| - 1]; SavedOne(before, after, rec) && Reports(rec, id, env)
    else Quiet(before, after)
  }

  lemma QuietStep(s: World, a: Action)
    requires Enabled(s, a) && !a.Save? && !a.Alert? && !a.TakeManual?
    ensures Quiet(s, Next(s, a))
  {
    if a.Read? {
      var t := if a.disk.readOK then Find(s.store.watchlist, s.workers[a.w].id) else None;
    }
  }

  lemma NothingLeft(before: World, after: World, id: string, env: Env)
    requires Quiet(before, after)
    ensures Leaves(before, after, id, env, false)
  {}

  lemma QuietLeaves(a: World, b: World, c: World, d: World, id: string, env: Env, scanned: bool)
    requires Quiet(a, b) && Leaves(b, c, id, env, scanned) && Quiet(c, d)
    ensures Leaves(a, d, id, env, scanned)
  {}

  /** What handlers do leaves every stored target that was there as it was. */
  lemma HandlerStep(s: World, a: Action)
    requires Inv(s) && Enabled(s, a) && ByHandler(a)
    ensures Next(s, a).workers == s.workers && Next(s, a).running == s.running
    ensures Quiet(s, Next(s, a))
    ensures forall x | x in Next(s, a).store.watchlist && x.id in s.issued :: x in s.store.watchlist
    ensures Next(s, a).issued <= s.issued + DrawnBy(a)
  {
    QuietStep(s, a);
    LinksMove(s, a);
  }

  /** Many handler steps. */
  ghost predicate ByHandlersOnly(before: World, after: World) {
    && before.issued <= after.issued && after.workers == before.workers && after.running == before.running
    && Quiet(before, after)
    && (forall x | x in after.store.watchlist && x.id in before.issued :: x in before.store.watchlist)
  }

  lemma TrackStep(first: World, s: World, a: Action, id: string)
    requires Inv(s) && Enabled(s, a) && OnlyScans(first, s, id)
    requires Actor(a).Some? ==> About(s.workers[Actor(a).value], id) || a.Call? || a.TakeManual?
    ensures OnlyScans(first, Next(s, a), id)
  {
    StepOnlyScans(s, a, id);
    OnlyScansTrans(first, s, Next(s, a), id);
  }

  lemma AbsentIsScanned(s: World, id: string, at: int)
    requires DistinctIDs(s.store.watchlist) && Find(s.store.watchlist, id).None?
    ensures ScannedAt(s, id, at)
  {
    FindMember(s.store.watchlist, id);
  }

  lemma HandlersOnlyScan(before: World, after: World, id: string)
    requires ByHandlersOnly(before, after)
    ensures OnlyScans(before, after, id)
  {}

  /** The target of an id, if it exists, was last scanned at the given moment. */
  predicate ScannedAt(s: World, id: string, at: int) {
    forall x | x in s.store.watchlist && x.id == id :: x.lastScan == Some(at)
  }

  lemma HandlersKeepScannedAt(before: World, after: World, id: string, at: int)
    requires ByHandlersOnly(before, after) && ScannedAt(before, id, at) && id in before.issued
    ensures ScannedAt(after, id, at)
  {}

  // ----- What a sweep achieves --------------------------------------------------------------

  function Plans(envs: seq<Env>, rest: seq<Action>): seq<Action> {
    if envs == [] then rest else Plan(envs[0], Plans(envs[1..], rest))
  }

  lemma SkipPlan(issued: set<string>, env: Env, rest: seq<Action>)
    requires DrawsFresh(issued, Plan(env, rest))
    ensures DrawsFresh(issued, rest)
  {
    DrawsSkip(issued, env.beforeClaim, env.beforeRead + PlanFromRead(env, rest), issued);
    SkipAll(issued, env, rest);
  }

  /** The last scan is less than an interval old, or later than `now`. */
  predicate Recent(lastScan: Option<int>, now: int, interval: int) {
    lastScan.Some? && now - lastScan.value < interval
  }

  /** The disk is well during every scan and the clock does not go back behind the sweep's start. */
  predicate Calm(envs: seq<Env>, now: int) {
    forall i | 0 <= i < |envs| :: Healthy(envs[i]) && envs[i].now >= now
  }

  /** The target of an id, if it exists, was scanned at or after `now`, or less than an interval before it. */
  predicate RecentAt(s: World, id: string, now: int, interval: int) {
    forall x | x in s.store.watchlist && x.id == id ::
      x.lastScan.Some? && (x.lastScan.value >= now || now - x.lastScan.value < interval)
  }

  /** i targets of the snapshot are dealt with, the others are as in the snapshot. */
  predicate Swept(s: World, targets: seq<Target>, i: nat, now: int, interval: int, calm: bool)
    requires i <= |targets|
  {
    && DistinctIDs(targets)
    && (forall k | 0 <= k < |targets| :: targets[k].id in s.issued)
    && (calm ==> forall k | 0 <= k < i :: RecentAt(s, targets[k].id, now, interval))
    && (forall k | i <= k < |targets| :: forall x | x in s.store.watchlist && x.id == targets[k].id :: x == targets[k])
  }

  /** Records saved since belong to targets that were due. */
  predicate SavedDueOnly(first: World, s: World, targets: seq<Target>, i: nat, now: int, interval: int)
    requires i <= |targets|
  {
    && first.saved <= s.saved
    && forall j | |first.saved| <= j < |s.saved| :: DueID(targets, i, s.saved[j].targetID, now, interval)
  }

  /** The id of a target that was due, among the first i. */
  predicate DueID(targets: seq<Target>, i: nat, id: string, now: int, interval: int)
    requires i <= |targets|
  {
    exists k | 0 <= k < i :: !Recent(targets[k].lastScan, now, interval) && targets[k].id == id
  }

  lemma SnapshotStart(s: World, now: int, interval: int)
    requires Inv(s)
    ensures Swept(s, s.store.watchlist, 0, now, interval, true) && Swept(s, s.store.watchlist, 0, now, interval, false)
  {
    var list := s.store.watchlist;
    forall k, x | 0 <= k < |list| && x in list && x.id == list[k].id ensures x == list[k] {
      var j :| 0 <= j < |list| && list[j] == x;
      assert j == k;
    }
  }

  lemma SweptTarget(s: World, targets: seq<Target>, i: nat, now: int, interval: int, calm: bool)
    requires i < |targets| && Swept(s, targets, i, now, interval, calm)
    ensures targets[i].id in s.issued
  {}

  /** All targets dealt with. */
  lemma SweptAll(first: World, s: World, targets: seq<Target>, now: int, interval: int, calm: bool)
    requires Swept(s, targets, |targets|, now, interval, calm)
    requires SavedDueOnly(first, s, targets, |targets|, now, interval)
    ensures calm ==> forall t | t in targets :: RecentAt(s, t.id, now, interval)
    ensures forall t, i | t in targets && t.lastScan.Some? && now - t.lastScan.value < interval
                          && |first.saved| <= i < |s.saved| :: s.saved[i].targetID != t.id
  {
    forall t, j | t in targets && Recent(t.lastScan, now, interval) && |first.saved| <= j < |s.saved|
      ensures s.saved[j].targetID != t.id
    {
      assert DueID(targets, |targets|, s.saved[j].targetID, now, interval);
      var m :| 0 <= m < |targets| && targets[m] == t;
    }
  }

  lemma SweepSkips(first: World, s: World, targets: seq<Target>, i: nat, now: int, interval: int, calm: bool)
    requires i < |targets| && Swept(s, targets, i, now, interval, calm)
    requires Recent(targets[i].lastScan, now, interval)
    requires SavedDueOnly(first, s, targets, i, now, interval)
    ensures Swept(s, targets, i + 1, now, interval, calm)
    ensures SavedDueOnly(first, s, targets, i + 1, now, interval)
  {
    forall j | |first.saved| <= j < |s.saved| ensures DueID(targets, i + 1, s.saved[j].targetID, now, interval) {
      assert DueID(targets, i, s.saved[j].targetID, now, interval);
    }
  }

  lemma SweepScans(first: World, before: World, after: World, targets: seq<Target>, i: nat, now: int, interval: int,
                   calm: bool, at: int)
    requires i < |targets| && Swept(before, targets, i, now, interval, calm)
    requires SavedDueOnly(first, before, targets, i, now, interval)
    requires !Recent(targets[i].lastScan, now, interval)
    requires OnlyScans(before, after, targets[i].id)
    requires calm ==> at >= now && ScannedAt(after, targets[i].id, at)
    ensures Swept(after, targets, i + 1, now, interval, calm)
    ensures SavedDueOnly(first, after, targets, i + 1, now, interval)
  {
    forall k, x | 0 <= k < |targets| && k != i && x in after.store.watchlist && x.id == targets[k].id
      ensures x in before.store.watchlist
    {
      assert targets[k].id != targets[i].id;
    }
    if calm {
      forall k | 0 <= k < i + 1 ensures RecentAt(after, targets[k].id, now, interval) {
        if k < i { assert RecentAt(before, targets[k].id, now, interval); }
      }
    }
    forall j | |first.saved| <= j < |after.saved|
      ensures DueID(targets, i + 1, after.saved[j].targetID, now, interval)
    {
      if j < |before.saved| {
        assert after.saved[j] == before.saved[j];
        assert DueID(targets, i, before.saved[j].targetID, now, interval);
      } else {
        assert after.saved[j].targetID == targets[i].id;
      }
    }
  }

  // ----- The scheduler ------------------------------------------------------------------

  class Scheduler {
    const store: Store
    const interval: int
    var running: map<string, bool>
    var manual: seq<string>

    // The protocol run so far.
    ghost const start: World
    ghost var log: seq<Action>
    ghost var world: World

    ghost predicate Valid()
      reads this, store
    {
      && Legal(start, log) && world == Exec(start, log) && Inv(start) && QueueOK(start) && Inv(world)
      && world.store == store.State()
      && world.running == running.Keys
      && world.manual == manual
    }

    /** Goroutine w is at the given place of scanOne. */
    ghost predicate AtPlace(w: nat, p: Worker)
      reads this, store
    {
      Valid() && w < |world.workers| && world.workers[w] == p
    }

    constructor (store: Store, interval: int, n: nat)
      requires Consistent(store.State())
      ensures Valid() && this.store == store && this.interval == interval
      ensures start == Start(store.State(), n) && world == start && log == []
    {
      this.store := store;
      this.interval := interval;
      running := map[];
      manual := [];
      start := Start(store.State(), n);
      log := [];
      world := Start(store.State(), n);
      new;
      StartInv(store.State(), n);
    }

    /** Records one protocol step. */
    ghost method Record(a: Action)
      requires Legal(start, log) && world == Exec(start, log) && Inv(world) && Enabled(world, a)
      modifies this`log, this`world
      ensures world == Next(old(world), a) && Inv(world)
      ensures Legal(start, log) && world == Exec(start, log)
    {
      ExecConcat(start, log, [a]);
      assert [a][1..] == [];
      assert Legal(world, [a]) by { assert Legal(Next(world, a), []); }
      assert Exec(world, [a]) == Next(world, a);
      InvKept(world, a);
      log := log + [a];
      world := Next(world, a);
    }

    /** Non-blocking: a full queue drops the request. */
    method RequestScan(id: string)
      requires Valid()
      modifies this
      ensures Valid() && world == Next(old(world), Request(id)) && running == old(running)
      ensures |manual| <= QUEUE_SIZE
      ensures manual == if |old(manual)| < QUEUE_SIZE then old(manual) + [id] else old(manual)
    {
      QueueAlong(start, log);
      if |manual| < 16 {
        manual := manual + [id];
      }
      Record(Request(id));
    }

    /** One handler operation. */
    method Handle(a: Action)
      requires Valid() && ByHandler(a) && Enabled(world, a)
      modifies this, store
      ensures Valid() && world == Next(old(world), a)
      ensures ByHandlersOnly(old(world), world) && world.issued <= old(world).issued + DrawnBy(a)
    {
      HandlerStep(world, a);
      match a {
        case Request(id) =>
          RequestScan(id);
        case AddTarget(t, newID, now, disk) =>
          Record(a);
          var added := store.AddTarget(t, newID, now, disk);
        case DeleteTarget(id, disk) =>
          Record(a);
          var ok := store.DeleteTarget(id, disk);
        case AddAlert(d, newID, now, disk) =>
          Record(a);
          var added := store.AddAlert(d, newID, now, disk);
        case DeleteAlert(id, disk) =>
          Record(a);
          var ok := store.DeleteAlert(id, disk);
      }
    }

    /** What handlers do between two sections of a scan. */
    method Interleave(ops: seq<Action>, ghost id: string, ghost rest: seq<Action>)
      requires Valid() && AllByHandlers(ops) && DrawsFresh(world.issued, ops + rest)
      modifies this, store
      ensures Valid() && ByHandlersOnly(old(world), world)
      ensures DrawsFresh(world.issued, rest)
      ensures Listed(world, id) == ListedAfter(old(Listed(world, id)), ops, id)
    {
      for i := 0 to |ops|
        invariant Valid() && ByHandlersOnly(old(world), world)
        invariant Listed(world, id) == ListedAfter(old(Listed(world, id)), ops[..i], id)
        invariant DrawsFresh(world.issued, ops[i..] + rest)
      {
        assert ops[i..] == [ops[i]] + ops[i + 1..];
        assert ops[i..] + rest == [ops[i]] + (ops[i + 1..] + rest);
        assert ByHandler(ops[i]);
        ghost var before := world;
        Handle(ops[i]);
        ListedByHandler(before, ops[i], id);
        ListedAfterConcat(old(Listed(world, id)), ops[..i], [ops[i]], id);
        assert ops[..i] + [ops[i]] == ops[..i + 1];
        assert Drawn([ops[i]]) == DrawnBy(ops[i]);
        DrawsSkip(before.issued, [ops[i]], ops[i + 1..] + rest, world.issued);
      }
      assert ops[|ops|..] + rest == rest && ops[..|ops|] == ops;
    }

    /** Goroutine w is at place p of a scan of id that began in the world `first`. */
    ghost predicate InScan(w: nat, id: string, p: Worker, first: World)
      reads this, store
    {
      AtPlace(w, p) && OnlyScans(first, world, id)
    }

    /** Handlers between two sections. */
    method Between(ghost w: nat, ghost id: string, ghost p: Worker, ghost first: World, ops: seq<Action>,
                   ghost rest: seq<Action>)
      requires InScan(w, id, p, first) && AllByHandlers(ops) && DrawsFresh(world.issued, ops + rest)
      modifies this, store
      ensures InScan(w, id, p, first) && DrawsFresh(world.issued, rest)
      ensures world.running == old(world.running) && Quiet(old(world), world)
      ensures Listed(world, id) == ListedAfter(old(Listed(world, id)), ops, id)
      ensures forall at :: id in first.issued && old(ScannedAt(world, id, at)) ==> ScannedAt(world, id, at)
    {
      ghost var before := world;
      Interleave(ops, id, rest);
      HandlersOnlyScan(before, world, id);
      OnlyScansTrans(first, before, world, id);
      forall at | id in first.issued && ScannedAt(before, id, at) ensures ScannedAt(world, id, at) {
        HandlersKeepScannedAt(before, world, id, at);
      }
    }

    // The sections of scanOne, one method each: each is one step of the protocol.

    method ClaimSection(ghost w: nat, id: string, ghost first: World) returns (mine: bool)
      requires InScan(w, id, Entering(id), first)
      modifies this
      ensures InScan(w, id, if mine then Claimed(id) else Idle, first) && world == Next(old(world), Claim(w))
      ensures mine <==> id !in old(world.running)
      ensures world.running == old(world.running) + {id} && world.issued == old(world.issued)
      ensures Quiet(old(world), world) && Listed(world, id) == old(Listed(world, id))
    {
      TrackStep(first, world, Claim(w), id);
      QuietStep(world, Claim(w));
      Record(Claim(w));
      if id in running {
        return false;
      }
      running := running[id := true];
      return true;
    }

    method ReadSection(ghost w: nat, id: string, env: Env, ghost first: World) returns (t: Option<Target>)
      requires InScan(w, id, Claimed(id), first) && Unused(world, env.recID)
      modifies this
      ensures InScan(w, id, if t.None? then Leaving(id) else Scanning(t.value, env.recID, env.now), first)
      ensures world == Next(old(world), Read(w, env.readDisk, env.recID, env.now))
      ensures world.running == old(world.running) && world.issued <= old(world.issued) + {env.recID}
      ensures t.Some? ==> t.value.id == id
      ensures Quiet(old(world), world) && (t.Some? <==> env.readDisk.readOK && old(Listed(world, id)))
      ensures t.None? && env.readDisk.readOK ==> ScannedAt(world, id, env.now)
    {
      TrackStep(first, world, Read(w, env.readDisk, env.recID, env.now), id);
      QuietStep(world, Read(w, env.readDisk, env.recID, env.now));
      FindListed(world, id);
      t := store.GetTarget(id, env.readDisk);
      if t.None? && env.readDisk.readOK { AbsentIsScanned(world, id, env.now); }
      Record(Read(w, env.readDisk, env.recID, env.now));
    }

    /** The scan itself touches no shared state. */
    method ScanSection(ghost w: nat, ghost id: string, t: Target, env: Env, ghost first: World)
      returns (rec: ScanRecord)
      requires InScan(w, id, Scanning(t, env.recID, env.now), first) && t.id == id
      modifies this
      ensures InScan(w, id, Recorded(t, rec), first) && world == Next(old(world), Scan(w, env.outcome, env.duration))
      ensures world.running == old(world.running) && world.issued == old(world.issued)
      ensures Reports(rec, id, env) && Quiet(old(world), world)
    {
      TrackStep(first, world, Scan(w, env.outcome, env.duration), id);
      QuietStep(world, Scan(w, env.outcome, env.duration));
      rec := ScanRecord(env.recID, t.id, env.now, env.duration, "", []);
      match env.outcome {
        case Failed(message) =>
          rec := rec.(error := message);
        case Results(found) =>
          rec := rec.(findings := found);
      }
      Record(Scan(w, env.outcome, env.duration));
    }

    method SaveSection(ghost w: nat, t: Target, rec: ScanRecord, disk: Disk, ghost first: World) returns (ok: bool)
      requires InScan(w, t.id, Recorded(t, rec), first)
      modifies this, store
      ensures InScan(w, t.id, if ok then Saved(t, rec) else Leaving(t.id), first)
      ensures world == Next(old(world), Save(w, disk))
      ensures world.running == old(world.running) && world.issued == old(world.issued)
      ensures ok == disk.writeOK && world.dispatched == old(world.dispatched)
      ensures world.handled == old(world.handled) && world.manual == old(world.manual)
      ensures world.saved == old(world.saved) + if ok then [rec] else []
      ensures world.store.scans == if ok then old(world.store.scans)[rec.id := rec] else old(world.store.scans)
    {
      TrackStep(first, world, Save(w, disk), t.id);
      Record(Save(w, disk));
      ok := store.SaveScan(rec, disk);
    }

    method StampSection(ghost w: nat, t: Target, rec: ScanRecord, disk: Disk, ghost first: World)
      requires InScan(w, t.id, Saved(t, rec), first)
      modifies this, store
      ensures InScan(w, t.id, Updated(t, rec), first) && world == Next(old(world), Stamp(w, disk))
      ensures world.running == old(world.running) && world.issued == old(world.issued)
      ensures Quiet(old(world), world) && (disk == HEALTHY ==> ScannedAt(world, t.id, rec.startedAt))
    {
      TrackStep(first, world, Stamp(w, disk), t.id);
      QuietStep(world, Stamp(w, disk));
      StampedMembers(world.store.watchlist, t.id, rec.id, rec.startedAt);
      Record(Stamp(w, disk));
      var ok := store.UpdateTargetScan(t.id, rec.id, rec.startedAt, disk);
    }

    /** The reads of the alert section are made up front; the decision ignores them when it needs none. */
    method AlertSection(ghost w: nat, t: Target, rec: ScanRecord, listDisk: Disk, scanDisk: Disk, ghost first: World)
      returns (sent: seq<Delivery>)
      requires InScan(w, t.id, Updated(t, rec), first)
      modifies this
      ensures InScan(w, t.id, Leaving(t.id), first) && world == Next(old(world), Alert(w, listDisk, scanDisk))
      ensures world.running == old(world.running) && world.issued == old(world.issued)
      ensures world.store == old(world.store) && world.saved == old(world.saved)
      ensures world.handled == old(world.handled) && world.manual == old(world.manual)
      ensures forall at :: old(ScannedAt(world, t.id, at)) ==> ScannedAt(world, t.id, at)
      ensures |world.dispatched| == |old(world.dispatched)| + 1
      ensures world.dispatched[..|old(world.dispatched)|] == old(world.dispatched)
      ensures var section := world.dispatched[|old(world.dispatched)|]; section.rec == rec && section.sent == sent
    {
      TrackStep(first, world, Alert(w, listDisk, scanDisk), t.id);
      Record(Alert(w, listDisk, scanDisk));
      var dests := store.ListAlerts(listDisk);
      var prev: Option<ScanRecord> := None;
      if t.lastScanID != "" {
        prev := store.GetScan(t.lastScanID, scanDisk);
      }
      sent := DispatchAlerts(dests, rec, t.lastScanID, prev);
    }

    method ReleaseSection(ghost w: nat, id: string, ghost first: World)
      requires InScan(w, id, Leaving(id), first)
      modifies this
      ensures InScan(w, id, Idle, first) && world == Next(old(world), Release(w))
      ensures world.running == old(world.running) - {id} && world.issued == old(world.issued)
      ensures world.store == old(world.store) && Quiet(old(world), world)
    {
      TrackStep(first, world, Release(w), id);
      QuietStep(world, Release(w));
      Record(Release(w));
      running := running - {id};
    }

    /** The sections between claim and release; each return of the source leaves the worker about to release. */
    method ScanClaimed(ghost w: nat, id: string, env: Env, ghost first: World, ghost rest: seq<Action>)
      requires InScan(w, id, Claimed(id), first) && EnvOK(env)
      requires DrawsFresh(world.issued, PlanFromRead(env, rest))
      modifies this, store
      ensures InScan(w, id, Leaving(id), first) && world.running == old(world.running)
      ensures DrawsFresh(world.issued, PlanFromRelease(env, rest))
      ensures Healthy(env) && id in first.issued ==> ScannedAt(world, id, env.now)
      ensures Leaves(old(world), world, id, env, env.readDisk.readOK && old(Listed(world, id)))
    {
      hide AtPlace, OnlyScans, DrawsFresh, AllByHandlers, Listed, ListedAfter, ScannedAt, Reports;
      AfterRead(world.issued, env, rest);
      var found := ReadSection(w, id, env, first);
      DrawsFewer(old(world.issued) + {env.recID}, world.issued, PlanFromSave(env, rest));
      if found.None? {
        SkipToRelease(world.issued, env, rest);
        return;
      }
      var t := found.value;
      Between(w, id, Scanning(t, env.recID, env.now), first, env.beforeSave, PlanFromStamp(env, rest));
      var rec := ScanSection(w, id, t, env, first);
      var ok := SaveSection(w, t, rec, env.saveDisk, first);
      if !ok {
        SkipToRelease(world.issued, env, rest);
        return;
      }
      Between(w, id, Saved(t, rec), first, env.beforeStamp, PlanFromAlert(env, rest));
      StampSection(w, t, rec, env.stampDisk, first);
      Between(w, id, Updated(t, rec), first, env.beforeAlert, PlanFromRelease(env, rest));
      var sent := AlertSection(w, t, rec, env.listDisk, env.scanDisk, first);
    }

    /** The guard at the top: marks the id unless somebody holds it. */
    method GuardScan(ghost w: nat, id: string, env: Env, ghost rest: seq<Action>) returns (mine: bool)
      requires AtPlace(w, Entering(id)) && EnvOK(env) && DrawsFresh(world.issued, Plan(env, rest))
      modifies this, store
      ensures InScan(w, id, if mine then Claimed(id) else Idle, old(world))
      ensures DrawsFresh(world.issued, if mine then PlanFromRead(env, rest) else rest)
      ensures mine <==> id !in old(world.running)
      ensures world.running == old(world.running) + {id} && Quiet(old(world), world)
      ensures mine ==>
                Listed(world, id) == ListedAfter(old(Listed(world, id)), env.beforeClaim + env.beforeRead, id)
    {
      ListedAfterConcat(Listed(world, id), env.beforeClaim, env.beforeRead, id);
      hide AtPlace, OnlyScans, DrawsFresh, AllByHandlers, Listed, ListedAfter, ScannedAt, PlanFromRead;
      ghost var first := world;
      Between(w, id, Entering(id), first, env.beforeClaim, env.beforeRead + PlanFromRead(env, rest));
      mine := ClaimSection(w, id, first);
      if !mine {
        SkipAll(world.issued, env, rest);
        return;
      }
      Between(w, id, Claimed(id), first, env.beforeRead, PlanFromRead(env, rest));
    }

    /** The deferred release. */
    method FinishScan(ghost w: nat, id: string, env: Env, ghost first: World, ghost rest: seq<Action>)
      requires InScan(w, id, Leaving(id), first) && EnvOK(env) && DrawsFresh(world.issued, PlanFromRelease(env, rest))
      modifies this, store
      ensures InScan(w, id, Idle, first) && DrawsFresh(world.issued, rest)
      ensures world.running == old(world.running) - {id} && Quiet(old(world), world)
      ensures forall at :: id in first.issued && old(ScannedAt(world, id, at)) ==> ScannedAt(world, id, at)
    {
      Between(w, id, Leaving(id), first, env.beforeRelease, env.afterRelease + rest);
      ReleaseSection(w, id, first);
      Between(w, id, Idle, first, env.afterRelease, rest);
    }

    /** One scan by goroutine w. Whatever happens, it ends idle with the running marks as before, only this target
        was stamped and only its records were saved. One record with what was found is saved, and its alert section
        passed, exactly if nobody else held the id, the id was on the watchlist at the read and the disk allowed both.
        When nobody else holds the id and the disk is well, the target, if it still exists, was last scanned at this
        scan's start. */
    method ScanOne(ghost w: nat, id: string, env: Env, ghost rest: seq<Action>)
      requires AtPlace(w, Entering(id)) && EnvOK(env) && DrawsFresh(world.issued, Plan(env, rest))
      modifies this, store
      ensures AtPlace(w, Idle) && world.running == old(world.running)
      ensures OnlyScans(old(world), world, id) && DrawsFresh(world.issued, rest)
      ensures Healthy(env) && id in old(world.issued) && id !in old(world.running) ==> ScannedAt(world, id, env.now)
      ensures var there := ListedAfter(old(Listed(world, id)), env.beforeClaim + env.beforeRead, id);
              Leaves(old(world), world, id, env, id !in old(world.running) && env.readDisk.readOK && there)
    {
      hide AtPlace, OnlyScans, EnvOK, DrawsFresh, PlanFromRead, PlanFromRelease, Listed, ListedAfter, Leaves, Quiet;
      ghost var first := world;
      var mine := GuardScan(w, id, env, rest);
      if !mine {
        NothingLeft(first, world, id, env);
        return;
      }
      ghost var atRead := world;
      ScanClaimed(w, id, env, first, rest);
      ghost var scanned := world;
      FinishScan(w, id, env, first, rest);
      QuietLeaves(first, atRead, scanned, world, id, env, env.readDisk.readOK && Listed(atRead, id));
    }

    /** The sweep calls scanOne. */
    ghost method Enter(w: nat, id: string)
      requires AtPlace(w, Idle)
      modifies this`log, this`world
      ensures AtPlace(w, Entering(id)) && OnlyScans(old(world), world, id) && world == Next(old(world), Call(w, id))
      ensures world.issued == old(world).issued && world.running == old(world).running
    {
      StepOnlyScans(world, Call(w, id), id);
      Record(Call(w, id));
    }

    /** The other branch of the scheduler's loop: the oldest manual request leaves the queue, no other does, and its
        target is scanned, due or not. */
    method ServeManual(ghost w: nat, env: Env, ghost rest: seq<Action>)
      requires AtPlace(w, Idle) && manual != []
      requires EnvOK(env) && DrawsFresh(world.issued, Plan(env, rest))
      modifies this, store
      ensures AtPlace(w, Idle) && world.running == old(world.running)
      ensures OnlyScans(old(world), world, old(manual[0])) && DrawsFresh(world.issued, rest)
      ensures old(manual)[1..] <= manual
      ensures Healthy(env) && old(manual[0]) in old(world.issued) && old(manual[0]) !in old(world.running) ==>
                ScannedAt(world, old(manual[0]), env.now)
      ensures var id := old(manual[0]);
              var there := ListedAfter(old(Listed(world, manual[0])), env.beforeClaim + env.beforeRead, id);
              var taken := old(world).(handled := old(world.handled) + [id], manual := old(manual)[1..]);
              Leaves(taken, world, id, env, id !in old(world.running) && env.readDisk.readOK && there)
    {
      var id := manual[0];
      StepOnlyScans(world, TakeManual(w), id);
      ghost var first := world;
      Record(TakeManual(w));
      manual := manual[1..];
      ghost var taken := world;
      ScanOne(w, id, env, rest);
      OnlyScansTrans(first, taken, world, id);
    }

    /** A target is due unless its last scan is less than an interval old. */
    method Due(t: Target, now: int) returns (due: bool)
      ensures due <==> !Recent(t.lastScan, now, interval)
    {
      if t.lastScan.Some? && now - t.lastScan.value < interval {
        return false;
      }
      return true;
    }

    /** Walks a snapshot of the watchlist and scans what is due. With a healthy disk, a clock that does not go back
        and nobody else scanning, every target of the snapshot that still exists was scanned since `now` or less
        than an interval before it; and a target that was fresh in the snapshot is not scanned again. */
    method Sweep(ghost w: nat, now: int, envs: seq<Env>, listDisk: Disk, ghost rest: seq<Action>)
      requires AtPlace(w, Idle) && |envs| == |world.store.watchlist|
      requires (forall i | 0 <= i < |envs| :: EnvOK(envs[i])) && DrawsFresh(world.issued, Plans(envs, rest))
      modifies this, store
      ensures AtPlace(w, Idle) && world.running == old(world.running) && old(world.saved) <= world.saved
      ensures !listDisk.readOK ==> world == old(world)
      ensures listDisk.readOK && Calm(envs, now) && old(world.running) == {} ==>
                forall t | t in old(world.store.watchlist) :: RecentAt(world, t.id, now, interval)
      ensures forall t, i | t in old(world.store.watchlist) && t.lastScan.Some? && now - t.lastScan.value < interval
                            && |old(world.saved)| <= i < |world.saved| :: world.saved[i].targetID != t.id
    {
      var list := store.ListTargets(listDisk);
      if list.None? {
        return;
      }
      var targets := list.value;
      ghost var calm := Calm(envs, now) && world.running == {};
      ghost var first := world;
      SnapshotStart(world, now, interval);
      assert SavedDueOnly(first, world, targets, 0, now, interval);
      SweepTargets(w, targets, now, envs, calm, first, rest);
      SweptAll(first, world, targets, now, interval, calm);
    }

    method SweepTargets(ghost w: nat, targets: seq<Target>, now: int, envs: seq<Env>, ghost calm: bool,
                        ghost first: World, ghost rest: seq<Action>)
      requires AtPlace(w, Idle) && |envs| == |targets| && world.running == first.running
      requires (forall i | 0 <= i < |envs| :: EnvOK(envs[i])) && DrawsFresh(world.issued, Plans(envs, rest))
      requires calm ==> Calm(envs, now) && first.running == {}
      requires Swept(world, targets, 0, now, interval, calm) && SavedDueOnly(first, world, targets, 0, now, interval)
      modifies this, store
      ensures AtPlace(w, Idle) && world.running == first.running
      ensures Swept(world, targets, |targets|, now, interval, calm)
      ensures SavedDueOnly(first, world, targets, |targets|, now, interval)
    {
      hide AtPlace, Swept, SavedDueOnly, DrawsFresh, Plan, EnvOK, OnlyScans, ScannedAt, Recent, Healthy;
      for i := 0 to |targets|
        invariant AtPlace(w, Idle) && world.running == first.running
        invariant DrawsFresh(world.issued, Plans(envs[i..], rest))
        invariant Swept(world, targets, i, now, interval, calm)
        invariant SavedDueOnly(first, world, targets, i, now, interval)
      {
        ghost var before := world;
        assert envs[i..][0] == envs[i] && envs[i..][1..] == envs[i + 1..];
        var due := Due(targets[i], now);
        if !due {
          SkipPlan(world.issued, envs[i], Plans(envs[i + 1..], rest));
          SweepSkips(first, world, targets, i, now, interval, calm);
          continue;
        }
        SweptTarget(world, targets, i, now, interval, calm);
        Enter(w, targets[i].id);
        ghost var entered := world;
        ScanOne(w, targets[i].id, envs[i], Plans(envs[i + 1..], rest));
        OnlyScansTrans(before, entered, world, targets[i].id);
        SweepScans(first, before, world, targets, i, now, interval, calm, envs[i].now);
      }
      assert envs[|envs|..] == [];
    }
  }
}
