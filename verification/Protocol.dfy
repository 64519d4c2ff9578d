/** The scan protocol (internal/server/scheduler.go over internal/server/storage.go): any number of workers run
    `scanOne`, cut into its atomic sections, interleaved with every change to the watchlist and the alert
    destinations. Scan results, store failures, clock readings and the order of steps are arbitrary. */
module Protocol {
  import opened Text
  import opened Findings
  import opened Alerts
  import opened Storage

  // ----- State -------------------------------------------------------------------

  datatype Outcome = Results(findings: seq<Finding>) | Failed(message: string)

  /** Where a worker is inside scanOne. From Claimed to Leaving it holds its id. */
  datatype Worker =
    | Idle
    | Entering(id: string)
    | Claimed(id: string)
    | Scanning(target: Target, recID: string, startedAt: int)
    | Recorded(target: Target, rec: ScanRecord)
    | Saved(target: Target, rec: ScanRecord)
    | Updated(target: Target, rec: ScanRecord)
    | Leaving(id: string)

  /** History of one alert section: the destinations it read and what it sent. */
  datatype Dispatched = Dispatched(rec: ScanRecord, dests: seq<AlertDestination>, sent: seq<Delivery>)

  /** `issued` holds every id ever drawn; `prior`, `saved`, `dispatched`, `accepted` and `handled` are history. */
  datatype World = World(
    store: StoreState, running: set<string>, manual: seq<string>, workers: seq<Worker>,
    issued: set<string>, prior: map<string, ScanRecord>, saved: seq<ScanRecord>, dispatched: seq<Dispatched>,
    accepted: seq<string>, handled: seq<string>)

  /** The capacity of the channel of manual requests. */
  const QUEUE_SIZE := 16

  // ----- Steps ---------------------------------------------------------------------

  datatype Action =
    | Request(id: string)
    | TakeManual(w: nat)
    | Call(w: nat, id: string)
    | Claim(w: nat)
    | Read(w: nat, disk: Disk, recID: string, now: int)
    | Scan(w: nat, outcome: Outcome, duration: int)
    | Save(w: nat, disk: Disk)
    | Stamp(w: nat, disk: Disk)
    | Alert(w: nat, listDisk: Disk, scanDisk: Disk)
    | Release(w: nat)
    | AddTarget(t: Target, newID: string, now: int, disk: Disk)
    | DeleteTarget(id: string, disk: Disk)
    | AddAlert(a: AlertDestination, newID: string, now: int, disk: Disk)
    | DeleteAlert(id: string, disk: Disk)

  /** The worker that takes a step, if it is a worker's. */
  function Actor(a: Action): Option<nat> {
    match a
    case TakeManual(w) => Some(w)
    case Call(w, _) => Some(w)
    case Claim(w) => Some(w)
    case Read(w, _, _, _) => Some(w)
    case Scan(w, _, _) => Some(w)
    case Save(w, _) => Some(w)
    case Stamp(w, _) => Some(w)
    case Alert(w, _, _) => Some(w)
    case Release(w) => Some(w)
    case _ => None
  }

  /** newID draws an id that was never drawn before. */
  predicate Unused(s: World, id: string) {
    id != "" && id !in s.issued
  }

  predicate Enabled(s: World, a: Action) {
    && (Actor(a).Some? ==> Actor(a).value < |s.workers|)
    && match a
       case Request(_) => true
       case TakeManual(w) => s.workers[w].Idle? && s.manual != []
       case Call(w, _) => s.workers[w].Idle?
       case Claim(w) => s.workers[w].Entering?
       case Read(w, _, recID, _) => s.workers[w].Claimed? && Unused(s, recID)
       case Scan(w, _, _) => s.workers[w].Scanning?
       case Save(w, _) => s.workers[w].Recorded?
       case Stamp(w, _) => s.workers[w].Saved?
       case Alert(w, _, _) => s.workers[w].Updated?
       case Release(w) => s.workers[w].Leaving?
       case AddTarget(_, newID, _, _) => Unused(s, newID)
       case DeleteTarget(_, _) => true
       case AddAlert(_, newID, _, _) => Unused(s, newID)
       case DeleteAlert(_, _) => true
  }

  function Moved(s: World, w: nat, p: Worker): World
    requires w < |s.workers|
  {
    s.(workers := s.workers[w := p])
  }

  function RecordFor(t: Target, recID: string, startedAt: int, outcome: Outcome, duration: int): ScanRecord {
    match outcome
    case Results(fs) => ScanRecord(recID, t.id, startedAt, duration, "", fs)
    case Failed(message) => ScanRecord(recID, t.id, startedAt, duration, message, [])
  }

  /** The previous record as the alert section gets it. */
  function Previous(store: StoreState, prevScanID: string, disk: Disk): Option<ScanRecord> {
    if prevScanID != "" && disk.readOK && prevScanID in store.scans then Some(store.scans[prevScanID]) else None
  }

  function Next(s: World, a: Action): World
    requires Enabled(s, a)
  {
    match a
    case Request(id) =>
      if |s.manual| < QUEUE_SIZE then s.(manual := s.manual + [id], accepted := s.accepted + [id]) else s
    case TakeManual(w) =>
      Moved(s, w, Entering(s.manual[0])).(manual := s.manual[1..], handled := s.handled + [s.manual[0]])
    case Call(w, id) => Moved(s, w, Entering(id))
    case Claim(w) =>
      var id := s.workers[w].id;
      if id in s.running then Moved(s, w, Idle)
      else Moved(s, w, Claimed(id)).(running := s.running + {id})
    case Read(w, disk, recID, now) =>
      var id := s.workers[w].id;
      var t := if disk.readOK then Find(s.store.watchlist, id) else None;
      if t.None? then Moved(s, w, Leaving(id))
      else Moved(s, w, Scanning(t.value, recID, now)).(issued := s.issued + {recID})
    case Scan(w, outcome, duration) =>
      var p := s.workers[w];
      Moved(s, w, Recorded(p.target, RecordFor(p.target, p.recID, p.startedAt, outcome, duration)))
    case Save(w, disk) =>
      var p := s.workers[w];
      if !disk.writeOK then Moved(s, w, Leaving(p.target.id))
      else
        Moved(s, w, Saved(p.target, p.rec))
        .(store := s.store.(scans := s.store.scans[p.rec.id := p.rec]), saved := s.saved + [p.rec])
    case Stamp(w, disk) =>
      var p := s.workers[w];
      var list := if disk.readOK && disk.writeOK
                  then Stamped(s.store.watchlist, p.target.id, p.rec.id, p.rec.startedAt) else s.store.watchlist;
      Moved(s, w, Updated(p.target, p.rec)).(store := s.store.(watchlist := list))
    case Alert(w, listDisk, scanDisk) =>
      var p := s.workers[w];
      var dests := if listDisk.readOK then Some(s.store.alerts) else None;
      var sent := Decide(dests, p.rec, p.target.lastScanID, Previous(s.store, p.target.lastScanID, scanDisk));
      Moved(s, w, Leaving(p.target.id))
      .(dispatched := s.dispatched + [Dispatched(p.rec, if dests.Some? then dests.value else [], sent)])
    case Release(w) =>
      Moved(s, w, Idle).(running := s.running - {s.workers[w].id})
    case AddTarget(t, newID, now, disk) =>
      s.(issued := s.issued + {newID},
         store := if disk.readOK && disk.writeOK
                  then s.store.(watchlist := s.store.watchlist + [t.(id := newID, addedAt := now)]) else s.store)
    case DeleteTarget(id, disk) =>
      if disk.readOK && disk.writeOK then s.(store := s.store.(watchlist := Without(s.store.watchlist, id))) else s
    case AddAlert(d, newID, now, disk) =>
      s.(issued := s.issued + {newID},
         store := if disk.readOK && disk.writeOK
                  then s.store.(alerts := s.store.alerts + [Registered(d, newID, now)]) else s.store)
    case DeleteAlert(id, disk) =>
      if disk.readOK && disk.writeOK then s.(store := s.store.(alerts := WithoutAlert(s.store.alerts, id))) else s
  }

  // ----- Runs ------------------------------------------------------------------------

  predicate Legal(s: World, run: seq<Action>)
    decreases run
  {
    run == [] || (Enabled(s, run[0]) && Legal(Next(s, run[0]), run[1..]))
  }

  function Exec(s: World, run: seq<Action>): World
    requires Legal(s, run)
    decreases run
  {
    if run == [] then s else Exec(Next(s, run[0]), run[1..])
  }

  lemma {:induction false} ExecConcat(s: World, a: seq<Action>, b: seq<Action>)
    requires Legal(s, a)
    ensures Legal(s, a + b) <==> Legal(Exec(s, a), b)
    ensures Legal(s, a + b) ==> Exec(s, a + b) == Exec(Exec(s, a), b)
    decreases a
  {
    if a == [] {
      assert a + b == b;
    } else {
      assert (a + b)[0] == a[0] && (a + b)[1..] == a[1..] + b;
      ExecConcat(Next(s, a[0]), a[1..], b);
    }
  }

  /** A link to the last scan names a saved record of that very target. */
  predicate LinkOK(scans: map<string, ScanRecord>, t: Target) {
    t.lastScanID == "" || (t.lastScanID in scans && scans[t.lastScanID].targetID == t.id)
  }

  predicate LinksOK(store: StoreState) {
    forall t | t in store.watchlist :: LinkOK(store.scans, t)
  }

  /** What every data directory satisfies that servers have written: ids of targets differ, and records are stored
      under their own ids. Links may dangle. */
  predicate Consistent(store: StoreState) {
    && DistinctIDs(store.watchlist)
    && (forall k | k in store.scans :: k != "" && store.scans[k].id == k)
  }

  function KnownIDs(store: StoreState): set<string> {
    (set t | t in store.watchlist :: t.id) + (set k | k in store.scans) +
    (set k | k in store.scans :: store.scans[k].targetID)
  }

  /** The records that links of the watchlist lead to. */
  function LinkedRecords(store: StoreState): map<string, ScanRecord>
    requires Consistent(store)
  {
    map t | t in store.watchlist && t.lastScanID in store.scans :: t.id := store.scans[t.lastScanID]
  }

  /** A freshly started server: nothing runs, no history. */
  function Start(store: StoreState, n: nat): World
    requires Consistent(store)
  {
    World(store, {}, [], seq(n, i => Idle), KnownIDs(store), LinkedRecords(store), [], [], [], [])
  }

  // ----- Mutual exclusion ---------------------------------------------------------------

  /** The id a worker holds. */
  function Held(p: Worker): Option<string> {
    match p
    case Idle => None
    case Entering(_) => None
    case Claimed(id) => Some(id)
    case Scanning(t, _, _) => Some(t.id)
    case Recorded(t, _) => Some(t.id)
    case Saved(t, _) => Some(t.id)
    case Updated(t, _) => Some(t.id)
    case Leaving(id) => Some(id)
  }

  predicate Holds(s: World, i: nat, id: string) {
    i < |s.workers| && Held(s.workers[i]) == Some(id)
  }

  /** An id is marked running exactly while a worker holds it, and one worker at most does. */
  ghost predicate Exclusion(s: World) {
    && (forall id :: id in s.running <==> exists i: nat :: Holds(s, i, id))
    && (forall i: nat, j: nat, id :: Holds(s, i, id) && Holds(s, j, id) ==> i == j)
  }

  /** What the step of a worker on its own does to its place. */
  lemma HeldByStep(s: World, a: Action)
    requires Enabled(s, a)
    ensures |Next(s, a).workers| == |s.workers|
    ensures forall i: nat | i < |s.workers| && Actor(a) != Some(i) :: Next(s, a).workers[i] == s.workers[i]
    ensures !a.Claim? && !a.Release? ==> Next(s, a).running == s.running
    ensures !a.Claim? && !a.Release? && Actor(a).Some? ==>
              Held(Next(s, a).workers[Actor(a).value]) == Held(s.workers[Actor(a).value])
  {
    if a.Read? {
      var t := if a.disk.readOK then Find(s.store.watchlist, s.workers[a.w].id) else None;
    }
  }

  lemma ExclusionKept(s: World, a: Action)
    requires Exclusion(s) && Enabled(s, a)
    ensures Exclusion(Next(s, a))
  {
    var s' := Next(s, a);
    HeldByStep(s, a);
    if a.Claim? {
      var id := s.workers[a.w].id;
      if id !in s.running {
        assert forall i: nat, x :: Holds(s', i, x) <==> Holds(s, i, x) || (i == a.w && x == id);
        assert Holds(s', a.w, id);
      } else {
        assert forall i: nat, x :: Holds(s', i, x) <==> Holds(s, i, x);
      }
    } else if a.Release? {
      var id := s.workers[a.w].id;
      assert Holds(s, a.w, id);
      assert forall i: nat, x :: Holds(s', i, x) <==> Holds(s, i, x) && i != a.w;
    } else {
      forall i: nat, x ensures Holds(s', i, x) <==> Holds(s, i, x) {
        if Actor(a) == Some(i) {}
      }
    }
  }

  // ----- The store and the workers agree -----------------------------------------------------

  predicate StoreOK(s: World) {
    && DistinctIDs(s.store.watchlist)
    && (forall t | t in s.store.watchlist :: t.id in s.issued)
    && (forall k | k in s.store.scans :: k in s.issued && k != "" && s.store.scans[k].id == k)
  }

  /** The target a worker read is still as it was read, if it still exists: no update is lost. */
  predicate SeenAsStored(s: World, t: Target) {
    forall x | x in s.store.watchlist && x.id == t.id :: x.lastScanID == t.lastScanID
  }

  predicate RecordOf(t: Target, rec: ScanRecord) {
    rec.targetID == t.id && (rec.error != "" ==> rec.findings == [])
  }

  predicate PlaceOK(s: World, p: Worker) {
    match p
    case Scanning(t, recID, _) =>
      t.id in s.issued && SeenAsStored(s, t) && recID in s.issued && recID != "" && recID !in s.store.scans
    case Recorded(t, rec) =>
      && t.id in s.issued && SeenAsStored(s, t) && RecordOf(t, rec)
      && rec.id in s.issued && rec.id != "" && rec.id !in s.store.scans
    case Saved(t, rec) =>
      && t.id in s.issued && SeenAsStored(s, t) && RecordOf(t, rec)
      && rec.id in s.store.scans && s.store.scans[rec.id] == rec
    case Updated(t, rec) =>
      t.id in s.issued && RecordOf(t, rec) && rec.id in s.store.scans && s.store.scans[rec.id] == rec
    case _ => true
  }

  /** The id of a record that is not saved yet. */
  function PendingRecord(p: Worker): Option<string> {
    match p
    case Scanning(_, recID, _) => Some(recID)
    case Recorded(_, rec) => Some(rec.id)
    case _ => None
  }

  predicate PlacesOK(s: World) {
    forall i | 0 <= i < |s.workers| :: PlaceOK(s, s.workers[i])
  }

  predicate PendingDistinct(s: World) {
    forall i, j | 0 <= i < j < |s.workers| && PendingRecord(s.workers[i]).Some? ::
      PendingRecord(s.workers[i]) != PendingRecord(s.workers[j])
  }

  ghost predicate Inv(s: World) {
    Exclusion(s) && StoreOK(s) && PlacesOK(s) && PendingDistinct(s)
  }

  lemma StartInv(store: StoreState, n: nat)
    requires Consistent(store)
    ensures Inv(Start(store, n))
  {
    var s := Start(store, n);
    assert forall i: nat, id :: !Holds(s, i, id);
  }

  lemma StoreOKKept(s: World, a: Action)
    requires Inv(s) && Enabled(s, a)
    ensures StoreOK(Next(s, a))
  {
    hide Decide, Previous, Registered, WithoutAlert, Stamped, Without, Exclusion, PendingDistinct;
    var list := s.store.watchlist;
    match a {
      case Save(w, disk) =>
        assert PlaceOK(s, s.workers[w]);
      case Stamp(w, disk) =>
        assert PlaceOK(s, s.workers[w]);
        StampedMembers(list, s.workers[w].target.id, s.workers[w].rec.id, s.workers[w].rec.startedAt);
      case AddTarget(t, newID, now, disk) =>
        AddKeepsDistinct(list, t.(id := newID, addedAt := now));
      case DeleteTarget(id, disk) =>
        WithoutMembers(list, id);
      case _ =>
    }
  }

  /** A step leaves the links of a target alone, unless it stamps that target: every stored target with an id
      that was drawn before was already stored with the same link. */
  lemma LinksMove(s: World, a: Action)
    requires Inv(s) && Enabled(s, a)
    ensures forall x | x in Next(s, a).store.watchlist && x.id in s.issued ::
              || x in s.store.watchlist
              || (a.Stamp? && x.id == s.workers[a.w].target.id && x.lastScanID == s.workers[a.w].rec.id
                  && x.lastScan == Some(s.workers[a.w].rec.startedAt))
  {
    var list := s.store.watchlist;
    match a {
      case Stamp(w, disk) =>
        StampedMembers(list, s.workers[w].target.id, s.workers[w].rec.id, s.workers[w].rec.startedAt);
      case DeleteTarget(id, disk) =>
        WithoutMembers(list, id);
      case _ =>
    }
  }

  lemma ScansGrow(s: World, a: Action)
    requires Inv(s) && Enabled(s, a)
    ensures s.issued <= Next(s, a).issued
    ensures forall k | k in s.store.scans ::
              k in Next(s, a).store.scans && Next(s, a).store.scans[k] == s.store.scans[k]
    ensures forall k | k in Next(s, a).store.scans && k !in s.store.scans ::
              a.Save? && Some(k) == PendingRecord(s.workers[a.w])
  {
    if a.Save? {
      assert PlaceOK(s, s.workers[a.w]);
    }
  }

  /** The place of a worker that does not move stays right. */
  lemma OtherPlaceKept(s: World, a: Action, i: nat)
    requires Inv(s) && Enabled(s, a)
    requires i < |s.workers| && Actor(a) != Some(i)
    ensures PlaceOK(Next(s, a), s.workers[i])
  {
    var p := s.workers[i];
    assert PlaceOK(s, p);
    LinksMove(s, a);
    ScansGrow(s, a);
    if a.Stamp? && Held(p).Some? {
      assert Holds(s, i, Held(p).value) && Holds(s, a.w, s.workers[a.w].target.id);
    }
    if a.Save? && PendingRecord(p).Some? {
      assert PendingRecord(s.workers[a.w]) != PendingRecord(p);
    }
  }

  lemma OwnPlaceKept(s: World, a: Action)
    requires Inv(s) && Enabled(s, a) && Actor(a).Some?
    ensures PlaceOK(Next(s, a), Next(s, a).workers[Actor(a).value])
  {
    var w := Actor(a).value;
    var p := s.workers[w];
    assert PlaceOK(s, p);
    assert StoreOK(s);
    hide Decide, Previous, Registered, WithoutAlert, Without, Inv, Exclusion, PendingDistinct, PlacesOK, KnownIDs;
    if a.Read? {
      FindMember(s.store.watchlist, p.id);
    }
  }

  lemma PendingKept(s: World, a: Action)
    requires Inv(s) && Enabled(s, a)
    ensures PendingDistinct(Next(s, a))
  {
    hide Decide, Previous, Registered, WithoutAlert;
    var s' := Next(s, a);
    HeldByStep(s, a);
    if Actor(a).Some? {
      var w := Actor(a).value;
      forall i | 0 <= i < |s.workers| && i != w
        ensures PendingRecord(s'.workers[w]).Some? ==> PendingRecord(s'.workers[w]) != PendingRecord(s'.workers[i])
      {
        assert PlaceOK(s, s.workers[i]) && s'.workers[i] == s.workers[i];
        assert PendingRecord(s.workers[i]).Some? ==> PendingRecord(s.workers[i]).value in s.issued;
        if !a.Read? {
          assert PendingRecord(s'.workers[w]).Some? ==> PendingRecord(s'.workers[w]) == PendingRecord(s.workers[w]);
        }
      }
    }
  }

  lemma InvKept(s: World, a: Action)
    requires Inv(s) && Enabled(s, a)
    ensures Inv(Next(s, a))
  {
    var s' := Next(s, a);
    ExclusionKept(s, a);
    StoreOKKept(s, a);
    PendingKept(s, a);
    HeldByStep(s, a);
    forall i | 0 <= i < |s'.workers| ensures PlaceOK(s', s'.workers[i]) {
      if Actor(a) == Some(i) {
        OwnPlaceKept(s, a);
      } else {
        OtherPlaceKept(s, a, i);
      }
    }
  }
}
