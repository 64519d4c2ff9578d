/** Alerts over whole runs: what destinations are sent, told by the sequence of records of each target alone. */
module AlertRuns {
  import opened Text
  import opened Findings
  import opened Alerts
  import opened Storage
  import opened Protocol
  import opened Safety

  // ----- Runs without store errors --------------------------------------------------

  predicate Faultless(a: Action) {
    match a
    case Read(_, disk, _, _) => disk == HEALTHY
    case Save(_, disk) => disk == HEALTHY
    case Stamp(_, disk) => disk == HEALTHY
    case Alert(_, listDisk, scanDisk) => listDisk == HEALTHY && scanDisk == HEALTHY
    case AddTarget(_, _, _, disk) => disk == HEALTHY
    case DeleteTarget(_, disk) => disk == HEALTHY
    case AddAlert(_, _, _, disk) => disk == HEALTHY
    case DeleteAlert(_, disk) => disk == HEALTHY
    case _ => true
  }

  predicate Regular(a: Action) { Faultless(a) && CleanAdd(a) }

  predicate RegularRun(run: seq<Action>) {
    forall i | 0 <= i < |run| :: Regular(run[i])
  }

  // ----- The history of one target -----------------------------------------------------

  /** The records of a target, in the order they were saved. */
  function RecordsOf(saved: seq<ScanRecord>, id: string): seq<ScanRecord> {
    if saved == [] then []
    else
      var last := saved[|saved| - 1];
      RecordsOf(saved[..|saved| - 1], id) + (if last.targetID == id then [last] else [])
  }

  function DispatchesOf(dispatched: seq<Dispatched>, id: string): seq<Dispatched> {
    if dispatched == [] then []
    else
      var last := dispatched[|dispatched| - 1];
      DispatchesOf(dispatched[..|dispatched| - 1], id) + (if last.rec.targetID == id then [last] else [])
  }

  function Prior(s: World, id: string): Option<ScanRecord> {
    if id in s.prior then Some(s.prior[id]) else None
  }

  /** The record before position k, where `first` precedes the sequence. */
  function Earlier(records: seq<ScanRecord>, first: Option<ScanRecord>, k: nat): Option<ScanRecord>
    requires k <= |records|
  {
    if k == 0 then first else Some(records[k - 1])
  }

  /** The record before the k-th of this run. */
  function Before(s: World, id: string, k: nat): Option<ScanRecord>
    requires k <= |RecordsOf(s.saved, id)|
  {
    Earlier(RecordsOf(s.saved, id), Prior(s, id), k)
  }

  function LinkTo(rec: Option<ScanRecord>): string {
    match rec case Some(r) => r.id case None => ""
  }

  lemma RecordsAppend(saved: seq<ScanRecord>, rec: ScanRecord, id: string)
    ensures RecordsOf(saved + [rec], id) == RecordsOf(saved, id) + (if rec.targetID == id then [rec] else [])
  {
    assert (saved + [rec])[..|saved|] == saved;
  }

  lemma DispatchesAppend(dispatched: seq<Dispatched>, d: Dispatched, id: string)
    ensures DispatchesOf(dispatched + [d], id) ==
            DispatchesOf(dispatched, id) + (if d.rec.targetID == id then [d] else [])
  {
    assert (dispatched + [d])[..|dispatched|] == dispatched;
  }

  lemma {:induction false} RecordsMembers(saved: seq<ScanRecord>, id: string)
    ensures forall r :: r in RecordsOf(saved, id) <==> r in saved && r.targetID == id
  {
    if saved != [] {
      RecordsMembers(saved[..|saved| - 1], id);
      assert saved == saved[..|saved| - 1] + [saved[|saved| - 1]];
    }
  }

  lemma {:induction false} NoRecordsOf(saved: seq<ScanRecord>, id: string)
    requires forall r | r in saved :: r.targetID != id
    ensures RecordsOf(saved, id) == []
  {
    if saved != [] {
      NoRecordsOf(saved[..|saved| - 1], id);
    }
  }

  // ----- Links follow the history ---------------------------------------------------------

  /** Some worker has saved its record of the target and not yet sent its alerts. */
  predicate Pending(s: World, id: string) {
    exists w | 0 <= w < |s.workers| :: PendingAt(s.workers[w], id)
  }

  predicate PendingAt(p: Worker, id: string) {
    (p.Saved? || p.Updated?) && p.target.id == id
  }

  /** Some worker has saved its record and not yet stamped the target. */
  predicate Unstamped(s: World, id: string) {
    exists w | 0 <= w < |s.workers| :: s.workers[w].Saved? && s.workers[w].target.id == id
  }

  function Count(s: World, id: string): nat { |RecordsOf(s.saved, id)| }

  /** Every record of the history is on disk. */
  predicate HistoryStored(s: World) {
    && (forall r | r in s.saved :: r.id in s.store.scans && s.store.scans[r.id] == r && r.targetID in s.issued)
    && (forall k | k in s.prior ::
          k in s.issued && s.prior[k].id in s.store.scans && s.store.scans[s.prior[k].id] == s.prior[k])
  }

  predicate TargetLinked(s: World, x: Target) {
    Unstamped(s, x.id) || x.lastScanID == LinkTo(Before(s, x.id, Count(s, x.id)))
  }

  predicate WorkerLinked(s: World, p: Worker) {
    match p
    case Scanning(t, _, _) => t.lastScanID == LinkTo(Before(s, t.id, Count(s, t.id)))
    case Recorded(t, _) => t.lastScanID == LinkTo(Before(s, t.id, Count(s, t.id)))
    case Saved(t, rec) => LatestIs(s, t, rec)
    case Updated(t, rec) => LatestIs(s, t, rec)
    case _ => true
  }

  /** rec is the latest record of t, and t links to the one before. */
  predicate LatestIs(s: World, t: Target, rec: ScanRecord) {
    var n := Count(s, t.id);
    n > 0 && RecordsOf(s.saved, t.id)[n - 1] == rec && t.lastScanID == LinkTo(Before(s, t.id, n - 1))
  }

  ghost predicate Linked(s: World) {
    && HistoryStored(s)
    && (forall x | x in s.store.watchlist :: TargetLinked(s, x))
    && (forall i | 0 <= i < |s.workers| :: WorkerLinked(s, s.workers[i]))
  }

  /** The alerts of a target sent so far: one section per record, in order, each as its record and the one
      before it demand. */
  predicate DispatchedRight(s: World, id: string) {
    var records, sent := RecordsOf(s.saved, id), DispatchesOf(s.dispatched, id);
    && |sent| == |records| - (if Pending(s, id) then 1 else 0)
    && forall k | 0 <= k < |sent| ::
         sent[k].rec == records[k] && sent[k].sent == Expected(sent[k].dests, records[k], Before(s, id, k))
  }

  ghost predicate AlertInv(s: World) {
    Inv(s) && Linked(s) && forall id :: DispatchedRight(s, id)
  }

  /** The link of a stored target leads to the record it starts with. */
  lemma StartLinked(store: StoreState, x: Target)
    requires Consistent(store) && LinksOK(store) && x in store.watchlist
    ensures var prior := LinkedRecords(store);
            x.lastScanID == LinkTo(if x.id in prior then Some(prior[x.id]) else None)
  {
    assert LinkOK(store.scans, x);
    FindMember(store.watchlist, x.id);
    if x.lastScanID == "" {
      assert forall y | y in store.watchlist && y.lastScanID in store.scans :: y.id != x.id;
    }
  }

  lemma StartHistory(store: StoreState, n: nat)
    requires Consistent(store)
    ensures HistoryStored(Start(store, n)) && forall id :: DispatchedRight(Start(store, n), id)
  {
    var s := Start(store, n);
    assert forall id :: RecordsOf([], id) == [] && DispatchesOf([], id) == [];
    assert forall id :: !Pending(s, id);
    hide DistinctIDs;
  }

  lemma StartTargets(store: StoreState, n: nat)
    requires Consistent(store) && LinksOK(store)
    ensures var s := Start(store, n); forall x | x in s.store.watchlist :: TargetLinked(s, x)
  {
    var s := Start(store, n);
    hide LinksOK, Consistent, LinkedRecords, KnownIDs, Unstamped;
    assert RecordsOf([], "") == [];
    forall x | x in s.store.watchlist ensures TargetLinked(s, x) {
      StartLinked(store, x);
    }
  }

  lemma StartAlertInv(store: StoreState, n: nat)
    requires Consistent(store) && LinksOK(store)
    ensures AlertInv(Start(store, n))
  {
    var s := Start(store, n);
    assert forall i | 0 <= i < |s.workers| :: s.workers[i] == Idle;
    hide Inv, DispatchedRight, HistoryStored, TargetLinked, LinksOK, Consistent, Start;
    StartInv(store, n);
    StartHistory(store, n);
    StartTargets(store, n);
  }

  // ----- Every step keeps it -----------------------------------------------------------------

  lemma HistoryMoves(s: World, a: Action)
    requires Enabled(s, a)
    ensures Next(s, a).prior == s.prior
    ensures !a.Save? ==> Next(s, a).saved == s.saved
    ensures !a.Alert? ==> Next(s, a).dispatched == s.dispatched
  {
    if a.Read? {
      var t := if a.disk.readOK then Find(s.store.watchlist, s.workers[a.w].id) else None;
    }
  }

  lemma HistoryStoredKept(s: World, a: Action)
    requires Inv(s) && HistoryStored(s) && Enabled(s, a)
    ensures HistoryStored(Next(s, a))
  {
    ScansGrow(s, a);
    HistoryMoves(s, a);
    if a.Save? {
      assert PlaceOK(s, s.workers[a.w]);
    }
  }

  /** The holder of an id is the only worker with a place for it. */
  lemma OnlyHolder(s: World, w: nat, i: nat, id: string)
    requires Inv(s) && Holds(s, w, id) && i < |s.workers| && i != w
    ensures Held(s.workers[i]) != Some(id)
  {
    assert Holds(s, i, id) ==> i == w;
  }

  /** A target whose history does not move keeps its place in it. */
  lemma SameHistory(s: World, s': World, id: string)
    requires s'.prior == s.prior && RecordsOf(s'.saved, id) == RecordsOf(s.saved, id)
    ensures Count(s', id) == Count(s, id)
    ensures forall k | 0 <= k <= Count(s, id) :: Before(s', id, k) == Before(s, id, k)
  {}

  lemma SavedHistory(s: World, a: Action, id: string)
    requires Enabled(s, a)
    requires a.Save? ==> s.workers[a.w].rec.targetID != id
    ensures Next(s, a).prior == s.prior
    ensures RecordsOf(Next(s, a).saved, id) == RecordsOf(s.saved, id)
  {
    HistoryMoves(s, a);
    if a.Save? && a.disk.writeOK {
      RecordsAppend(s.saved, s.workers[a.w].rec, id);
    }
  }

  /** Workers that do not move keep their place in the history of their target. */
  lemma OtherWorkerLinked(s: World, a: Action, i: nat)
    requires AlertInv(s) && Enabled(s, a) && i < |s.workers| && Actor(a) != Some(i)
    ensures WorkerLinked(Next(s, a), s.workers[i])
  {
    var p := s.workers[i];
    assert WorkerLinked(s, p);
    hide Next, DispatchedRight, WorkerLinked;
    if Held(p).Some? {
      var id := Held(p).value;
      if a.Save? {
        assert Holds(s, i, id);
        OnlyHolder(s, i, a.w, id);
        assert PlaceOK(s, s.workers[a.w]);
      }
      SavedHistory(s, a, id);
      SameHistory(s, Next(s, a), id);
    }
    LinkedWithHistory(s, Next(s, a), p);
  }

  /** The place of a worker in the history depends on the history of its target alone. */
  lemma LinkedWithHistory(s: World, s': World, p: Worker)
    requires WorkerLinked(s, p)
    requires Held(p).Some? ==>
               var id := Held(p).value;
               s'.prior == s.prior && RecordsOf(s'.saved, id) == RecordsOf(s.saved, id)
    ensures WorkerLinked(s', p)
  {
    hide RecordsOf;
  }

  lemma SaveLinks(s: World, w: nat)
    requires AlertInv(s) && Enabled(s, Save(w, HEALTHY))
    ensures LatestIs(Next(s, Save(w, HEALTHY)), s.workers[w].target, s.workers[w].rec)
  {
    var p := s.workers[w];
    var id := p.target.id;
    assert PlaceOK(s, p) && WorkerLinked(s, p);
    RecordsAppend(s.saved, p.rec, id);
  }

  lemma ReadLinks(s: World, w: nat, t: Target)
    requires AlertInv(s) && w < |s.workers| && s.workers[w].Claimed?
    requires Find(s.store.watchlist, s.workers[w].id) == Some(t)
    ensures t.lastScanID == LinkTo(Before(s, t.id, Count(s, t.id)))
  {
    FindMember(s.store.watchlist, s.workers[w].id);
    assert TargetLinked(s, t);
    assert Holds(s, w, t.id);
    forall i | 0 <= i < |s.workers| ensures !(s.workers[i].Saved? && s.workers[i].target.id == t.id) {
      if i != w { OnlyHolder(s, w, i, t.id); }
    }
  }

  lemma OwnWorkerLinked(s: World, a: Action)
    requires AlertInv(s) && Enabled(s, a) && Actor(a).Some? && Regular(a)
    ensures WorkerLinked(Next(s, a), Next(s, a).workers[Actor(a).value])
  {
    hide Decide, Previous, Stamped, Without, DispatchedRight, RecordsOf, Inv;
    var w := Actor(a).value;
    var p := s.workers[w];
    assert WorkerLinked(s, p);
    HistoryMoves(s, a);
    if a.Save? {
      SaveLinks(s, w);
    } else if a.Read? {
      var t := Find(s.store.watchlist, p.id);
      if t.Some? {
        ReadLinks(s, w, t.value);
      }
    }
  }

  /** Which targets wait for their stamp changes with their own worker only. */
  lemma UnstampedMoves(s: World, a: Action, id: string)
    requires Inv(s) && Enabled(s, a)
    requires Actor(a).Some? ==> Held(s.workers[Actor(a).value]) != Some(id)
    ensures Unstamped(Next(s, a), id) <==> Unstamped(s, id)
    ensures Pending(Next(s, a), id) <==> Pending(s, id)
  {
    var s' := Next(s, a);
    HeldByStep(s, a);
    if Actor(a).Some? {
      var w := Actor(a).value;
      assert !PendingAt(s.workers[w], id);
      assert !PendingAt(s'.workers[w], id) by {
        if a.Read? {
          var t := if a.disk.readOK then Find(s.store.watchlist, s.workers[a.w].id) else None;
        }
      }
      forall i | 0 <= i < |s.workers| ensures PendingAt(s'.workers[i], id) <==> PendingAt(s.workers[i], id)
        ensures (s'.workers[i].Saved? && s'.workers[i].target.id == id) <==>
                (s.workers[i].Saved? && s.workers[i].target.id == id)
      {
        if i != w { assert s'.workers[i] == s.workers[i]; }
      }
    } else {
      assert s'.workers == s.workers;
    }
  }

  lemma TargetsLinkedKept(s: World, a: Action, x: Target)
    requires AlertInv(s) && Enabled(s, a) && Regular(a)
    requires x in Next(s, a).store.watchlist
    ensures TargetLinked(Next(s, a), x)
  {
    var s' := Next(s, a);
    if x.id !in s.issued {
      NewTargetsAreAdded(s, a);
      NoRecordsOf(s.saved, x.id);
      HistoryMoves(s, a);
    } else if Actor(a).Some? && Held(s.workers[Actor(a).value]) == Some(x.id) {
      OwnTargetLinked(s, a, x);
    } else {
      LinksMove(s, a);
      assert TargetLinked(s, x);
      UnstampedMoves(s, a, x.id);
      if a.Save? { assert PlaceOK(s, s.workers[a.w]); }
      SavedHistory(s, a, x.id);
      SameHistory(s, s', x.id);
    }
  }

  /** The target of the worker that moves. */
  lemma OwnTargetLinked(s: World, a: Action, x: Target)
    requires AlertInv(s) && Enabled(s, a) && Regular(a)
    requires x in Next(s, a).store.watchlist && x.id in s.issued
    requires Actor(a).Some? && Held(s.workers[Actor(a).value]) == Some(x.id)
    ensures TargetLinked(Next(s, a), x)
  {
    var s' := Next(s, a);
    var w := Actor(a).value;
    LinksMove(s, a);
    HistoryMoves(s, a);
    HeldByStep(s, a);
    if a.Save? {
      assert s'.workers[w].Saved? && s'.workers[w].target.id == x.id;
    } else if a.Stamp? {
      assert WorkerLinked(s, s.workers[w]);
      StampedMembers(s.store.watchlist, s.workers[w].target.id, s.workers[w].rec.id, s.workers[w].rec.startedAt);
      assert x.lastScanID == s.workers[w].rec.id;
    } else {
      assert TargetLinked(s, x);
      NotUnstamped(s, w, x.id);
    }
  }

  lemma NotUnstamped(s: World, w: nat, id: string)
    requires Inv(s) && Holds(s, w, id) && !s.workers[w].Saved?
    ensures !Unstamped(s, id)
  {
    forall i | 0 <= i < |s.workers| ensures !(s.workers[i].Saved? && s.workers[i].target.id == id) {
      if i != w { OnlyHolder(s, w, i, id); }
    }
  }

  lemma LinkedKept(s: World, a: Action)
    requires AlertInv(s) && Enabled(s, a) && Regular(a)
    ensures Linked(Next(s, a))
  {
    var s' := Next(s, a);
    HistoryStoredKept(s, a);
    HeldByStep(s, a);
    forall x | x in s'.store.watchlist ensures TargetLinked(s', x) {
      TargetsLinkedKept(s, a, x);
    }
    forall i | 0 <= i < |s'.workers| ensures WorkerLinked(s', s'.workers[i]) {
      if Actor(a) == Some(i) {
        OwnWorkerLinked(s, a);
      } else {
        OtherWorkerLinked(s, a, i);
      }
    }
  }

  // ----- The alert sections --------------------------------------------------------------------

  lemma PendingOnlyAt(s: World, w: nat, id: string)
    requires Inv(s) && Holds(s, w, id)
    ensures Pending(s, id) <==> PendingAt(s.workers[w], id)
  {
    forall i | 0 <= i < |s.workers| && i != w ensures !PendingAt(s.workers[i], id) {
      OnlyHolder(s, w, i, id);
    }
  }

  /** Sections of targets the step does not concern. */
  lemma OtherDispatchesKept(s: World, a: Action, id: string)
    requires AlertInv(s) && Enabled(s, a)
    requires Actor(a).Some? ==> Held(s.workers[Actor(a).value]) != Some(id)
    ensures DispatchedRight(Next(s, a), id)
  {
    var s' := Next(s, a);
    assert DispatchedRight(s, id);
    UnstampedMoves(s, a, id);
    HistoryMoves(s, a);
    if a.Save? || a.Alert? {
      assert PlaceOK(s, s.workers[a.w]);
    }
    SavedHistory(s, a, id);
    SameHistory(s, s', id);
    if a.Alert? {
      DispatchesAppend(s.dispatched, s'.dispatched[|s.dispatched|], id);
    }
  }

  lemma SaveDispatches(s: World, w: nat)
    requires AlertInv(s) && Enabled(s, Save(w, HEALTHY))
    ensures DispatchedRight(Next(s, Save(w, HEALTHY)), s.workers[w].target.id)
  {
    hide Decide, Previous, Stamped, Without, Expected, Linked;
    var p := s.workers[w];
    var id := p.target.id;
    var s' := Next(s, Save(w, HEALTHY));
    assert DispatchedRight(s, id) && PlaceOK(s, p);
    RecordsAppend(s.saved, p.rec, id);
    assert Holds(s, w, id);
    PendingOnlyAt(s, w, id);
    assert PendingAt(s'.workers[w], id);
    assert forall k | 0 <= k <= Count(s, id) :: Before(s', id, k) == Before(s, id, k);
  }

  /** The previous record of an alert section is read under its own id. */
  lemma PreviousIsBefore(s: World, w: nat)
    requires AlertInv(s) && w < |s.workers| && s.workers[w].Updated?
    ensures var t := s.workers[w].target;
            && Count(s, t.id) > 0
            && var prev := Before(s, t.id, Count(s, t.id) - 1);
               Previous(s.store, t.lastScanID, HEALTHY) == prev && (t.lastScanID == "" <==> prev.None?)
  {
    var t := s.workers[w].target;
    assert WorkerLinked(s, s.workers[w]);
    var n := Count(s, t.id);
    if n > 1 {
      RecordsMembers(s.saved, t.id);
      assert RecordsOf(s.saved, t.id)[n - 2] in s.saved;
    }
  }

  lemma AlertStep(s: World, w: nat)
    requires Enabled(s, Alert(w, HEALTHY, HEALTHY))
    ensures var p := s.workers[w];
            var s' := Next(s, Alert(w, HEALTHY, HEALTHY));
            && s'.prior == s.prior && s'.saved == s.saved
            && s'.dispatched == s.dispatched
               + [Dispatched(p.rec, s.store.alerts,
                             Decide(Some(s.store.alerts), p.rec, p.target.lastScanID,
                                    Previous(s.store, p.target.lastScanID, HEALTHY)))]
  {}

  /** The section that an alert step adds. */
  lemma AlertSection(s: World, w: nat)
    requires AlertInv(s) && Enabled(s, Alert(w, HEALTHY, HEALTHY))
    ensures var p := s.workers[w];
            var n := Count(s, p.target.id);
            var s' := Next(s, Alert(w, HEALTHY, HEALTHY));
            && n > 0 && p.rec == RecordsOf(s.saved, p.target.id)[n - 1] && p.rec.targetID == p.target.id
            && s'.prior == s.prior && s'.saved == s.saved
            && s'.dispatched == s.dispatched
               + [Dispatched(p.rec, s.store.alerts, Expected(s.store.alerts, p.rec, Before(s, p.target.id, n - 1)))]
  {
    var p := s.workers[w];
    assert PlaceOK(s, p) && WorkerLinked(s, p);
    AlertStep(s, w);
    PreviousIsBefore(s, w);
    var prev := Before(s, p.target.id, Count(s, p.target.id) - 1);
    DecideAsExpected(s.store.alerts, p.rec, p.target.lastScanID, prev);
    if p.rec.error != "" {
      NothingExpected(s.store.alerts, p.rec, prev);
    }
  }

  lemma AlertEndsPending(s: World, w: nat)
    requires Inv(s) && Enabled(s, Alert(w, HEALTHY, HEALTHY))
    ensures Pending(s, s.workers[w].target.id)
    ensures !Pending(Next(s, Alert(w, HEALTHY, HEALTHY)), s.workers[w].target.id)
  {
    var id := s.workers[w].target.id;
    var s' := Next(s, Alert(w, HEALTHY, HEALTHY));
    assert Holds(s, w, id);
    assert PendingAt(s.workers[w], id);
    forall i | 0 <= i < |s'.workers| ensures !PendingAt(s'.workers[i], id) {
      if i != w { OnlyHolder(s, w, i, id); }
    }
  }

  lemma AlertDispatches(s: World, w: nat)
    requires AlertInv(s) && Enabled(s, Alert(w, HEALTHY, HEALTHY))
    ensures DispatchedRight(Next(s, Alert(w, HEALTHY, HEALTHY)), s.workers[w].target.id)
  {
    hide Decide, Previous, Expected, Linked, RecordsOf, DispatchesOf, Next, Pending, Inv;
    var id := s.workers[w].target.id;
    var s' := Next(s, Alert(w, HEALTHY, HEALTHY));
    AlertSection(s, w);
    AlertEndsPending(s, w);
    SameHistory(s, s', id);
    DispatchesAppend(s.dispatched, s'.dispatched[|s.dispatched|], id);
    assert DispatchedRight(s, id);
  }

  /** Steps of the worker of a target that neither save nor alert. */
  lemma OwnDispatchesKept(s: World, a: Action, id: string)
    requires AlertInv(s) && Enabled(s, a) && !a.Save? && !a.Alert?
    requires Actor(a).Some? && Held(s.workers[Actor(a).value]) == Some(id)
    ensures DispatchedRight(Next(s, a), id)
  {
    var s' := Next(s, a);
    var w := Actor(a).value;
    assert DispatchedRight(s, id);
    HistoryMoves(s, a);
    HeldByStep(s, a);
    SameHistory(s, s', id);
    assert Holds(s, w, id);
    PendingOnlyAt(s, w, id);
    assert PendingAt(s'.workers[w], id) == PendingAt(s.workers[w], id) by {
      if a.Read? {
        var t := if a.disk.readOK then Find(s.store.watchlist, s.workers[a.w].id) else None;
      }
    }
    forall i | 0 <= i < |s.workers| && i != w ensures !PendingAt(s'.workers[i], id) {
      OnlyHolder(s, w, i, id);
    }
  }

  lemma AlertInvKept(s: World, a: Action)
    requires AlertInv(s) && Enabled(s, a) && Regular(a)
    ensures AlertInv(Next(s, a))
  {
    InvKept(s, a);
    LinkedKept(s, a);
    forall id ensures DispatchedRight(Next(s, a), id) {
      if Actor(a).Some? && Held(s.workers[Actor(a).value]) == Some(id) {
        match a {
          case Save(w, _) => SaveDispatches(s, w);
          case Alert(w, _, _) => AlertDispatches(s, w);
          case _ => OwnDispatchesKept(s, a, id);
        }
      } else {
        OtherDispatchesKept(s, a, id);
      }
    }
  }

  lemma {:induction false} AlertInvAlong(s: World, run: seq<Action>)
    requires AlertInv(s) && Legal(s, run) && RegularRun(run)
    ensures AlertInv(Exec(s, run))
    decreases run
  {
    if run != [] {
      assert Regular(run[0]);
      AlertInvKept(s, run[0]);
      assert RegularRun(run[1..]) by {
        assert forall i | 0 <= i < |run[1..]| :: run[1..][i] == run[i + 1];
      }
      AlertInvAlong(Next(s, run[0]), run[1..]);
    }
  }

  /** What an alert section sends, whatever the disk does: nothing without the destinations or after a failed scan, and
      otherwise what is expected after the record that the target's link leads to, if it can be read. */
  lemma AlertsUnderFaults(s: World, w: nat, listDisk: Disk, scanDisk: Disk)
    requires Enabled(s, Alert(w, listDisk, scanDisk))
    ensures var s' := Next(s, Alert(w, listDisk, scanDisk));
            var rec, link := s.workers[w].rec, s.workers[w].target.lastScanID;
            var prev := if link != "" && scanDisk.readOK && link in s.store.scans
                        then Some(s.store.scans[link]) else None;
            && |s'.dispatched| == |s.dispatched| + 1 && s'.dispatched[..|s.dispatched|] == s.dispatched
            && s'.dispatched[|s.dispatched|].rec == rec
            && s'.dispatched[|s.dispatched|].sent ==
               (if listDisk.readOK && rec.error == "" then Expected(s.store.alerts, rec, prev) else [])
  {
    hide Decide, Expected;
    var rec, link := s.workers[w].rec, s.workers[w].target.lastScanID;
    DecideAsExpected(s.store.alerts, rec, link, Previous(s.store, link, scanDisk));
  }

  // ----- The theorems ---------------------------------------------------------------------------

  /** Over every run without store errors, a destination hears of a key in the k-th alert section of a target
      exactly when it was registered at that moment and the key is raised: present at or above its
      threshold in the k-th record and absent from the one before. A failed scan counts as an empty record. */
  lemma AlertsAreEdges(s: World, store: StoreState, n: nat, run: seq<Action>, id: string, k: nat,
                       d: AlertDestination, key: string)
    requires ReachedBy(s, store, n, run) && LinksOK(store) && RegularRun(run)
    requires k < |DispatchesOf(s.dispatched, id)|
    ensures k < |RecordsOf(s.saved, id)|
    ensures var section := DispatchesOf(s.dispatched, id)[k];
            var rec := RecordsOf(s.saved, id)[k];
            && section.rec == rec && section.sent == Expected(section.dests, rec, Before(s, id, k))
            && (Tells(section.sent, d, key) <==> d in section.dests && Raised(rec, Before(s, id, k), d, key))
  {
    StartAlertInv(store, n);
    AlertInvAlong(Start(store, n), run);
    assert DispatchedRight(s, id);
    var section := DispatchesOf(s.dispatched, id)[k];
    ToldIffRaised(section.dests, section.rec, Before(s, id, k), d, key);
  }

  /** The same on rules, algorithms, files and severities as they are written: in the k-th alert section of a target a
      destination is told of a finding of the k-th record exactly when it was registered at that moment, the finding is
      worth telling it, and no finding of the record before had its rule, algorithm and file. */
  lemma NewsIsTold(s: World, store: StoreState, n: nat, run: seq<Action>, id: string, k: nat,
                   d: AlertDestination, f: Finding)
    requires ReachedBy(s, store, n, run) && LinksOK(store) && RegularRun(run)
    requires k < |DispatchesOf(s.dispatched, id)| && k < |RecordsOf(s.saved, id)|
    requires BarFree(f) && PreviousBarFree(Before(s, id, k))
    ensures var section := DispatchesOf(s.dispatched, id)[k];
            Told(section.sent, d, f) <==>
            d in section.dests && Newsworthy(RecordsOf(s.saved, id)[k], Before(s, id, k), d, f)
  {
    hide ReachedBy, RegularRun, LinksOK, Newsworthy, Told, Expected;
    SectionsRight(s, store, n, run, id);
    var section := DispatchesOf(s.dispatched, id)[k];
    assert section.sent == Expected(section.dests, RecordsOf(s.saved, id)[k], Before(s, id, k));
    ToldIffNewsworthy(section.dests, RecordsOf(s.saved, id)[k], Before(s, id, k), d, f);
  }

  /** Every saved record gets its alert section: only the record of a worker still on its way is outstanding. */
  lemma EveryRecordDispatched(s: World, store: StoreState, n: nat, run: seq<Action>, id: string)
    requires ReachedBy(s, store, n, run) && LinksOK(store) && RegularRun(run)
    requires id !in s.running
    ensures |DispatchesOf(s.dispatched, id)| == |RecordsOf(s.saved, id)|
  {
    hide ReachedBy, RegularRun, LinksOK, RecordsOf, DispatchesOf, PendingAt;
    SectionsRight(s, store, n, run, id);
    ReachedIsReachable(s, store, n, run);
    forall i | 0 <= i < |s.workers| ensures !PendingAt(s.workers[i], id) {
      ReleasedPendsNowhere(s, i, id);
    }
  }

  lemma ReachedIsReachable(s: World, store: StoreState, n: nat, run: seq<Action>)
    requires ReachedBy(s, store, n, run)
    ensures Reachable(s)
  {}

  lemma ReleasedPendsNowhere(s: World, i: nat, id: string)
    requires Reachable(s) && id !in s.running && i < |s.workers|
    ensures !PendingAt(s.workers[i], id)
  {
    MutualExclusion(s);
  }

  /** A successful re-scan that brings no new key sends nothing to anybody. */
  lemma UnchangedRescanIsSilent(s: World, store: StoreState, n: nat, run: seq<Action>, id: string, k: nat)
    requires ReachedBy(s, store, n, run) && LinksOK(store) && RegularRun(run)
    requires 0 < k < |DispatchesOf(s.dispatched, id)| && k < |RecordsOf(s.saved, id)|
    requires Keys(RecordsOf(s.saved, id)[k].findings) <= Keys(RecordsOf(s.saved, id)[k - 1].findings)
    ensures DispatchesOf(s.dispatched, id)[k].sent == []
  {
    StartAlertInv(store, n);
    AlertInvAlong(Start(store, n), run);
    assert DispatchedRight(s, id);
    UnchangedIsSilent(
      DispatchesOf(s.dispatched, id)[k].dests, RecordsOf(s.saved, id)[k], RecordsOf(s.saved, id)[k - 1]);
  }

  // ----- Counting over a whole run -----------------------------------------------------------------

  function TimesTold(sections: seq<Dispatched>, d: AlertDestination, key: string): nat {
    if sections == [] then 0
    else
      TimesTold(sections[..|sections| - 1], d, key) +
      (if Tells(sections[|sections| - 1].sent, d, key) then 1 else 0)
  }

  /** The absent-to-present edges of a key along a sequence of records. */
  function Edges(records: seq<ScanRecord>, first: Option<ScanRecord>, d: AlertDestination, key: string): nat {
    if records == [] then 0
    else
      var k := |records| - 1;
      Edges(records[..k], first, d, key) +
      (if Raised(records[k], Earlier(records, first, k), d, key) then 1 else 0)
  }

  lemma ToldIsEdge(s: World, id: string, k: nat, d: AlertDestination, key: string)
    requires DispatchedRight(s, id) && k < |DispatchesOf(s.dispatched, id)|
    requires d in DispatchesOf(s.dispatched, id)[k].dests
    ensures Tells(DispatchesOf(s.dispatched, id)[k].sent, d, key)
            <==> Raised(RecordsOf(s.saved, id)[k], Before(s, id, k), d, key)
  {
    ToldIffRaised(DispatchesOf(s.dispatched, id)[k].dests, RecordsOf(s.saved, id)[k], Before(s, id, k), d, key);
  }

  lemma TimesToldStep(sections: seq<Dispatched>, m: nat, d: AlertDestination, key: string)
    requires m < |sections|
    ensures TimesTold(sections[..m + 1], d, key)
            == TimesTold(sections[..m], d, key) + (if Tells(sections[m].sent, d, key) then 1 else 0)
  {
    assert sections[..m + 1][..m] == sections[..m];
  }

  lemma EdgesStep(records: seq<ScanRecord>, m: nat, first: Option<ScanRecord>, d: AlertDestination, key: string)
    requires m < |records|
    ensures Edges(records[..m + 1], first, d, key)
            == Edges(records[..m], first, d, key)
               + (if Raised(records[m], Earlier(records, first, m), d, key) then 1 else 0)
  {
    assert records[..m + 1][..m] == records[..m];
    assert Earlier(records[..m + 1], first, m) == Earlier(records, first, m);
  }

  /** Two histories that agree section by section agree in their counts. */
  lemma {:induction false} CountsAgree(sections: seq<Dispatched>, records: seq<ScanRecord>, first: Option<ScanRecord>,
                                       m: nat, d: AlertDestination, key: string)
    requires m <= |sections| && m <= |records|
    requires forall k | 0 <= k < m ::
               Tells(sections[k].sent, d, key) == Raised(records[k], Earlier(records, first, k), d, key)
    ensures TimesTold(sections[..m], d, key) == Edges(records[..m], first, d, key)
    decreases m
  {
    if m > 0 {
      CountsAgree(sections, records, first, m - 1, d, key);
      TimesToldStep(sections, m - 1, d, key);
      EdgesStep(records, m - 1, first, d, key);
    }
  }

  lemma SectionsRight(s: World, store: StoreState, n: nat, run: seq<Action>, id: string)
    requires ReachedBy(s, store, n, run) && LinksOK(store) && RegularRun(run)
    ensures DispatchedRight(s, id)
  {
    hide DispatchedRight, Linked, RegularRun, Inv, Legal;
    StartAlertInv(store, n);
    AlertInvAlong(Start(store, n), run);
  }

  /** Over a whole run without store errors, a destination that is registered at every alert section of a target is
      told of a key as many times as the key goes from absent to present in the target's records. */
  lemma TimesToldIsEdges(
    s: World, store: StoreState, n: nat, run: seq<Action>, id: string, d: AlertDestination, key: string)
    requires ReachedBy(s, store, n, run) && LinksOK(store) && RegularRun(run)
    requires id !in s.running
    requires forall k | 0 <= k < |DispatchesOf(s.dispatched, id)| :: d in DispatchesOf(s.dispatched, id)[k].dests
    ensures TimesTold(DispatchesOf(s.dispatched, id), d, key)
            == Edges(RecordsOf(s.saved, id), Prior(s, id), d, key)
  {
    hide ReachedBy, RegularRun, DispatchedRight, DispatchesOf, RecordsOf, Tells, Raised, TimesTold, Edges, LinksOK;
    SectionsRight(s, store, n, run, id);
    EveryRecordDispatched(s, store, n, run, id);
    var m := |DispatchesOf(s.dispatched, id)|;
    forall k | 0 <= k < m
      ensures Tells(DispatchesOf(s.dispatched, id)[k].sent, d, key)
              == Raised(RecordsOf(s.saved, id)[k], Earlier(RecordsOf(s.saved, id), Prior(s, id), k), d, key)
    {
      ToldIsEdge(s, id, k, d, key);
    }
    CountsAgree(DispatchesOf(s.dispatched, id), RecordsOf(s.saved, id), Prior(s, id), m, d, key);
    assert DispatchesOf(s.dispatched, id)[..m] == DispatchesOf(s.dispatched, id);
    assert RecordsOf(s.saved, id)[..m] == RecordsOf(s.saved, id);
  }
}
