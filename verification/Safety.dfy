/** Safety and progress of the scan protocol, over every run from every consistent data directory. */
module Safety {
  import opened Text
  import opened Alerts
  import opened Storage
  import opened Protocol

  /** s is reached by the run from a server started with n workers. */
  ghost predicate ReachedBy(s: World, store: StoreState, n: nat, run: seq<Action>) {
    Consistent(store) && Legal(Start(store, n), run) && s == Exec(Start(store, n), run)
  }

  ghost predicate Reachable(s: World) {
    exists store, n: nat, run :: ReachedBy(s, store, n, run)
  }

  lemma {:induction false} InvAlong(s: World, run: seq<Action>)
    requires Inv(s) && Legal(s, run)
    ensures Inv(Exec(s, run))
    decreases run
  {
    if run != [] {
      InvKept(s, run[0]);
      InvAlong(Next(s, run[0]), run[1..]);
    }
  }

  lemma ReachableInv(s: World)
    requires Reachable(s)
    ensures Inv(s)
  {
    var store, n: nat, run :| ReachedBy(s, store, n, run);
    StartInv(store, n);
    InvAlong(Start(store, n), run);
  }

  // ----- Mutual exclusion and lost updates ---------------------------------------------

  /** Two workers never hold the same id, and the running marks are exactly the held ids. */
  lemma MutualExclusion(s: World)
    requires Reachable(s)
    ensures forall i, j | 0 <= i < j < |s.workers| && Held(s.workers[i]).Some? ::
              Held(s.workers[i]) != Held(s.workers[j])
    ensures forall id :: id in s.running <==> exists i | 0 <= i < |s.workers| :: Held(s.workers[i]) == Some(id)
  {
    ReachableInv(s);
    forall i, j | 0 <= i < j < |s.workers| && Held(s.workers[i]).Some?
      ensures Held(s.workers[i]) != Held(s.workers[j])
    {
      var id := Held(s.workers[i]).value;
      assert Holds(s, i, id);
      assert Holds(s, j, id) ==> i == j;
    }
    forall id ensures id in s.running <==> exists i | 0 <= i < |s.workers| :: Held(s.workers[i]) == Some(id) {
      if id in s.running {
        var i: nat :| Holds(s, i, id);
        assert Held(s.workers[i]) == Some(id);
      }
      if i :| 0 <= i < |s.workers| && Held(s.workers[i]) == Some(id) {
        assert Holds(s, i, id);
      }
    }
  }

  /** When a stamp commits, the target, if it still exists, links to the very record the worker saw at
      the start; afterwards it links to the worker's own saved record of that target. So the links of a
      target form one chain, whatever else ran in between. */
  lemma NoLostUpdate(s: World, w: nat, disk: Disk)
    requires Reachable(s) && Enabled(s, Stamp(w, disk))
    ensures var t, rec := s.workers[w].target, s.workers[w].rec;
            && (forall x | x in s.store.watchlist && x.id == t.id :: x.lastScanID == t.lastScanID)
            && rec.id in s.store.scans && s.store.scans[rec.id] == rec && rec.targetID == t.id
            && (disk == HEALTHY ==>
                  forall x | x in Next(s, Stamp(w, disk)).store.watchlist && x.id == t.id ::
                    x.lastScanID == rec.id && x.lastScan == Some(rec.startedAt))
  {
    ReachableInv(s);
    var t, rec := s.workers[w].target, s.workers[w].rec;
    assert PlaceOK(s, s.workers[w]);
    StampedMembers(s.store.watchlist, t.id, rec.id, rec.startedAt);
  }

  // ----- Records are permanent -----------------------------------------------------------

  lemma {:induction false} RecordsPermanent(s: World, run: seq<Action>)
    requires Inv(s) && Legal(s, run)
    ensures forall k | k in s.store.scans ::
              k in Exec(s, run).store.scans && Exec(s, run).store.scans[k] == s.store.scans[k]
    decreases run
  {
    if run != [] {
      var s1 := Next(s, run[0]);
      ScansGrow(s, run[0]);
      InvKept(s, run[0]);
      RecordsPermanent(s1, run[1..]);
      forall k | k in s.store.scans
        ensures k in Exec(s, run).store.scans && Exec(s, run).store.scans[k] == s.store.scans[k]
      {
        assert k in s1.store.scans;
      }
    }
  }

  // ----- What each step does to the lists ---------------------------------------------------

  /** Both halves of the operation reach the disk. */
  predicate Committed(disk: Disk) { disk.readOK && disk.writeOK }

  /** Destinations come and go by the operations for them alone; a new one without a threshold gets HIGH. */
  lemma DestinationsChange(s: World, a: Action, d: AlertDestination)
    requires Enabled(s, a)
    ensures d in Next(s, a).store.alerts <==>
            if a.AddAlert? && Committed(a.disk) then
              d in s.store.alerts ||
              d == AlertDestination(a.newID, a.a.name, a.a.url,
                                    if a.a.minSeverity == "" then "HIGH" else a.a.minSeverity, a.now)
            else d in s.store.alerts && !(a.DeleteAlert? && Committed(a.disk) && d.id == a.id)
  {
    if a.DeleteAlert? {
      WithoutAlertMembers(s.store.alerts, a.id);
    } else if a.Read? {
      var t := if a.disk.readOK then Find(s.store.watchlist, s.workers[a.w].id) else None;
    }
  }

  /** Targets come and go by the operations for them, and carry a scan by the stamp of their worker alone. */
  lemma TargetsChange(s: World, a: Action, t: Target)
    requires Inv(s) && Enabled(s, a)
    ensures t in Next(s, a).store.watchlist <==>
            if a.AddTarget? && Committed(a.disk) then
              t in s.store.watchlist || t == a.t.(id := a.newID, addedAt := a.now)
            else if a.Stamp? && Committed(a.disk) then
              var id, rec := s.workers[a.w].target.id, s.workers[a.w].rec;
              || (t in s.store.watchlist && t.id != id)
              || (exists u :: u in s.store.watchlist && u.id == id
                              && t == u.(lastScan := Some(rec.startedAt), lastScanID := rec.id))
            else t in s.store.watchlist && !(a.DeleteTarget? && Committed(a.disk) && t.id == a.id)
  {
    if a.DeleteTarget? {
      WithoutMembers(s.store.watchlist, a.id);
    } else if a.Stamp? {
      StampedMembers(s.store.watchlist, s.workers[a.w].target.id, s.workers[a.w].rec.id, s.workers[a.w].rec.startedAt);
    } else if a.Read? {
      var x := if a.disk.readOK then Find(s.store.watchlist, s.workers[a.w].id) else None;
    }
  }

  // ----- Records tell what scans found -------------------------------------------------------

  /** Steps i and j of the run are a read and a scan by one worker, and the record tells what that scan found, or why it
      failed. */
  predicate ScanOf(run: seq<Action>, r: ScanRecord, i: nat, j: nat) {
    && i < j < |run| && run[i].Read? && run[j].Scan? && run[i].w == run[j].w
    && r.id == run[i].recID && r.startedAt == run[i].now && r.duration == run[j].duration
    && match run[j].outcome
       case Results(found) => r.findings == found && r.error == ""
       case Failed(message) => r.findings == [] && r.error == message
  }

  ghost predicate Traced(run: seq<Action>, r: ScanRecord) {
    exists i: nat, j: nat :: ScanOf(run, r, i, j)
  }

  predicate ReadAt(run: seq<Action>, i: nat, w: nat, recID: string, at: int) {
    i < |run| && run[i].Read? && run[i].w == w && run[i].recID == recID && run[i].now == at
  }

  ghost predicate WorkerTraced(run: seq<Action>, w: nat, p: Worker) {
    match p
    case Scanning(_, recID, at) => exists i: nat :: ReadAt(run, i, w, recID, at)
    case Recorded(_, rec) => Traced(run, rec)
    case Saved(_, rec) => Traced(run, rec)
    case Updated(_, rec) => Traced(run, rec)
    case _ => true
  }

  ghost predicate AllTraced(s: World, run: seq<Action>) {
    && (forall r | r in s.saved :: Traced(run, r))
    && forall w | 0 <= w < |s.workers| :: WorkerTraced(run, w, s.workers[w])
  }

  lemma TracedLonger(run: seq<Action>, a: Action, w: nat, p: Worker)
    ensures WorkerTraced(run, w, p) ==> WorkerTraced(run + [a], w, p)
    ensures forall r :: Traced(run, r) ==> Traced(run + [a], r)
  {
    forall r | Traced(run, r) ensures Traced(run + [a], r) {
      var i: nat, j: nat :| ScanOf(run, r, i, j);
      assert ScanOf(run + [a], r, i, j);
    }
    if p.Scanning? && WorkerTraced(run, w, p) {
      var i: nat :| ReadAt(run, i, w, p.recID, p.startedAt);
      assert ReadAt(run + [a], i, w, p.recID, p.startedAt);
    }
  }

  lemma OwnTraced(s: World, run: seq<Action>, a: Action, w: nat)
    requires AllTraced(s, run) && Enabled(s, a) && Actor(a) == Some(w)
    ensures WorkerTraced(run + [a], w, Next(s, a).workers[w])
  {
    var p := s.workers[w];
    assert WorkerTraced(run, w, p);
    TracedLonger(run, a, w, p);
    hide Decide, Previous, Stamped, Traced;
    if a.Read? {
      assert ReadAt(run + [a], |run|, w, a.recID, a.now);
    } else if a.Scan? {
      var i: nat :| ReadAt(run, i, w, p.recID, p.startedAt);
      var rec := Next(s, a).workers[w].rec;
      assert ScanOf(run + [a], rec, i, |run|);
      TracedBy(run + [a], rec, i, |run|);
    }
  }

  lemma TracedBy(run: seq<Action>, r: ScanRecord, i: nat, j: nat)
    requires ScanOf(run, r, i, j)
    ensures Traced(run, r)
  {}

  lemma TracedStep(s: World, run: seq<Action>, a: Action)
    requires AllTraced(s, run) && Enabled(s, a)
    ensures AllTraced(Next(s, a), run + [a])
  {
    var s' := Next(s, a);
    HeldByStep(s, a);
    SavedBy(s, a);
    TracedLonger(run, a, 0, Idle);
    hide Traced, WorkerTraced, Next;
    forall w | 0 <= w < |s'.workers| ensures WorkerTraced(run + [a], w, s'.workers[w]) {
      TracedLonger(run, a, w, s.workers[w]);
      if Actor(a) == Some(w) {
        OwnTraced(s, run, a, w);
      }
    }
    if a.Save? {
      RecordTraced(run, a.w, s.workers[a.w]);
    }
  }

  lemma RecordTraced(run: seq<Action>, w: nat, p: Worker)
    requires WorkerTraced(run, w, p) && p.Recorded?
    ensures Traced(run, p.rec)
  {}

  lemma SavedBy(s: World, a: Action)
    requires Enabled(s, a)
    ensures Next(s, a).saved == s.saved + if a.Save? && a.disk.writeOK then [s.workers[a.w].rec] else []
  {
    if a.Read? {
      var t := if a.disk.readOK then Find(s.store.watchlist, s.workers[a.w].id) else None;
    }
  }

  lemma {:induction false} TracedAlong(s: World, run: seq<Action>)
    requires Legal(s, run) && AllTraced(s, [])
    ensures AllTraced(Exec(s, run), run)
  {
    hide AllTraced, Next, Enabled;
    if run != [] {
      var init, last := run[..|run| - 1], run[|run| - 1];
      assert run == init + [last];
      LegalPrefix(s, init, [last]);
      ExecConcat(s, init, [last]);
      TracedAlong(s, init);
      assert [last][0] == last && [last][1..] == [];
      assert Exec(Exec(s, init), [last]) == Next(Exec(s, init), last);
      TracedStep(Exec(s, init), init, last);
    }
  }

  lemma {:induction false} LegalPrefix(s: World, a: seq<Action>, b: seq<Action>)
    requires Legal(s, a + b)
    ensures Legal(s, a)
    decreases a
  {
    if a != [] {
      assert (a + b)[0] == a[0] && (a + b)[1..] == a[1..] + b;
      LegalPrefix(Next(s, a[0]), a[1..], b);
    }
  }

  /** Over every run, whatever interleaves and fails: each saved record tells what one scan of the run found, under the
      id and the start time that its worker drew when it read the target. */
  lemma EveryRecordIsAScan(s: World, store: StoreState, n: nat, run: seq<Action>, r: ScanRecord)
    requires ReachedBy(s, store, n, run) && r in s.saved
    ensures exists i: nat, j: nat :: ScanOf(run, r, i, j)
  {
    assert AllTraced(Start(store, n), []);
    TracedAlong(Start(store, n), run);
    assert Traced(run, r);
  }

  // ----- Links to records ------------------------------------------------------------------

  /** The HTML form never fills in the scan fields of a new target; the JSON interface may. */
  predicate CleanAdd(a: Action) {
    a.AddTarget? ==> a.t.lastScanID == ""
  }

  predicate CleanRun(run: seq<Action>) {
    forall i | 0 <= i < |run| :: CleanAdd(run[i])
  }

  /** One step keeps the links valid exactly when it is not a committed addition that brings a link along. */
  lemma LinksKeptIff(s: World, a: Action)
    requires Inv(s) && LinksOK(s.store) && Enabled(s, a) && NoRecordsOfUnissued(s)
    ensures LinksOK(Next(s, a).store) <==> (a.AddTarget? && a.disk == HEALTHY ==> a.t.lastScanID == "")
  {
    var s' := Next(s, a);
    ScansGrow(s, a);
    LinksMove(s, a);
    if a.Stamp? {
      assert PlaceOK(s, s.workers[a.w]);
    }
    forall x | x in s'.store.watchlist && x.id in s.issued ensures LinkOK(s'.store.scans, x) {
      if x in s.store.watchlist {
        assert LinkOK(s.store.scans, x);
      }
    }
    assert forall x | x in s'.store.watchlist && x.id !in s.issued :: a.AddTarget? && x.id == a.newID by {
      assert !a.AddTarget? ==> s'.issued == s.issued || a.Read? || a.AddAlert?;
      NewTargetsAreAdded(s, a);
    }
    if a.AddTarget? && a.disk == HEALTHY {
      var x := a.t.(id := a.newID, addedAt := a.now);
      assert s'.store.watchlist == s.store.watchlist + [x];
      assert x in s'.store.watchlist;
      assert LinkOK(s'.store.scans, x) <==> a.t.lastScanID == "";
    }
  }

  /** Records belong to ids that were drawn. */
  predicate NoRecordsOfUnissued(s: World) {
    forall k | k in s.store.scans :: s.store.scans[k].targetID in s.issued
  }

  lemma RecordOwnersKept(s: World, a: Action)
    requires Inv(s) && Enabled(s, a) && NoRecordsOfUnissued(s)
    ensures NoRecordsOfUnissued(Next(s, a))
  {
    ScansGrow(s, a);
    if a.Save? {
      assert PlaceOK(s, s.workers[a.w]);
    }
  }

  lemma NewTargetsAreAdded(s: World, a: Action)
    requires Inv(s) && Enabled(s, a)
    ensures forall x | x in Next(s, a).store.watchlist && x.id !in s.issued ::
              a.AddTarget? && x.id == a.newID && x.lastScanID == a.t.lastScanID
  {
    var list := s.store.watchlist;
    match a {
      case Stamp(w, disk) =>
        StampedMembers(list, s.workers[w].target.id, s.workers[w].rec.id, s.workers[w].rec.startedAt);
      case DeleteTarget(id, disk) =>
        WithoutMembers(list, id);
      case _ =>
    }
  }

  lemma {:induction false} LinksAlong(s: World, run: seq<Action>)
    requires Inv(s) && LinksOK(s.store) && NoRecordsOfUnissued(s) && Legal(s, run) && CleanRun(run)
    ensures LinksOK(Exec(s, run).store)
    decreases run
  {
    if run != [] {
      InvKept(s, run[0]);
      RecordOwnersKept(s, run[0]);
      LinksKeptIff(s, run[0]);
      assert CleanAdd(run[0]);
      assert CleanRun(run[1..]) by {
        assert forall i | 0 <= i < |run[1..]| :: run[1..][i] == run[i + 1];
      }
      LinksAlong(Next(s, run[0]), run[1..]);
    }
  }

  /** Over a run from valid links whose additions bring none, every link of the watchlist names a saved record of that
      same target, at every moment, failures included; and the directory is fit to restart on. */
  lemma LinksValid(s: World, store: StoreState, n: nat, run: seq<Action>)
    requires ReachedBy(s, store, n, run) && LinksOK(store) && CleanRun(run)
    ensures LinksOK(s.store) && Consistent(s.store)
  {
    StartInv(store, n);
    LinksAlong(Start(store, n), run);
    InvAlong(Start(store, n), run);
  }

  /** Through the JSON interface an addition can bring a link: on every directory with valid links, one such request
      that commits leaves an invalid one. */
  lemma JsonAddBreaksLinks(store: StoreState, n: nat, t: Target, newID: string, now: int)
    requires Consistent(store) && LinksOK(store) && t.lastScanID != ""
    requires Unused(Start(store, n), newID)
    ensures var run := [AddTarget(t, newID, now, HEALTHY)];
            Legal(Start(store, n), run) && !LinksOK(Exec(Start(store, n), run).store)
  {
    hide LinksOK, NoRecordsOfUnissued, Next, Inv;
    var s, a := Start(store, n), AddTarget(t, newID, now, HEALTHY);
    StartInv(store, n);
    StartOwners(store, n);
    LinksKeptIff(s, a);
    assert [a][1..] == [];
  }

  lemma StartOwners(store: StoreState, n: nat)
    requires Consistent(store)
    ensures NoRecordsOfUnissued(Start(store, n))
  {}

  // ----- Release on every exit path ----------------------------------------------------------

  /** The steps a worker can still take before it is idle. */
  function Rank(p: Worker): nat {
    match p
    case Idle => 0
    case Entering(_) => 7
    case Claimed(_) => 6
    case Scanning(_, _, _) => 5
    case Recorded(_, _) => 4
    case Saved(_, _) => 3
    case Updated(_, _) => 2
    case Leaving(_) => 1
  }

  /** A step moves its own worker towards idle, and no other. */
  lemma RankFalls(s: World, a: Action, w: nat)
    requires Enabled(s, a) && w < |s.workers| && !s.workers[w].Idle?
    ensures Actor(a) != Some(w) ==> Next(s, a).workers[w] == s.workers[w]
    ensures Actor(a) == Some(w) ==> Rank(Next(s, a).workers[w]) < Rank(s.workers[w])
  {
    HeldByStep(s, a);
    if a.Read? {
      var t := if a.disk.readOK then Find(s.store.watchlist, s.workers[a.w].id) else None;
    }
  }

  function StepsOf(run: seq<Action>, w: nat): nat {
    if run == [] then 0 else (if Actor(run[0]) == Some(w) then 1 else 0) + StepsOf(run[1..], w)
  }

  /** A worker that is inside a scan is idle again after at most seven steps of its own, on every path through
      the sections; the mark it held is gone by then, whatever the other workers did. */
  lemma {:induction false} ReleasedInTime(s: World, run: seq<Action>, w: nat) returns (k: nat)
    requires Inv(s) && Legal(s, run) && w < |s.workers|
    requires StepsOf(run, w) >= Rank(s.workers[w])
    ensures k <= |run| && Legal(s, run[..k])
    ensures w < |Exec(s, run[..k]).workers| && Exec(s, run[..k]).workers[w].Idle?
    ensures StepsOf(run[..k], w) <= Rank(s.workers[w])
    decreases run
  {
    if s.workers[w].Idle? {
      k := 0;
    } else {
      var s1 := Next(s, run[0]);
      InvKept(s, run[0]);
      HeldByStep(s, run[0]);
      RankFalls(s, run[0], w);
      var j := ReleasedInTime(s1, run[1..], w);
      k := j + 1;
      assert run[..k][0] == run[0] && run[..k][1..] == run[1..][..j];
    }
  }

  /** An idle worker marks nothing: what it held is marked only if another worker claimed it since. */
  lemma IdleMarksNothing(s: World, w: nat, id: string)
    requires Reachable(s) && w < |s.workers| && s.workers[w].Idle?
    requires forall i | 0 <= i < |s.workers| && i != w :: Held(s.workers[i]) != Some(id)
    ensures id !in s.running
  {
    MutualExclusion(s);
  }

  /** Some step of a busy worker is always possible, whatever state the store is in. */
  lemma NeverStuck(s: World, w: nat, newID: string) returns (a: Action)
    requires w < |s.workers| && !s.workers[w].Idle? && Unused(s, newID)
    ensures Enabled(s, a) && Actor(a) == Some(w)
  {
    match s.workers[w] {
      case Entering(_) => a := Claim(w);
      case Claimed(_) => a := Read(w, HEALTHY, newID, 0);
      case Scanning(_, _, _) => a := Scan(w, Results([]), 0);
      case Recorded(_, _) => a := Save(w, HEALTHY);
      case Saved(_, _) => a := Stamp(w, HEALTHY);
      case Updated(_, _) => a := Alert(w, HEALTHY, HEALTHY);
      case Leaving(_) => a := Release(w);
    }
  }

  // ----- The queue of manual requests ---------------------------------------------------------

  predicate QueueOK(s: World) {
    |s.manual| <= QUEUE_SIZE && s.accepted == s.handled + s.manual
  }

  lemma QueueKept(s: World, a: Action)
    requires QueueOK(s) && Enabled(s, a)
    ensures QueueOK(Next(s, a))
  {
    if a.Read? {
      var t := if a.disk.readOK then Find(s.store.watchlist, s.workers[a.w].id) else None;
    }
    if a.TakeManual? {
      assert s.manual == [s.manual[0]] + s.manual[1..];
    }
  }

  lemma {:induction false} QueueAlong(s: World, run: seq<Action>)
    requires QueueOK(s) && Legal(s, run)
    ensures QueueOK(Exec(s, run))
    decreases run
  {
    if run != [] {
      QueueKept(s, run[0]);
      QueueAlong(Next(s, run[0]), run[1..]);
    }
  }

  /** The queue never exceeds its capacity, and the accepted requests are the handled ones followed by the pending
      ones: none is lost, doubled or reordered. */
  lemma QueueBounded(s: World)
    requires Reachable(s)
    ensures |s.manual| <= 16
    ensures s.accepted == s.handled + s.manual
  {
    hide Legal, Exec, Consistent, KnownIDs, LinkedRecords;
    var store, n: nat, run :| ReachedBy(s, store, n, run);
    QueueAlong(Start(store, n), run);
  }

  /** A request is accepted exactly when there is room. */
  lemma RequestAccepted(s: World, id: string)
    requires Reachable(s)
    ensures Next(s, Request(id)).accepted == (if |s.manual| == 16 then s.accepted else s.accepted + [id])
  {
    QueueBounded(s);
  }
}
