/** The store (internal/server/storage.go): the watchlist, the scan records and the alert destinations. Every
    locked operation reads a whole list, changes it and writes it back with an atomic rename, so it is one
    step that either happens or leaves the files as they were. */
module Storage {
  import opened Text
  import opened Alerts

  datatype Target = Target(
    id: string, kind: string, value: string, ref: string, platform: string, repoHost: string,
    addedAt: int, lastScan: Option<int>, lastScanID: string)

  /** What is on disk. */
  datatype StoreState = StoreState(
    watchlist: seq<Target>, scans: map<string, ScanRecord>, alerts: seq<AlertDestination>)

  /** Whether the two halves of an operation reach the disk. */
  datatype Disk = Disk(readOK: bool, writeOK: bool)

  const HEALTHY: Disk := Disk(true, true)

  // ----- List operations, as functions ---------------------------------------

  /** The watchlist without an id. */
  function Without(list: seq<Target>, id: string): seq<Target> {
    if list == [] then []
    else
      var last := list[|list| - 1];
      Without(list[..|list| - 1], id) + (if last.id != id then [last] else [])
  }

  function WithoutAlert(list: seq<AlertDestination>, id: string): seq<AlertDestination> {
    if list == [] then []
    else
      var last := list[|list| - 1];
      WithoutAlert(list[..|list| - 1], id) + (if last.id != id then [last] else [])
  }

  /** The first position of an id, or the length. */
  function Position(list: seq<Target>, id: string): (i: nat)
    ensures i <= |list|
    ensures i < |list| ==> list[i].id == id
    ensures forall k | 0 <= k < i :: list[k].id != id
  {
    if list == [] || list[0].id == id then 0 else 1 + Position(list[1..], id)
  }

  function Find(list: seq<Target>, id: string): Option<Target> {
    var i := Position(list, id);
    if i < |list| then Some(list[i]) else None
  }

  /** The first target with the id carries the scan; nothing else changes. */
  function Stamped(list: seq<Target>, id: string, scanID: string, at: int): seq<Target> {
    var i := Position(list, id);
    if i < |list| then list[i := list[i].(lastScan := Some(at), lastScanID := scanID)] else list
  }

  predicate DistinctIDs(list: seq<Target>) {
    forall i, j | 0 <= i < j < |list| :: list[i].id != list[j].id
  }

  lemma {:induction false} WithoutMembers(list: seq<Target>, id: string)
    ensures forall t :: t in Without(list, id) <==> t in list && t.id != id
    ensures DistinctIDs(list) ==> DistinctIDs(Without(list, id))
    ensures |Without(list, id)| <= |list|
  {
    if list != [] {
      var init, last := list[..|list| - 1], list[|list| - 1];
      assert list == init + [last];
      WithoutMembers(init, id);
      var kept := Without(init, id);
      if DistinctIDs(list) && last.id != id {
        forall i, j | 0 <= i < j < |kept + [last]| ensures (kept + [last])[i].id != (kept + [last])[j].id {
          if j == |kept| {
            assert kept[i] in init;
            var k :| 0 <= k < |init| && init[k] == kept[i];
            assert list[k] == kept[i] && list[|list| - 1] == last;
          }
        }
      }
    }
  }

  /** Deletion works part by part, so that what is kept keeps its order and its repetitions. */
  lemma {:induction false} WithoutConcat(a: seq<Target>, b: seq<Target>, id: string)
    ensures Without(a + b, id) == Without(a, id) + Without(b, id)
  {
    if b == [] {
      assert a + b == a;
    } else {
      assert (a + b)[..|a + b| - 1] == a + b[..|b| - 1];
      WithoutConcat(a, b[..|b| - 1], id);
    }
  }

  lemma {:induction false} WithoutAlertConcat(a: seq<AlertDestination>, b: seq<AlertDestination>, id: string)
    ensures WithoutAlert(a + b, id) == WithoutAlert(a, id) + WithoutAlert(b, id)
  {
    if b == [] {
      assert a + b == a;
    } else {
      assert (a + b)[..|a + b| - 1] == a + b[..|b| - 1];
      WithoutAlertConcat(a, b[..|b| - 1], id);
    }
  }

  /** Exactly the destinations of the id go. */
  lemma {:induction false} WithoutAlertMembers(list: seq<AlertDestination>, id: string)
    ensures forall d :: d in WithoutAlert(list, id) <==> d in list && d.id != id
  {
    if list != [] {
      var init, last := list[..|list| - 1], list[|list| - 1];
      assert list == init + [last];
      WithoutAlertMembers(init, id);
    }
  }

  lemma AddKeepsDistinct(list: seq<Target>, x: Target)
    requires DistinctIDs(list) && forall t | t in list :: t.id != x.id
    ensures DistinctIDs(list + [x])
  {
    forall i, j | 0 <= i < j < |list + [x]| ensures (list + [x])[i].id != (list + [x])[j].id {
      if j == |list| { assert list[i] in list; }
    }
  }

  /** With distinct ids, stamping changes exactly the target of that id. */
  lemma StampedMembers(list: seq<Target>, id: string, scanID: string, at: int)
    requires DistinctIDs(list)
    ensures DistinctIDs(Stamped(list, id, scanID, at))
    ensures forall t :: t in Stamped(list, id, scanID, at) <==>
              || (t in list && t.id != id)
              || (exists u :: u in list && u.id == id && t == u.(lastScan := Some(at), lastScanID := scanID))
  {
    var i := Position(list, id);
    if i < |list| {
      var now := Stamped(list, id, scanID, at);
      assert forall k | 0 <= k < |list| && k != i :: now[k] == list[k] && now[k].id != id;
      forall t | t in now
        ensures (t in list && t.id != id) ||
                (exists u :: u in list && u.id == id && t == u.(lastScan := Some(at), lastScanID := scanID))
      {
        var k :| 0 <= k < |now| && now[k] == t;
        if k == i {
          assert list[i] in list;
        }
      }
      forall t | t in list && t.id != id ensures t in now {
        var k :| 0 <= k < |list| && list[k] == t;
        assert now[k] == t;
      }
      forall u | u in list && u.id == id ensures u.(lastScan := Some(at), lastScanID := scanID) in now {
        var k :| 0 <= k < |list| && list[k] == u;
        assert k == i;
        assert now[i] == u.(lastScan := Some(at), lastScanID := scanID);
      }
    }
  }

  lemma FindMember(list: seq<Target>, id: string)
    requires DistinctIDs(list)
    ensures forall t :: t in list && t.id == id ==> Find(list, id) == Some(t)
    ensures Find(list, id).Some? ==> Find(list, id).value in list && Find(list, id).value.id == id
  {}

  // ----- The store ---------------------------------------------------------------

  class Store {
    var watchlist: seq<Target>
    var scans: map<string, ScanRecord>
    var alerts: seq<AlertDestination>

    ghost function State(): StoreState
      reads this
    {
      StoreState(watchlist, scans, alerts)
    }

    constructor (disk: StoreState)
      ensures State() == disk
    {
      watchlist, scans, alerts := disk.watchlist, disk.scans, disk.alerts;
    }

    /** The list decoded from the file, in storage of its own. */
    method ReadWatchlist() returns (list: array<Target>)
      ensures fresh(list) && list[..] == watchlist
    {
      var contents := watchlist;
      list := new Target[|contents|](i requires 0 <= i < |contents| => contents[i]);
    }

    method ReadAlerts() returns (list: array<AlertDestination>)
      ensures fresh(list) && list[..] == alerts
    {
      var contents := alerts;
      list := new AlertDestination[|contents|](i requires 0 <= i < |contents| => contents[i]);
    }

    method ListTargets(disk: Disk) returns (list: Option<seq<Target>>)
      ensures list == if disk.readOK then Some(watchlist) else None
    {
      return if disk.readOK then Some(watchlist) else None;
    }

    /** The caller's id and addition time are overwritten, every other field is kept. */
    method AddTarget(t: Target, newID: string, now: int, disk: Disk) returns (added: Option<Target>)
      modifies this
      ensures added == if disk.readOK && disk.writeOK then Some(t.(id := newID, addedAt := now)) else None
      ensures State() ==
              old(State()).(watchlist := if added.Some? then old(watchlist) + [added.value] else old(watchlist))
    {
      if !disk.readOK {
        return None;
      }
      var list := watchlist;
      var stored := t.(id := newID, addedAt := now);
      list := list + [stored];
      if !disk.writeOK {
        return None;
      }
      watchlist := list;
      return Some(stored);
    }

    method DeleteTarget(id: string, disk: Disk) returns (ok: bool)
      modifies this
      ensures ok == (disk.readOK && disk.writeOK)
      ensures State() == old(State()).(watchlist := if ok then Without(old(watchlist), id) else old(watchlist))
    {
      if !disk.readOK {
        return false;
      }
      var list := ReadWatchlist();
      var kept := FilterInPlace(list, id);
      if !disk.writeOK {
        return false;
      }
      watchlist := list[..kept];
      return true;
    }

    method GetTarget(id: string, disk: Disk) returns (t: Option<Target>)
      ensures t == if disk.readOK then Find(watchlist, id) else None
    {
      if !disk.readOK {
        return None;
      }
      var i := 0;
      while i < |watchlist|
        invariant 0 <= i <= |watchlist|
        invariant forall k | 0 <= k < i :: watchlist[k].id != id
      {
        if watchlist[i].id == id {
          return Some(watchlist[i]);
        }
        i := i + 1;
      }
      return None;
    }

    method UpdateTargetScan(id: string, scanID: string, at: int, disk: Disk) returns (ok: bool)
      modifies this
      ensures ok == (disk.readOK && disk.writeOK)
      ensures State() ==
              old(State()).(watchlist := if ok then Stamped(old(watchlist), id, scanID, at) else old(watchlist))
    {
      if !disk.readOK {
        return false;
      }
      var list := ReadWatchlist();
      StampInPlace(list, id, scanID, at);
      if !disk.writeOK {
        return false;
      }
      watchlist := list[..];
      return true;
    }

    method SaveScan(rec: ScanRecord, disk: Disk) returns (ok: bool)
      modifies this
      ensures ok == disk.writeOK
      ensures State() == old(State()).(scans := if ok then old(scans)[rec.id := rec] else old(scans))
    {
      if !disk.writeOK {
        return false;
      }
      scans := scans[rec.id := rec];
      return true;
    }

    method GetScan(id: string, disk: Disk) returns (rec: Option<ScanRecord>)
      ensures rec == if disk.readOK && id in scans then Some(scans[id]) else None
    {
      return if disk.readOK && id in scans then Some(scans[id]) else None;
    }

    method ListAlerts(disk: Disk) returns (list: Option<seq<AlertDestination>>)
      ensures list == if disk.readOK then Some(alerts) else None
    {
      return if disk.readOK then Some(alerts) else None;
    }

    /** A destination without a threshold gets HIGH. */
    method AddAlert(a: AlertDestination, newID: string, now: int, disk: Disk) returns (added: Option<AlertDestination>)
      modifies this
      ensures added == if disk.readOK && disk.writeOK then Some(Registered(a, newID, now)) else None
      ensures added.Some? ==>
                added.value == AlertDestination(newID, a.name, a.url,
                                              if a.minSeverity == "" then "HIGH" else a.minSeverity, now)
      ensures State() == old(State()).(alerts := if added.Some? then old(alerts) + [added.value] else old(alerts))
    {
      if !disk.readOK {
        return None;
      }
      var stored := a.(id := newID, addedAt := now);
      if stored.minSeverity == "" {
        stored := stored.(minSeverity := "HIGH");
      }
      if !disk.writeOK {
        return None;
      }
      alerts := alerts + [stored];
      return Some(stored);
    }

    method DeleteAlert(id: string, disk: Disk) returns (ok: bool)
      modifies this
      ensures ok == (disk.readOK && disk.writeOK)
      ensures State() == old(State()).(alerts := if ok then WithoutAlert(old(alerts), id) else old(alerts))
    {
      if !disk.readOK {
        return false;
      }
      var list := ReadAlerts();
      var kept := FilterAlertsInPlace(list, id);
      if !disk.writeOK {
        return false;
      }
      alerts := list[..kept];
      return true;
    }
  }

  /** A new destination as it is stored: an empty threshold becomes HIGH. */
  function Registered(a: AlertDestination, newID: string, now: int): AlertDestination {
    var stored := a.(id := newID, addedAt := now);
    if stored.minSeverity == "" then stored.(minSeverity := "HIGH") else stored
  }

  /** The kept targets are moved to the front of the same storage. */
  method FilterInPlace(list: array<Target>, id: string) returns (kept: nat)
    modifies list
    ensures kept <= list.Length
    ensures list[..kept] == Without(old(list[..]), id)
  {
    kept := 0;
    ghost var was := list[..];
    for i := 0 to list.Length
      invariant kept <= i
      invariant list[..kept] == Without(was[..i], id)
      invariant forall k | i <= k < list.Length :: list[k] == was[k]
    {
      assert was[..i + 1][..i] == was[..i];
      assert list[i] == was[i];
      if list[i].id != id {
        list[kept] := list[i];
        kept := kept + 1;
      }
    }
    assert was[..list.Length] == was;
  }

  method FilterAlertsInPlace(list: array<AlertDestination>, id: string) returns (kept: nat)
    modifies list
    ensures kept <= list.Length
    ensures list[..kept] == WithoutAlert(old(list[..]), id)
  {
    kept := 0;
    ghost var was := list[..];
    for i := 0 to list.Length
      invariant kept <= i
      invariant list[..kept] == WithoutAlert(was[..i], id)
      invariant forall k | i <= k < list.Length :: list[k] == was[k]
    {
      assert was[..i + 1][..i] == was[..i];
      assert list[i] == was[i];
      if list[i].id != id {
        list[kept] := list[i];
        kept := kept + 1;
      }
    }
    assert was[..list.Length] == was;
  }

  method StampInPlace(list: array<Target>, id: string, scanID: string, at: int)
    modifies list
    ensures list[..] == Stamped(old(list[..]), id, scanID, at)
  {
    ghost var was := list[..];
    for i := 0 to list.Length
      invariant list[..] == was
      invariant forall k | 0 <= k < i :: was[k].id != id
    {
      if list[i].id == id {
        assert Position(was, id) == i;
        list[i] := list[i].(lastScan := Some(at), lastScanID := scanID);
        return;
      }
    }
    assert Position(was, id) == |was|;
  }
}
