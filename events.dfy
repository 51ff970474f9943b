/** The `EventHandler` class of src/serviceWorkerUtils/eventHandler.ts:
    the service worker's handlers for the side panel's and the tracker's
    messages, each of which first makes sure a database connection exists
    and then reads or writes the three object stores.

    The outside world enters as parameters: whether opening the database
    succeeds (`connectOk`), what the active-tab query answers (`tab`),
    whether registering the content script succeeds (`registered`) and the
    clock reading (`now`). */
module Events {
  import opened Results
  import opened Store
  import opened Entities
  import opened Schema

  /** Why a handler answered `{ error }`. */
  datatype HandlerError =
    | InitFailed            // the database could not be opened
    | Store(cause: StoreError)
    | MissionExists         // "Mission with that name already exists"
    | TabQueryFailed        // the active-tab query was rejected
    | NoActiveTab           // "No active tab found"
    | PermissionDenied      // "Permission denied"
    | NoActiveMission       // "No active mission found"
    | RegistrationFailed    // registering the content script was rejected
    | TypeError             // a property was written on `undefined`

  /** The first tab the active-tab query returns. */
  datatype ActiveTab =
    | QueryFailed
    | NoTab                     // no tab, or one without an id or a URL
    | Tab(hostname: string)     // the hostname of the tab's URL

  // ---------------------------------------------------------------------
  // Missions

  /** The record `addMission` stores for a new mission. */
  function NewMission(name: string, missionTime: string): MissionFields
  {
    MissionFields(name, missionTime, true, false, None, None, [])
  }

  /** A mission switched off because another one was added: no longer
      active, and so no longer running either. */
  function Deactivated(m: MissionFields): MissionFields
  {
    m.(active := false, running := false)
  }

  /** The deactivation `addMission` writes: only `active` is cleared. */
  function DeactivatedAsWritten(m: MissionFields): MissionFields
  {
    m.(active := false)
  }

  /** `startMission`'s update of the active mission. */
  function Started(m: MissionFields, now: int): MissionFields
  {
    m.(running := true, startTime := Some(now))
  }

  /** `endMission`'s update: finished, with the activities recorded so far. */
  function Ended(m: MissionFields, now: int, activities: seq<Activity>): MissionFields
  {
    m.(active := false, running := false, endTime := Some(now), activities := activities)
  }

  /** Every mission but `keep` deactivated. */
  function DeactivateAllBut(records: map<nat, MissionFields>, keep: nat): (r: map<nat, MissionFields>)
    ensures r.Keys == records.Keys
    ensures keep in records ==> r[keep] == records[keep]
    ensures forall k :: k in records && k != keep ==> r[k] == Deactivated(records[k])
  {
    map k | k in records :: if k == keep then records[k] else Deactivated(records[k])
  }

  ghost predicate AtMostOneActive(records: map<nat, MissionFields>)
  {
    forall k1, k2 :: k1 in records && k2 in records && records[k1].active && records[k2].active ==> k1 == k2
  }

  ghost predicate RunningImpliesActive(records: map<nat, MissionFields>)
  {
    forall k :: k in records && records[k].running ==> records[k].active
  }

  /** What the handlers keep true of the missions store: at most one
      mission is active, and only the active one can be running. */
  ghost predicate MissionsConsistent(records: map<nat, MissionFields>)
  {
    AtMostOneActive(records) && RunningImpliesActive(records)
  }

  /** `id` is the one active mission. */
  ghost predicate OnlyActive(records: map<nat, MissionFields>, id: nat)
  {
    id in records && records[id].active && forall k :: k in records && records[k].active ==> k == id
  }

  predicate NameTaken(records: map<nat, MissionFields>, name: string)
  {
    exists k :: k in records && records[k].name == name
  }

  predicate UrlTaken(records: map<nat, PermissionFields>, url: string)
  {
    exists k :: k in records && records[k].url == url
  }

  /** `missions.find((mission) => mission.active)`. */
  function FirstActive(rows: seq<Mission>): (r: Option<Mission>)
    ensures r.Some? ==> r.value in rows && r.value.value.active
    ensures r.None? <==> forall m :: m in rows ==> !m.value.active
    ensures r.Some? ==> exists i :: 0 <= i < |rows| && rows[i] == r.value && forall j :: 0 <= j < i ==> !rows[j].value.active
  {
    if rows == [] then None
    else if rows[0].value.active then Some(rows[0])
    else
      var r := FirstActive(rows[1..]);
      if r.Some? then
        ghost var i :| 0 <= i < |rows[1..]| && rows[1..][i] == r.value && forall j :: 0 <= j < i ==> !rows[1..][j].value.active;
        assert rows[i + 1] == r.value && forall j :: 0 <= j < i + 1 ==> !rows[j].value.active;
        r
      else r
  }

  /** The content-script match pattern for one permitted host. */
  function MatchPattern(url: string): string
  {
    "https://" + url + "/*"
  }

  /** The match patterns registered for the permitted hosts, in store order. */
  function MatchPatterns(permissions: seq<URLPermission>): (r: seq<string>)
    ensures |r| == |permissions|
    ensures forall i :: 0 <= i < |r| ==> r[i] == MatchPattern(permissions[i].value.url)
  {
    if permissions == [] then [] else [MatchPattern(permissions[0].value.url)] + MatchPatterns(permissions[1..])
  }

  /** Over consistent missions, `find` of the active mission singles out
      the one active mission, and finds none exactly when none is active. */
  lemma {:induction false} FirstActiveIsOnlyActive(t: Table<MissionFields>)
    requires AtMostOneActive(t.records)
    requires forall k :: k in t.records ==> k < t.current
    ensures FirstActive(Rows(t)).Some? ==>
      var m := FirstActive(Rows(t)).value; OnlyActive(t.records, m.id) && m.value == t.records[m.id]
    ensures FirstActive(Rows(t)).None? <==> forall k :: k in t.records ==> !t.records[k].active
  {
    var rows := Rows(t);
    if FirstActive(rows).None? {
      forall k | k in t.records
        ensures !t.records[k].active
      {
        assert Row(k, t.records[k]) in rows;
      }
    } else {
      forall k | k in t.records && t.records[k].active
        ensures !(forall k' :: k' in t.records ==> !t.records[k'].active)
      {
      }
    }
  }

  /** Adding a mission and deactivating every other one leaves exactly the
      new mission active, keeps the store consistent, and changes nothing
      else about the other missions. */
  lemma {:induction false} AddMissionLeavesOnlyNewActive(records: map<nat, MissionFields>, id: nat, name: string, missionTime: string)
    requires id !in records
    ensures var after := DeactivateAllBut(records[id := NewMission(name, missionTime)], id);
      && MissionsConsistent(after)
      && OnlyActive(after, id)
      && after.Keys == records.Keys + {id}
      && after[id] == NewMission(name, missionTime)
      && (forall k :: k in records ==> after[k] == Deactivated(records[k]))
  {
    var added := records[id := NewMission(name, missionTime)];
    var after := DeactivateAllBut(added, id);
    forall k | k in records
      ensures after[k] == Deactivated(records[k])
    {
      assert k != id && added[k] == records[k];
    }
  }

  /** Starting the active mission keeps the store consistent. */
  lemma {:induction false} StartKeepsConsistent(records: map<nat, MissionFields>, id: nat, now: int)
    requires MissionsConsistent(records)
    requires id in records && records[id].active
    ensures MissionsConsistent(records[id := Started(records[id], now)])
    ensures OnlyActive(records[id := Started(records[id], now)], id)
  {
    var after := records[id := Started(records[id], now)];
    forall k | k in after && after[k].active
      ensures k == id
    {
    }
  }

  /** Ending the active mission keeps the store consistent, and afterwards
      no mission is active. */
  lemma {:induction false} EndLeavesNoneActive(records: map<nat, MissionFields>, id: nat, now: int, activities: seq<Activity>)
    requires MissionsConsistent(records)
    requires OnlyActive(records, id)
    ensures var after := records[id := Ended(records[id], now, activities)];
      MissionsConsistent(after) && forall k :: k in after ==> !after[k].active && !after[k].running
  {
    var after := records[id := Ended(records[id], now, activities)];
    forall k | k in after
      ensures !after[k].active && !after[k].running
    {
      if k != id {
        assert !records[k].active;
      }
    }
  }

  /** Every mission but `keep` deactivated as `addMission` writes it. */
  function DeactivateAllButAsWritten(records: map<nat, MissionFields>, keep: nat): map<nat, MissionFields>
  {
    map k | k in records :: if k == keep then records[k] else DeactivatedAsWritten(records[k])
  }

  /** Whenever another mission is running when one is added, the source's
      deactivation leaves it running but inactive, which breaks "only the
      active mission can be running"; the corrected one keeps it. */
  lemma AsWrittenDeactivationBreaksConsistency(records: map<nat, MissionFields>, keep: nat, k: nat)
    requires k in records && k != keep && records[k].running
    ensures var after := DeactivateAllButAsWritten(records, keep);
      k in after && !after[k].active && after[k].running && !RunningImpliesActive(after)
    ensures RunningImpliesActive(DeactivateAllBut(records, keep)) <==>
      (keep in records && records[keep].running ==> records[keep].active)
  {
    var after := DeactivateAllButAsWritten(records, keep);
    assert after[k] == DeactivatedAsWritten(records[k]);
    var fixed := DeactivateAllBut(records, keep);
    if keep in records && records[keep].running && !records[keep].active {
      assert keep in fixed && fixed[keep].running && !fixed[keep].active;
    }
  }

  /** The deactivation as written can leave a mission running that is no
      longer active: start mission 1, then add mission 2. */
  lemma AsWrittenDeactivationLeavesInactiveRunning()
    ensures var running := Started(NewMission("first", "5min"), 0);
      && MissionsConsistent(map[1 := running])
      && !RunningImpliesActive(map[1 := DeactivatedAsWritten(running), 2 := NewMission("second", "5min")])
      && RunningImpliesActive(map[1 := Deactivated(running), 2 := NewMission("second", "5min")])
  {
    var running := Started(NewMission("first", "5min"), 0);
    var stale := map[1 := DeactivatedAsWritten(running), 2 := NewMission("second", "5min")];
    assert 1 in stale && stale[1].running && !stale[1].active;
  }

  // ---------------------------------------------------------------------
  // The mission handlers' work on an open database

  /** What `addMission` answers and leaves in the missions store, from the
      store `s` it started with. */
  ghost predicate AddMissionOutcome(s: Table<MissionFields>, name: string, missionTime: string,
                                    r: Result<Mission, HandlerError>, after: Table<MissionFields>)
  {
    if NameTaken(s.records, name) then
      r == Err(MissionExists) && after == s
    else if s.current > MaxGeneratedKey then
      r == Err(Store(ConstraintError)) && after == s
    else
      && r == Ok(Row(s.current, NewMission(name, missionTime)))
      && after == Table(DeactivateAllBut(s.records[s.current := NewMission(name, missionTime)], s.current), s.current + 1)
  }

  /** What `startMission` answers, hands to the script registration and
      leaves in the stores, from the stores `s` it started with. */
  ghost predicate StartMissionOutcome(s: Snapshot, tab: ActiveTab, registered: bool, now: int,
                                      r: Result<bool, HandlerError>, registration: Option<seq<string>>, after: Snapshot)
  {
    if tab.QueryFailed? then r == Err(TabQueryFailed) && registration == None && after == s
    else if tab.NoTab? then r == Err(NoActiveTab) && registration == None && after == s
    else if !UrlTaken(s.permissions.records, tab.hostname) then
      r == Err(PermissionDenied) && registration == None && after == s
    else if forall k :: k in s.missions.records ==> !s.missions.records[k].active then
      r == Err(NoActiveMission) && registration == None && after == s
    else
      && registration == Some(MatchPatterns(Rows(s.permissions)))
      && (!registered ==> r == Err(RegistrationFailed) && after == s)
      && (registered ==> r == Ok(true) && exists id ::
            && OnlyActive(s.missions.records, id)
            && after == s.(missions := Replaced(s.missions, id, Started(s.missions.records[id], now))))
  }

  /** What `endMission` leaves in the stores, from the stores `s` it
      started with: no mission is active afterwards; with none active
      before, nothing changes; otherwise the active mission is ended with
      the recorded activities, and those are cleared. */
  ghost predicate EndMissionOutcome(s: Snapshot, now: int, after: Snapshot)
  {
    && (forall k :: k in after.missions.records ==> !after.missions.records[k].active)
    && ((forall k :: k in s.missions.records ==> !s.missions.records[k].active) ==> after == s)
    && (forall id :: OnlyActive(s.missions.records, id) ==>
          after == Snapshot(s.permissions,
                            Cleared(s.activites),
                            Replaced(s.missions, id, Ended(s.missions.records[id], now, Rows(s.activites)))))
  }

  /** Storing a mission back under its own key with its name unchanged
      cannot violate the unique "name" index. */
  lemma SameNameNoClash(records: map<nat, MissionFields>, id: nat, value: MissionFields)
    requires IndexUnique(records, UniqueIndex("name", MissionName))
    requires id in records && value.name == records[id].name
    ensures !Clashes(records, UniqueIndex("name", MissionName), value, id)
  {
    var index := UniqueIndex("name", MissionName);
    forall k | k in records && k != id
      ensures index.keyOf(records[k]) != index.keyOf(value)
    {
      assert index.keyOf(records[id]) == index.keyOf(value);
    }
  }

  /** `rows` were read from `records`. */
  ghost predicate RowsOf(records: map<nat, MissionFields>, rows: seq<Mission>)
  {
    forall r :: r in rows ==> r.id in records && records[r.id] == r.value
  }

  /** The missions store after the `forEach` of `addMission` has stored
      the first `n` of `rows` back, in order, each deactivated unless it
      is `keep`. */
  function DeactivateFirst(records: map<nat, MissionFields>, keep: nat, rows: seq<Mission>, n: nat): map<nat, MissionFields>
    requires n <= |rows|
  {
    if n == 0 then records
    else
      var before := DeactivateFirst(records, keep, rows, n - 1);
      if rows[n - 1].id == keep then before else before[rows[n - 1].id := Deactivated(rows[n - 1].value)]
  }

  /** `id` is the key of one of the first `n` rows. */
  predicate HasIdBefore(rows: seq<Mission>, n: nat, id: nat)
  {
    exists j :: 0 <= j < n && j < |rows| && rows[j].id == id
  }

  /** Storing back rows read from the store deactivates exactly the
      missions that appear among them, except `keep`, and no others. */
  lemma {:induction false} DeactivateFirstAt(records: map<nat, MissionFields>, keep: nat, rows: seq<Mission>, n: nat, k: nat)
    requires RowsOf(records, rows) && n <= |rows|
    ensures DeactivateFirst(records, keep, rows, n).Keys == records.Keys
    ensures k in records ==>
      DeactivateFirst(records, keep, rows, n)[k] ==
        if k != keep && HasIdBefore(rows, n, k) then Deactivated(records[k]) else records[k]
  {
    if n > 0 {
      DeactivateFirstAt(records, keep, rows, n - 1, k);
      var last := rows[n - 1];
      assert last in rows;
      if k != last.id {
        assert HasIdBefore(rows, n, k) ==> HasIdBefore(rows, n - 1, k) by {
          if HasIdBefore(rows, n, k) {
            var j :| 0 <= j < n && j < |rows| && rows[j].id == k;
            assert j < n - 1;
          }
        }
      } else {
        assert HasIdBefore(rows, n, k);
      }
    }
  }

  /** Storing back every row of the store deactivates every mission
      but `keep`. */
  lemma DeactivateAllRows(records: map<nat, MissionFields>, keep: nat, rows: seq<Mission>)
    requires RowsOf(records, rows)
    requires forall k :: k in records ==> Row(k, records[k]) in rows
    ensures DeactivateFirst(records, keep, rows, |rows|) == DeactivateAllBut(records, keep)
  {
    var after := DeactivateFirst(records, keep, rows, |rows|);
    DeactivateFirstAt(records, keep, rows, |rows|, keep);
    forall k | k in records
      ensures after[k] == DeactivateAllBut(records, keep)[k]
    {
      DeactivateFirstAt(records, keep, rows, |rows|, k);
      var j :| 0 <= j < |rows| && rows[j] == Row(k, records[k]);
      assert HasIdBefore(rows, |rows|, k);
    }
  }

  /** One step of the `forEach` of `addMission`: the `i`-th row is stored
      back deactivated unless it is `keep`. */
  method DeactivateRow(store: ObjectStore<MissionFields>, keep: nat, missions: seq<Mission>, i: nat,
                       ghost base: map<nat, MissionFields>)
    requires store.Valid() && store.index == UniqueIndex("name", MissionName)
    requires RowsOf(base, missions) && i < |missions|
    requires store.records == DeactivateFirst(base, keep, missions, i)
    modifies store
    ensures store.Valid() && store.current == old(store.current)
    ensures store.records == DeactivateFirst(base, keep, missions, i + 1)
  {
    var mission := missions[i];
    if mission.id != keep {
      DeactivateFirstAt(base, keep, missions, i, mission.id);
      SameNameNoClash(store.records, mission.id, Deactivated(mission.value));
      var _ := store.Put(Row(mission.id, Deactivated(mission.value)));
    }
  }

  /** The `forEach` of `addMission`: every mission but `keep` is stored
      back deactivated, one `put` at a time. */
  method DeactivateOthers(store: ObjectStore<MissionFields>, keep: nat)
    requires store.Valid() && store.index == UniqueIndex("name", MissionName)
    modifies store
    ensures store.Valid() && store.current == old(store.current)
    ensures store.records == DeactivateAllBut(old(store.records), keep)
  {
    ghost var base := store.records;
    var missions := store.GetAll();
    var i := 0;
    while i < |missions|
      invariant 0 <= i <= |missions|
      invariant store.Valid() && store.current == old(store.current)
      invariant store.records == DeactivateFirst(base, keep, missions, i)
    {
      DeactivateRow(store, keep, missions, i, base);
      i := i + 1;
    }
    DeactivateAllRows(base, keep, missions);
  }

  /** `addMission` once the database is open. */
  method AddMissionTo(store: ObjectStore<MissionFields>, name: string, missionTime: string) returns (r: Result<Mission, HandlerError>)
    requires store.Valid() && store.index == UniqueIndex("name", MissionName)
    requires MissionsConsistent(store.records)
    modifies store
    ensures store.Valid() && MissionsConsistent(store.records)
    ensures AddMissionOutcome(old(store.Contents()), name, missionTime, r, store.Contents())
    ensures r.Ok? ==> OnlyActive(store.records, r.value.id)
  {
    var existing := store.IndexGet("name", name);
    match existing
    case Err(e) => r := Err(Store(e));
    case Ok(found) =>
      if found.Some? {
        return Err(MissionExists);
      }
      var fields := NewMission(name, missionTime);
      ghost var before := store.records;
      var added := store.Add(fields);
      match added
      case Err(e) => r := Err(Store(e));
      case Ok(newId) =>
        AddMissionLeavesOnlyNewActive(before, newId, name, missionTime);
        DeactivateOthers(store, newId);
        r := Ok(Row(newId, fields));
  }

  /** `startMission` once the database is open. */
  method StartMissionOn(d: Database, tab: ActiveTab, registered: bool, now: int)
    returns (r: Result<bool, HandlerError>, registration: Option<seq<string>>)
    requires d.Valid() && MissionsConsistent(d.missions.records)
    modifies d.missions
    ensures d.Valid() && MissionsConsistent(d.missions.records)
    ensures StartMissionOutcome(old(d.Contents()), tab, registered, now, r, registration, d.Contents())
  {
    registration := None;
    match tab
    case QueryFailed => r := Err(TabQueryFailed);
    case NoTab => r := Err(NoActiveTab);
    case Tab(hostname) =>
      var permission := d.permissions.IndexGet("url", hostname);
      match permission
      case Err(e) => r := Err(Store(e));
      case Ok(found) =>
        if found.None? {
          return Err(PermissionDenied), None;
        }
        var missions := d.missions.GetAll();
        FirstActiveIsOnlyActive(d.missions.Contents());
        var active := FirstActive(missions);
        match active
        case None => r := Err(NoActiveMission);
        case Some(mission) =>
          var permissions := d.permissions.GetAll();
          registration := Some(MatchPatterns(permissions));
          if !registered {
            return Err(RegistrationFailed), registration;
          }
          r := RunMission(d.missions, mission, now);
  }

  /** The last step of `startMission`: the active mission is stored back
      running, started at `now`. */
  method RunMission(store: ObjectStore<MissionFields>, mission: Mission, now: int) returns (r: Result<bool, HandlerError>)
    requires store.Valid() && store.index == UniqueIndex("name", MissionName)
    requires MissionsConsistent(store.records)
    requires OnlyActive(store.records, mission.id) && store.records[mission.id] == mission.value
    modifies store
    ensures store.Valid() && MissionsConsistent(store.records)
    ensures r == Ok(true)
    ensures store.Contents() == Replaced(old(store.Contents()), mission.id, Started(mission.value, now))
  {
    StartKeepsConsistent(store.records, mission.id, now);
    SameNameNoClash(store.records, mission.id, Started(mission.value, now));
    var run := store.Put(Row(mission.id, Started(mission.value, now)));
    match run
    case Err(e) => r := Err(Store(e));
    case Ok(_) => r := Ok(true);
  }

  /** `endMission` once the database is open. */
  method EndMissionOn(d: Database, now: int)
    requires d.Valid() && MissionsConsistent(d.missions.records)
    modifies d.missions, d.activites
    ensures d.Valid() && MissionsConsistent(d.missions.records)
    ensures EndMissionOutcome(old(d.Contents()), now, d.Contents())
  {
    ghost var s := d.Contents();
    var missions := d.missions.GetAll();
    FirstActiveIsOnlyActive(d.missions.Contents());
    var active := FirstActive(missions);
    match active
    case None =>
    case Some(mission) =>
      EndActive(d, mission, now);
      forall id | OnlyActive(s.missions.records, id)
        ensures id == mission.id
      {
      }
  }

  /** `endMission` with an active mission: it is stored back ended, with
      the recorded activities, which are then cleared. */
  method EndActive(d: Database, mission: Mission, now: int)
    requires d.Valid() && MissionsConsistent(d.missions.records)
    requires OnlyActive(d.missions.records, mission.id) && d.missions.records[mission.id] == mission.value
    modifies d.missions, d.activites
    ensures d.Valid() && MissionsConsistent(d.missions.records)
    ensures forall k :: k in d.missions.records ==> !d.missions.records[k].active
    ensures d.Contents() == Snapshot(old(d.Contents()).permissions,
                                     Cleared(old(d.Contents()).activites),
                                     Replaced(old(d.Contents()).missions, mission.id,
                                              Ended(mission.value, now, Rows(old(d.Contents()).activites))))
  {
    var activities := d.activites.GetAll();
    EndLeavesNoneActive(d.missions.records, mission.id, now, activities);
    var ended := Ended(mission.value, now, activities);
    SameNameNoClash(d.missions.records, mission.id, ended);
    var _ := d.missions.Put(Row(mission.id, ended));
    d.activites.Clear();
  }

  // ---------------------------------------------------------------------
  // The handler

  class EventHandler {
    /** `private db: Storage | null`. */
    var db: Database?
    ghost var Repr: set<object>

    ghost predicate Valid()
      reads this, Repr
    {
      && this in Repr
      && (db != null ==>
            && db in Repr && db.Repr() <= Repr && db.Valid() && db.connected
            && MissionsConsistent(db.missions.records))
    }

    /** What the stores hold; before the first connection, the stores the
        connection will create. */
    ghost function Stored(): Snapshot
      reads this, Repr
      requires Valid()
    {
      if db == null then EmptyStore else db.Contents()
    }

    constructor ()
      ensures Valid() && fresh(Repr) && db == null && Stored() == EmptyStore
    {
      db := null;
      Repr := {this};
    }

    /** `initialize()`, keeping the handle only once the connection is open,
        so that a failed open is retried by the next request. */
    method Initialize(connectOk: bool) returns (ok: bool)
      requires Valid()
      modifies this
      ensures Valid() && fresh(Repr - old(Repr))
      ensures ok == connectOk
      ensures ok ==> db != null && fresh(db) && Stored() == EmptyStore
      ensures !ok ==> db == old(db) && Repr == old(Repr)
    {
      var candidate := new Database();
      ok := candidate.Connect(connectOk);
      if ok {
        db := candidate;
        Repr := {this} + candidate.Repr();
      }
    }

    /** `initialize()` as written: the handle is assigned before the open
        request settles, so it stays assigned when opening fails. */
    method InitializeAsWritten(connectOk: bool) returns (ok: bool)
      modifies this
      ensures db != null && fresh(db) && db.connected == connectOk && ok == connectOk
    {
      db := new Database();
      ok := db.Connect(connectOk);
      Repr := {this} + db.Repr();
    }

    /** The guard every handler starts with: connect unless a handle exists. */
    method EnsureDatabase(connectOk: bool) returns (ok: bool)
      requires Valid()
      modifies this
      ensures Valid() && fresh(Repr - old(Repr))
      ensures ok == (old(db) != null || connectOk)
      ensures ok <==> db != null
      ensures old(db) != null ==> db == old(db) && Repr == old(Repr)
      ensures Stored() == old(Stored())
    {
      if db == null {
        ok := Initialize(connectOk);
      } else {
        ok := true;
      }
    }

    /** The guard with `initialize` as written: any handle, connected or
        not, lets the request through. */
    method EnsureDatabaseAsWritten(connectOk: bool) returns (ok: bool)
      modifies this
      ensures old(db) != null ==> ok && db == old(db)
      ensures old(db) == null ==> db != null && fresh(db) && db.connected == connectOk && ok == connectOk
    {
      if db == null {
        ok := InitializeAsWritten(connectOk);
      } else {
        ok := true;
      }
    }

    /** `addURLPermission`: stores `{ url }`; a URL already permitted violates
        the unique "url" index. */
    method AddURLPermission(connectOk: bool, url: string) returns (r: Result<nat, HandlerError>)
      requires Valid()
      modifies Repr
      ensures Valid() && fresh(Repr - old(Repr))
      ensures old(db) == null && !connectOk ==> r == Err(InitFailed) && db == null
      ensures old(db) != null || connectOk ==>
        var t := old(Stored()).permissions;
        && (r.Ok? <==> t.current <= MaxGeneratedKey && !UrlTaken(t.records, url))
        && (r.Ok? ==> r.value == t.current && Stored() == old(Stored()).(permissions := Added(t, PermissionFields(url))))
        && (r.Err? ==> r == Err(Store(ConstraintError)) && Stored() == old(Stored()))
    {
      var ok := EnsureDatabase(connectOk);
      if !ok {
        return Err(InitFailed);
      }
      var added := db.permissions.Add(PermissionFields(url));
      match added
      case Ok(id) => r := Ok(id);
      case Err(e) => r := Err(Store(e));
    }

    /** `getURLPermissions`: every permission, in key order. */
    method GetURLPermissions(connectOk: bool) returns (r: Result<seq<URLPermission>, HandlerError>)
      requires Valid()
      modifies Repr
      ensures Valid() && fresh(Repr - old(Repr)) && Stored() == old(Stored())
      ensures old(db) == null && !connectOk ==> r == Err(InitFailed) && db == null
      ensures old(db) != null || connectOk ==> r.Ok? && r.value == Rows(old(Stored()).permissions)
    {
      var ok := EnsureDatabase(connectOk);
      if !ok {
        return Err(InitFailed);
      }
      r := Ok(db.permissions.GetAll());
    }

    /** `removeURLPermission`: deletes by key and answers with that key. */
    method RemoveURLPermission(connectOk: bool, id: nat) returns (r: Result<nat, HandlerError>)
      requires Valid()
      modifies Repr
      ensures Valid() && fresh(Repr - old(Repr))
      ensures old(db) == null && !connectOk ==> r == Err(InitFailed) && db == null
      ensures old(db) != null || connectOk ==>
        r == Ok(id) && Stored() == old(Stored()).(permissions := Removed(old(Stored()).permissions, id))
    {
      var ok := EnsureDatabase(connectOk);
      if !ok {
        return Err(InitFailed);
      }
      var removed := db.permissions.Delete(id);
      r := Ok(removed);
    }

    /** `getURLPermission`: the permission for `url`, found through the
        "url" index, or none. */
    method GetURLPermission(connectOk: bool, url: string) returns (r: Result<Option<URLPermission>, HandlerError>)
      requires Valid()
      modifies Repr
      ensures Valid() && fresh(Repr - old(Repr)) && Stored() == old(Stored())
      ensures old(db) == null && !connectOk ==> r == Err(InitFailed) && db == null
      ensures old(db) != null || connectOk ==>
        var t := old(Stored()).permissions;
        && r.Ok?
        && (r.value.Some? <==> UrlTaken(t.records, url))
        && (forall k :: k in t.records && t.records[k].url == url ==> r.value == Some(Row(k, t.records[k])))
    {
      var ok := EnsureDatabase(connectOk);
      if !ok {
        return Err(InitFailed);
      }
      var found := db.permissions.IndexGet("url", url);
      match found
      case Ok(permission) => r := Ok(permission);
      case Err(e) => r := Err(Store(e));
    }

    /** `addActivity`: stores the activity and answers with it and its key. */
    method AddActivity(connectOk: bool, fields: ActivityFields) returns (r: Result<Activity, HandlerError>)
      requires Valid()
      modifies Repr
      ensures Valid() && fresh(Repr - old(Repr))
      ensures old(db) == null && !connectOk ==> r == Err(InitFailed) && db == null
      ensures old(db) != null || connectOk ==>
        var t := old(Stored()).activites;
        && (r.Ok? <==> t.current <= MaxGeneratedKey)
        && (r.Ok? ==> r.value == Row(t.current, fields) && Stored() == old(Stored()).(activites := Added(t, fields)))
        && (r.Err? ==> r == Err(Store(ConstraintError)) && Stored() == old(Stored()))
    {
      var ok := EnsureDatabase(connectOk);
      if !ok {
        return Err(InitFailed);
      }
      var added := db.activites.Add(fields);
      match added
      case Ok(id) => r := Ok(Row(id, fields));
      case Err(e) => r := Err(Store(e));
    }

    /** `removeActivity`: deletes by key and answers with that key. */
    method RemoveActivity(connectOk: bool, id: nat) returns (r: Result<nat, HandlerError>)
      requires Valid()
      modifies Repr
      ensures Valid() && fresh(Repr - old(Repr))
      ensures old(db) == null && !connectOk ==> r == Err(InitFailed) && db == null
      ensures old(db) != null || connectOk ==>
        r == Ok(id) && Stored() == old(Stored()).(activites := Removed(old(Stored()).activites, id))
    {
      var ok := EnsureDatabase(connectOk);
      if !ok {
        return Err(InitFailed);
      }
      var removed := db.activites.Delete(id);
      r := Ok(removed);
    }

    /** `getActivities`: every activity, in key order. */
    method GetActivities(connectOk: bool) returns (r: Result<seq<Activity>, HandlerError>)
      requires Valid()
      modifies Repr
      ensures Valid() && fresh(Repr - old(Repr)) && Stored() == old(Stored())
      ensures old(db) == null && !connectOk ==> r == Err(InitFailed) && db == null
      ensures old(db) != null || connectOk ==> r.Ok? && r.value == Rows(old(Stored()).activites)
    {
      var ok := EnsureDatabase(connectOk);
      if !ok {
        return Err(InitFailed);
      }
      r := Ok(db.activites.GetAll());
    }

    /** `removeAllActivites`: clears the activities. */
    method RemoveAllActivites(connectOk: bool) returns (r: Result<(), HandlerError>)
      requires Valid()
      modifies Repr
      ensures Valid() && fresh(Repr - old(Repr))
      ensures old(db) == null && !connectOk ==> r == Err(InitFailed) && db == null
      ensures old(db) != null || connectOk ==>
        r == Ok(()) && Stored() == old(Stored()).(activites := Cleared(old(Stored()).activites))
    {
      var ok := EnsureDatabase(connectOk);
      if !ok {
        return Err(InitFailed);
      }
      db.activites.Clear();
      r := Ok(());
    }

    /** `updateActivity`: retitles the activity stored under `id` when a
        non-empty title is given. A missing record is dereferenced all the
        same, which throws. */
    method UpdateActivity(connectOk: bool, id: nat, title: Option<string>) returns (r: Result<(), HandlerError>)
      requires Valid()
      modifies Repr
      ensures Valid() && fresh(Repr - old(Repr))
      ensures old(db) == null && !connectOk ==> r == Err(InitFailed) && db == null
      ensures old(db) != null || connectOk ==>
        var t := old(Stored()).activites;
        if title.None? || title.value == "" then
          r == Ok(()) && Stored() == old(Stored())
        else if id !in t.records then
          r == Err(TypeError) && Stored() == old(Stored())
        else
          r == Ok(()) && Stored() == old(Stored()).(activites := Replaced(t, id, t.records[id].(activityTitle := title.value)))
    {
      var ok := EnsureDatabase(connectOk);
      if !ok {
        return Err(InitFailed);
      }
      var found := db.activites.Get(id);
      if title.Some? && title.value != "" {
        match found
        case None => r := Err(TypeError);
        case Some(data) =>
          var updated := db.activites.Put(Row(id, data.(activityTitle := title.value)));
          match updated
          case Ok(_) => r := Ok(());
          case Err(e) => r := Err(Store(e));
      } else {
        r := Ok(());
      }
    }

    /** `addMission`: refuses a name already in use, stores the new active
        mission, then deactivates every other mission. */
    method AddMission(connectOk: bool, name: string, missionTime: string) returns (r: Result<Mission, HandlerError>)
      requires Valid()
      modifies Repr
      ensures Valid() && fresh(Repr - old(Repr))
      ensures old(db) == null && !connectOk ==> r == Err(InitFailed) && db == null
      ensures old(db) != null || connectOk ==>
        && AddMissionOutcome(old(Stored()).missions, name, missionTime, r, Stored().missions)
        && Stored().permissions == old(Stored()).permissions
        && Stored().activites == old(Stored()).activites
      ensures r.Ok? ==> db != null && OnlyActive(db.missions.records, r.value.id)
    {
      var ok := EnsureDatabase(connectOk);
      if !ok {
        return Err(InitFailed);
      }
      r := AddMissionTo(db.missions, name, missionTime);
    }

    /** `startMission`: for a permitted active tab and an active mission,
        registers the tracker for every permitted host and marks the
        mission running from `now`. `registration` is the list of match
        patterns handed to the registration, when it is attempted. */
    method StartMission(connectOk: bool, tab: ActiveTab, registered: bool, now: int)
      returns (r: Result<bool, HandlerError>, registration: Option<seq<string>>)
      requires Valid()
      modifies Repr
      ensures Valid() && fresh(Repr - old(Repr))
      ensures old(db) == null && !connectOk ==> r == Err(InitFailed) && registration == None && db == null
      ensures old(db) != null || connectOk ==>
        StartMissionOutcome(old(Stored()), tab, registered, now, r, registration, Stored())
    {
      var ok := EnsureDatabase(connectOk);
      if !ok {
        return Err(InitFailed), None;
      }
      r, registration := StartMissionOn(db, tab, registered, now);
    }

    /** `endMission`: the active mission, if any, stops, is stamped with
        `now` and takes the recorded activities, which are then cleared.
        Answers `{}` whatever happened. */
    method EndMission(connectOk: bool, now: int) returns (r: Result<(), HandlerError>)
      requires Valid()
      modifies Repr
      ensures Valid() && fresh(Repr - old(Repr))
      ensures old(db) == null && !connectOk ==> r == Err(InitFailed) && db == null
      ensures old(db) != null || connectOk ==> r == Ok(()) && EndMissionOutcome(old(Stored()), now, Stored())
    {
      var ok := EnsureDatabase(connectOk);
      if !ok {
        return Err(InitFailed);
      }
      EndMissionOn(db, now);
      r := Ok(());
    }

    /** `getMissions`: every mission, in key order. */
    method GetMissions(connectOk: bool) returns (r: Result<seq<Mission>, HandlerError>)
      requires Valid()
      modifies Repr
      ensures Valid() && fresh(Repr - old(Repr)) && Stored() == old(Stored())
      ensures old(db) == null && !connectOk ==> r == Err(InitFailed) && db == null
      ensures old(db) != null || connectOk ==> r.Ok? && r.value == Rows(old(Stored()).missions)
    {
      var ok := EnsureDatabase(connectOk);
      if !ok {
        return Err(InitFailed);
      }
      r := Ok(db.missions.GetAll());
    }

    /** `getCurrentMission`: the active mission, or none. */
    method GetCurrentMission(connectOk: bool) returns (r: Result<Option<Mission>, HandlerError>)
      requires Valid()
      modifies Repr
      ensures Valid() && fresh(Repr - old(Repr)) && Stored() == old(Stored())
      ensures old(db) == null && !connectOk ==> r == Err(InitFailed) && db == null
      ensures old(db) != null || connectOk ==>
        var t := old(Stored()).missions;
        && r.Ok?
        && (r.value.None? <==> forall k :: k in t.records ==> !t.records[k].active)
        && (r.value.Some? ==> OnlyActive(t.records, r.value.value.id) && r.value.value == Row(r.value.value.id, t.records[r.value.value.id]))
    {
      var ok := EnsureDatabase(connectOk);
      if !ok {
        return Err(InitFailed);
      }
      var missions := db.missions.GetAll();
      FirstActiveIsOnlyActive(db.missions.Contents());
      r := Ok(FirstActive(missions));
    }
  }

  /** With `initialize` as written, a failed open leaves a handle behind,
      so the guard of the next request lets it through unconnected, even
      when opening would now succeed. */
  method FailedOpenLeavesStaleHandle() returns (h: EventHandler, first: bool, second: bool)
    ensures !first && second
    ensures h.db != null && !h.db.connected
  {
    h := new EventHandler();
    first := h.EnsureDatabaseAsWritten(false);
    second := h.EnsureDatabaseAsWritten(true);
  }

  /** With the handle kept only after a successful open, the next request
      after a failed open connects again. */
  method FailedOpenIsRetried() returns (h: EventHandler, first: Result<nat, HandlerError>, second: Result<nat, HandlerError>)
    ensures h.Valid() && h.db != null && h.db.connected
    ensures first == Err(InitFailed)
    ensures second == Ok(1) && h.Stored().permissions == Table(map[1 := PermissionFields("example.com")], 2)
  {
    h := new EventHandler();
    first := h.AddURLPermission(false, "example.com");
    second := h.AddURLPermission(true, "example.com");
  }
}
