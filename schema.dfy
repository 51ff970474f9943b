/** The `Database` class of src/serviceWorkerUtils/database.ts: the
    connection handle and the three object stores its upgrade creates. */
module Schema {
  import opened Store
  import opened Entities

  /** The contents of the three stores. */
  datatype Snapshot = Snapshot(
    permissions: Table<PermissionFields>,
    activites: Table<ActivityFields>,
    missions: Table<MissionFields>)

  /** The stores of a freshly created database. */
  const EmptyStore := Snapshot(Table(map[], 1), Table(map[], 1), Table(map[], 1))

  class Database {
    /** Whether `conncect` has assigned the IndexedDB handle. */
    var connected: bool
    /** "permissions": auto-increment "id", unique index "url". */
    const permissions: ObjectStore<PermissionFields>
    /** "activites" (the spelling is the store's name): auto-increment "id", no index. */
    const activites: ObjectStore<ActivityFields>
    /** "missions": auto-increment "id", unique index "name". */
    const missions: ObjectStore<MissionFields>

    ghost function Repr(): set<object>
      reads this
    {
      {this, permissions, activites, missions}
    }

    ghost predicate Valid()
      reads Repr()
    {
      && permissions.Valid() && activites.Valid() && missions.Valid()
      && permissions.index == UniqueIndex("url", PermissionUrl)
      && activites.index == NoIndex
      && missions.index == UniqueIndex("name", MissionName)
    }

    function Contents(): Snapshot
      reads Repr()
    {
      Snapshot(permissions.Contents(), activites.Contents(), missions.Contents())
    }

    /** A handle whose stores are as the first `upgradeneeded` creates them: empty. */
    constructor ()
      ensures Valid() && fresh(Repr()) && !connected
      ensures Contents() == EmptyStore
    {
      connected := false;
      permissions := new ObjectStore(UniqueIndex("url", PermissionUrl));
      activites := new ObjectStore(NoIndex);
      missions := new ObjectStore(UniqueIndex("name", MissionName));
    }

    /** `conncect()`: the open request either succeeds, assigning the handle,
        or fails and leaves it unassigned. Whether it succeeds is an input. */
    method Connect(succeeds: bool) returns (ok: bool)
      modifies this
      ensures connected == succeeds && ok == succeeds
      ensures Contents() == old(Contents())
    {
      connected := succeeds;
      ok := succeeds;
    }
  }

  /** The unique indexes of a valid database: no two missions share a
      name and no two permissions share a URL. */
  lemma NamesAndUrlsUnique(d: Database)
    requires d.Valid()
    ensures forall k1, k2 ::
      (k1 in d.missions.records && k2 in d.missions.records && d.missions.records[k1].name == d.missions.records[k2].name) ==> k1 == k2
    ensures forall k1, k2 ::
      (k1 in d.permissions.records && k2 in d.permissions.records && d.permissions.records[k1].url == d.permissions.records[k2].url) ==> k1 == k2
  {
    assert IndexUnique(d.missions.records, UniqueIndex("name", MissionName));
    assert IndexUnique(d.permissions.records, UniqueIndex("url", PermissionUrl));
  }
}
