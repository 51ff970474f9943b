/** One IndexedDB object store as the record store of
    src/serviceWorkerUtils/database.ts uses it: records under an
    auto-increment primary key ("id"), an optional unique index, and the
    operations behind `add`, `update` (put), `remove` (delete), `removeAll`
    (clear), `find` (get), `findIndex` (index get) and `getAll`.

    The key generator follows section 2.11 of the Indexed Database API 3.0:
    its current number starts at 1, a generated key is the current number,
    generation fails once the current number exceeds 2^53, storing a record
    under an explicit key at or above the current number moves it past that
    key, a failed request leaves it as it was, and clearing the store does
    not reset it. */
module Store {
  import opened Results

  /** 2^53: the key generator fails once its current number exceeds this. */
  const MaxGeneratedKey: nat := 9007199254740992

  datatype StoreError =
    | ConstraintError   // a generated key was not available, or a unique index would hold a key twice
    | NotFoundError     // the named index does not exist on the store

  /** A stored record together with its primary key (the "id" key path). */
  datatype Row<T> = Row(id: nat, value: T)

  /** The store's index: none, or a unique index with its name and key. */
  datatype UniqueIndex<!T> = NoIndex | UniqueIndex(name: string, keyOf: T -> string)

  /** The abstract contents of a store: its records and its key generator. */
  datatype Table<T> = Table(records: map<nat, T>, current: nat)

  predicate Ascending<T>(rows: seq<Row<T>>)
  {
    forall i, j :: 0 <= i < j < |rows| ==> rows[i].id < rows[j].id
  }

  /** The records with a key below `n`, in ascending key order. */
  function RowsBelow<T>(records: map<nat, T>, n: nat): (rows: seq<Row<T>>)
    ensures Ascending(rows)
    ensures forall r :: r in rows ==> r.id < n
    ensures forall r :: r in rows ==> r.id in records && records[r.id] == r.value
    ensures forall k :: k in records && k < n ==> Row(k, records[k]) in rows
    decreases n
  {
    if n == 0 then []
    else
      var earlier := RowsBelow(records, n - 1);
      if n - 1 in records then earlier + [Row(n - 1, records[n - 1])] else earlier
  }

  /** Every record of a table, in ascending key order. */
  function Rows<T>(t: Table<T>): seq<Row<T>>
  {
    RowsBelow(t.records, t.current)
  }

  /** The table after a record is added under the generated key. */
  function Added<T>(t: Table<T>, value: T): Table<T>
  {
    Table(t.records[t.current := value], t.current + 1)
  }

  /** The table after the record under `id` is replaced in place. */
  function Replaced<T>(t: Table<T>, id: nat, value: T): Table<T>
  {
    t.(records := t.records[id := value])
  }

  /** The table after the record under `id`, if any, is deleted. */
  function Removed<T>(t: Table<T>, id: nat): Table<T>
  {
    t.(records := t.records - {id})
  }

  /** The table after clearing: no records, the same key generator. */
  function Cleared<T>(t: Table<T>): Table<T>
  {
    t.(records := map[])
  }

  /** No two records share a key of the unique index. */
  ghost predicate IndexUnique<T>(records: map<nat, T>, index: UniqueIndex<T>)
  {
    index.UniqueIndex? ==>
      forall k1, k2 :: k1 in records && k2 in records && index.keyOf(records[k1]) == index.keyOf(records[k2]) ==> k1 == k2
  }

  ghost predicate WellFormed<T>(t: Table<T>, index: UniqueIndex<T>)
  {
    && 1 <= t.current
    && (forall k :: k in t.records ==> k < t.current)
    && IndexUnique(t.records, index)
  }

  /** Storing `value` under `id` would put a second record under one of the
      unique index's keys. */
  predicate Clashes<T>(records: map<nat, T>, index: UniqueIndex<T>, value: T, id: nat)
  {
    index.UniqueIndex? && exists k :: k in records && k != id && index.keyOf(records[k]) == index.keyOf(value)
  }

  /** The first row whose index key is `key`. */
  function FirstWithKey<T>(rows: seq<Row<T>>, keyOf: T -> string, key: string): (r: Option<Row<T>>)
    ensures r.Some? ==> r.value in rows && keyOf(r.value.value) == key
    ensures r.None? ==> forall row :: row in rows ==> keyOf(row.value) != key
  {
    if rows == [] then None
    else if keyOf(rows[0].value) == key then Some(rows[0])
    else FirstWithKey(rows[1..], keyOf, key)
  }

  class ObjectStore<T> {
    const index: UniqueIndex<T>
    var records: map<nat, T>
    var current: nat

    function Contents(): Table<T>
      reads this
    {
      Table(records, current)
    }

    ghost predicate Valid()
      reads this
    {
      WellFormed(Contents(), index)
    }

    /** The empty store created by the schema upgrade. */
    constructor (index: UniqueIndex<T>)
      ensures Valid() && this.index == index
      ensures records == map[] && current == 1
    {
      this.index := index;
      records := map[];
      current := 1;
    }

    /** `objectStore.add(data)`: stores the record under a freshly generated key. */
    method Add(value: T) returns (r: Result<nat, StoreError>)
      requires Valid()
      modifies this
      ensures Valid()
      ensures r.Ok? <==> old(current) <= MaxGeneratedKey && !old(Clashes(records, index, value, current))
      ensures r.Ok? ==> r.value == old(current) && r.value !in old(records)
      ensures r.Ok? ==> records == old(records)[r.value := value] && current == old(current) + 1
      ensures r.Err? ==> r == Err(ConstraintError) && records == old(records) && current == old(current)
    {
      if current > MaxGeneratedKey || Clashes(records, index, value, current) {
        return Err(ConstraintError);
      }
      r := Ok(current);
      records := records[current := value];
      current := current + 1;
    }

    /** `objectStore.put(data)`: stores the record under its own key,
        replacing any record already there. */
    method Put(row: Row<T>) returns (r: Result<(), StoreError>)
      requires Valid()
      modifies this
      ensures Valid()
      ensures r.Ok? <==> !old(Clashes(records, index, row.value, row.id))
      ensures r.Ok? ==> records == old(records)[row.id := row.value]
      ensures r.Ok? ==> current == if row.id >= old(current) then row.id + 1 else old(current)
      ensures r.Err? ==> r == Err(ConstraintError) && records == old(records) && current == old(current)
    {
      if Clashes(records, index, row.value, row.id) {
        return Err(ConstraintError);
      }
      records := records[row.id := row.value];
      if row.id >= current {
        current := row.id + 1;
      }
      r := Ok(());
    }

    /** `objectStore.delete(id)`: resolves with the key it was given,
        whether or not a record was stored under it. */
    method Delete(id: nat) returns (r: nat)
      requires Valid()
      modifies this
      ensures Valid()
      ensures r == id
      ensures records == old(records) - {id} && id !in records && current == old(current)
    {
      records := records - {id};
      r := id;
    }

    /** `objectStore.clear()`: removes every record; the key generator keeps counting. */
    method Clear()
      requires Valid()
      modifies this
      ensures Valid()
      ensures records == map[] && current == old(current)
    {
      records := map[];
    }

    /** `objectStore.get(id)`. */
    function Get(id: nat): (r: Option<T>)
      reads this
      ensures r.Some? <==> id in records
      ensures r.Some? ==> r.value == records[id]
    {
      if id in records then Some(records[id]) else None
    }

    /** `objectStore.getAll()`: every record, in ascending key order. */
    function GetAll(): (rows: seq<Row<T>>)
      reads this
      requires Valid()
      ensures Ascending(rows)
      ensures forall r :: r in rows ==> r.id in records && records[r.id] == r.value
      ensures forall k :: k in records ==> Row(k, records[k]) in rows
      ensures rows == Rows(Contents())
    {
      RowsBelow(records, current)
    }

    /** `objectStore.index(name).get(key)`: the record whose index key is
        `key`, which the unique index makes the only one; NotFoundError when
        the store has no index of that name. */
    function IndexGet(name: string, key: string): (r: Result<Option<Row<T>>, StoreError>)
      reads this
      requires Valid()
      ensures !(index.UniqueIndex? && index.name == name) ==> r == Err(NotFoundError)
      ensures index.UniqueIndex? && index.name == name ==> r.Ok?
      ensures r.Ok? ==> (r.value.Some? <==> exists k :: k in records && index.keyOf(records[k]) == key)
      ensures r.Ok? ==> forall k :: k in records && index.keyOf(records[k]) == key ==> r.value == Some(Row(k, records[k]))
    {
      if index.UniqueIndex? && index.name == name then Ok(FirstWithKey(GetAll(), index.keyOf, key))
      else Err(NotFoundError)
    }
  }

  /** A generated key is distinct from every key already in use. */
  lemma GeneratedKeyIsFresh<T>(t: Table<T>, index: UniqueIndex<T>)
    requires WellFormed(t, index)
    ensures t.current !in t.records
    ensures forall k :: k in t.records ==> k != t.current
  {
  }

  /** With a unique index, adding a second record under a key already in
      use fails. */
  lemma DuplicateKeyClashes<T>(t: Table<T>, index: UniqueIndex<T>, value: T, k: nat)
    requires WellFormed(t, index) && index.UniqueIndex?
    requires k in t.records && index.keyOf(t.records[k]) == index.keyOf(value)
    ensures Clashes(t.records, index, value, t.current)
  {
  }
}
