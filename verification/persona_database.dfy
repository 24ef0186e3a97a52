/**
 * The `personaBuilder` database: its four object stores, the upgrade step
 * `openDb` runs, and the single-store transactions the repository issues.
 */
module PersonaDatabase {
  import opened Wrappers
  import opened Records
  import opened ObjectStores

  const DbVersion: nat := 1

  const PersonasStore: string := "personas"
  const HistoryStore: string := "history"
  const SnapshotsStore: string := "pageSnapshots"
  const InsightsStore: string := "insights"

  const StoreNames: set<string> := {PersonasStore, HistoryStore, SnapshotsStore, InsightsStore}

  /** A database as IndexedDB keeps it: a version number and named object stores. */
  datatype Database = Database(version: nat, stores: map<string, ObjectStore>)

  /** The store the upgrade step creates under `name`: key path and indexes, no records. */
  function Definition(name: string): (st: ObjectStore)
    requires name in StoreNames
    ensures st.records == map[]
  {
    if name == PersonasStore then
      ObjectStore("id", map[], map[])
    else if name == HistoryStore then
      ObjectStore("id",
        map[
          "byPersona" := IndexDef(Single("personaId"), false),
          "byPersonaVisitedAt" := IndexDef(Compound(["personaId", "visitedAt"]), false),
          "byPersonaUrl" := IndexDef(Compound(["personaId", "url"]), false)],
        map[])
    else if name == SnapshotsStore then
      ObjectStore("historyId",
        map[
          "byHistory" := IndexDef(Single("historyId"), true),
          "byPersona" := IndexDef(Single("personaId"), false)],
        map[])
    else
      ObjectStore("id", map["byPersona" := IndexDef(Single("personaId"), false)], map[])
  }

  /** The kind of record each store holds. */
  predicate Holds(name: string, r: Record)
  {
    if name == PersonasStore then r.Persona?
    else if name == HistoryStore then r.History?
    else if name == SnapshotsStore then r.PageSnapshot?
    else if name == InsightsStore then r.Insight?
    else true
  }

  /** The `onupgradeneeded` handler: creates each of the four stores, with its
      indexes, only when no store of that name exists yet. */
  function Upgrade(stores: map<string, ObjectStore>): (r: map<string, ObjectStore>)
    ensures r.Keys == stores.Keys + StoreNames
    ensures forall n :: n in stores ==> r[n] == stores[n]
    ensures forall n :: n in r && n !in stores ==> n in StoreNames && r[n] == Definition(n)
  {
    map n | n in stores.Keys + StoreNames :: if n in stores then stores[n] else Definition(n)
  }

  /** Running the upgrade step again changes nothing. */
  lemma UpgradeIdempotent(stores: map<string, ObjectStore>)
    ensures Upgrade(Upgrade(stores)) == Upgrade(stores)
  {
  }

  /** On an empty database the upgrade creates exactly the four stores, keyed
      by `id`, `id`, `historyId` and `id`, each with its indexes and no records. */
  lemma UpgradeEmpty()
    ensures Upgrade(map[]).Keys == StoreNames
    ensures Upgrade(map[])[PersonasStore].keyPath == "id"
    ensures Upgrade(map[])[HistoryStore].keyPath == "id"
    ensures Upgrade(map[])[SnapshotsStore].keyPath == "historyId"
    ensures Upgrade(map[])[InsightsStore].keyPath == "id"
    ensures forall n :: n in StoreNames ==> Upgrade(map[])[n].records == map[]
    ensures Upgrade(map[])[PersonasStore].indexes == map[]
    ensures Upgrade(map[])[HistoryStore].indexes == map[
      "byPersona" := IndexDef(Single("personaId"), false),
      "byPersonaVisitedAt" := IndexDef(Compound(["personaId", "visitedAt"]), false),
      "byPersonaUrl" := IndexDef(Compound(["personaId", "url"]), false)]
    ensures Upgrade(map[])[SnapshotsStore].indexes == map[
      "byHistory" := IndexDef(Single("historyId"), true),
      "byPersona" := IndexDef(Single("personaId"), false)]
    ensures Upgrade(map[])[InsightsStore].indexes == map["byPersona" := IndexDef(Single("personaId"), false)]
  {
  }

  /** `openDb`: a cached handle is returned as it is; otherwise the stored
      database (none yet counts as version 0) is opened at `DbVersion`, running
      the upgrade when it is older and failing when it is newer. */
  function Open(cached: Option<Database>, stored: Option<Database>): (res: Result<Database, Error>)
    ensures cached.Some? ==> res == Ok(cached.value)
    ensures cached.None? && stored.Some? && stored.value.version > DbVersion ==> res == Err(VersionError)
    ensures cached.None? && res.Ok? ==> res.value.version == DbVersion
    ensures cached.None? && (stored.None? || stored.value.version < DbVersion) ==>
      && res.Ok?
      && res.value.stores.Keys >= StoreNames
      && (stored.Some? ==> forall n :: n in stored.value.stores ==> n in res.value.stores && res.value.stores[n] == stored.value.stores[n])
    ensures cached.None? && stored.Some? && stored.value.version == DbVersion ==> res == Ok(stored.value)
  {
    if cached.Some? then Ok(cached.value)
    else
      var current := if stored.Some? then stored.value else Database(0, map[]);
      if current.version > DbVersion then Err(VersionError)
      else if current.version < DbVersion then Ok(Database(DbVersion, Upgrade(current.stores)))
      else Ok(current)
  }

  /** The store named `name` has the upgrade step's key path and indexes, every
      record under its own key, and only the kind of record it is meant for. */
  predicate Conforms(db: Database, name: string)
    requires name in StoreNames
  {
    && name in db.stores
    && db.stores[name].keyPath == Definition(name).keyPath
    && db.stores[name].indexes == Definition(name).indexes
    && KeyConsistent(db.stores[name])
    && forall k :: k in db.stores[name].records ==> Holds(name, db.stores[name].records[k])
  }

  /** The invariant every repository operation keeps. */
  predicate Valid(db: Database)
  {
    && Conforms(db, PersonasStore)
    && Conforms(db, HistoryStore)
    && Conforms(db, SnapshotsStore)
    && Conforms(db, InsightsStore)
  }

  /** A database opened for the first time satisfies the invariant, with every store empty. */
  lemma OpenNewIsValid()
    ensures Open(None, None).Ok?
    ensures Valid(Open(None, None).value)
    ensures forall n :: n in StoreNames ==> Open(None, None).value.stores[n].records == map[]
  {
    UpgradeEmpty();
  }

  /** The database after `r` has been put into store `name` under key `k`:
      that entry holds `r`, and every other entry of every store is as before. */
  predicate Upserted(db: Database, db': Database, name: string, k: string, r: Record)
  {
    && db.version == db'.version
    && db'.stores.Keys == db.stores.Keys
    && name in db.stores
    && (forall n :: n in db.stores && n != name ==> db'.stores[n] == db.stores[n])
    && db'.stores[name].keyPath == db.stores[name].keyPath
    && db'.stores[name].indexes == db.stores[name].indexes
    && k in db'.stores[name].records && db'.stores[name].records[k] == r
    && db'.stores[name].records.Keys == db.stores[name].records.Keys + {k}
    && (forall other :: other in db.stores[name].records && other != k ==>
          db'.stores[name].records[other] == db.stores[name].records[other])
  }

  /** A read-write transaction on one store that puts one record. */
  function PutInto(db: Database, name: string, r: Record): (res: Result<Database, Error>)
    ensures name !in db.stores ==> res == Err(NotFoundError)
    ensures res.Ok? ==> name in db.stores && Field(r, db.stores[name].keyPath).Some?
    ensures res.Ok? ==> Upserted(db, res.value, name, Field(r, db.stores[name].keyPath).value, r)
    ensures name in db.stores && Field(r, db.stores[name].keyPath).None? ==> res == Err(DataError)
  {
    if name !in db.stores then Err(NotFoundError)
    else
      var st :- Put(db.stores[name], r);
      Ok(db.(stores := db.stores[name := st]))
  }

  /** A read-write transaction on one store that deletes one key. */
  function DeleteFrom(db: Database, name: string, k: string): (res: Result<Database, Error>)
    ensures name !in db.stores ==> res == Err(NotFoundError)
    ensures name in db.stores ==> res.Ok?
    ensures res.Ok? ==>
      && res.value.stores.Keys == db.stores.Keys
      && (forall n :: n in db.stores && n != name ==> res.value.stores[n] == db.stores[n])
      && k !in res.value.stores[name].records
      && res.value.stores[name].records.Keys == db.stores[name].records.Keys - {k}
      && (forall other :: other in res.value.stores[name].records ==>
            res.value.stores[name].records[other] == db.stores[name].records[other])
    ensures res.Ok? && k !in db.stores[name].records ==> res.value == db
    ensures Valid(db) && res.Ok? ==> Valid(res.value)
  {
    if name !in db.stores then Err(NotFoundError)
    else
      var st := Remove(db.stores[name], k);
      ReplaceStoreKeepsValid(db, name, st);
      Ok(db.(stores := db.stores[name := st]))
  }

  /** A read-only transaction on one store that runs `getAll`. */
  function Read(db: Database, name: string, src: Source, query: Option<Key>): (res: Result<seq<Record>, Error>)
    ensures name !in db.stores ==> res == Err(NotFoundError)
    ensures name in db.stores ==>
      var st := db.stores[name];
      && (res.Err? <==> src.ByIndex? && src.name !in st.indexes)
      && (res.Err? ==> res.error == NotFoundError)
      && (res.Ok? ==> forall x :: x in res.value <==> exists k :: Selected(st, src, query, k) && st.records[k] == x)
      && (res.Ok? && KeyConsistent(st) && (src.Objects? || query.Some?) ==> AscendingByKey(res.value, st.keyPath))
      && (res.Ok? && src.Objects? && query.None? ==> |res.value| == |st.records|)
  {
    if name !in db.stores then Err(NotFoundError)
    else GetAll(db.stores[name], src, query)
  }

  /** A put of a record of the right kind into one of the four stores keeps the
      invariant: in particular the unique `byHistory` index never rejects it,
      because its key path is the store's own key path. */
  lemma PutKeepsValid(db: Database, name: string, r: Record)
    requires Valid(db) && name in StoreNames && Holds(name, r)
    ensures PutInto(db, name, r).Ok?
    ensures Valid(PutInto(db, name, r).value)
  {
    var st := db.stores[name];
    var k := Field(r, st.keyPath).value;
    NoCollision(st, name, k, r);
    var st' := Put(st, r).value;
    ReplaceStoreKeepsValid(db, name, st');
  }

  /** Only the unique `byHistory` index could reject a put, and its key path is
      the store's own, so a record's index key is never another record's. */
  lemma NoCollision(st: ObjectStore, name: string, k: string, r: Record)
    requires name in StoreNames && KeyConsistent(st)
    requires st.keyPath == Definition(name).keyPath && st.indexes == Definition(name).indexes
    requires Field(r, st.keyPath) == Some(k)
    ensures !Collides(st, k, r)
  {
    forall n, other | n in st.indexes && other in st.records && st.indexes[n].unique && other != k
      ensures Evaluate(st.records[other], st.indexes[n].keyPath) != Evaluate(r, st.indexes[n].keyPath)
    {
      assert n == "byHistory" && st.indexes[n].keyPath == Single(st.keyPath);
      assert Field(st.records[other], st.keyPath) == Some(other);
    }
  }

  /** Replacing one store by one with the same key path and indexes, keys
      consistent and records of the right kind keeps the invariant. */
  lemma ReplaceStoreKeepsValid(db: Database, name: string, st: ObjectStore)
    requires name in db.stores
    ensures
      && Valid(db)
      && st.keyPath == db.stores[name].keyPath && st.indexes == db.stores[name].indexes
      && KeyConsistent(st)
      && (name in StoreNames ==> forall k :: k in st.records ==> Holds(name, st.records[k]))
      ==> Valid(db.(stores := db.stores[name := st]))
  {
  }

  /** The byPersona index of the history, snapshot and insight stores is exactly
      a filter on the `personaId` property. */
  lemma ByPersonaIsFilter(db: Database, name: string, p: string)
    requires Valid(db) && name in {HistoryStore, SnapshotsStore, InsightsStore}
    ensures Read(db, name, ByIndex("byPersona"), Some(Text(p))).Ok?
    ensures forall x :: x in Read(db, name, ByIndex("byPersona"), Some(Text(p))).value <==>
      x in db.stores[name].records.Values && Field(x, "personaId") == Some(p)
    ensures KeyConsistent(db.stores[name])
    ensures AscendingByKey(Read(db, name, ByIndex("byPersona"), Some(Text(p))).value, db.stores[name].keyPath)
  {
    IndexOnFieldIsFilter(db.stores[name], "byPersona", "personaId", p);
  }
}
