/**
 * The persona repository of the popup: adding personas, history entries,
 * page snapshots and insights, and listing personas by creation time.
 * `makeId()` and `new Date().toISOString()` are not modelled; their results
 * come in as the `freshId` and `now` parameters.
 */
module Repository {
  import opened Wrappers
  import opened Records
  import opened ObjectStores
  import opened PersonaDatabase
  import Strings

  /** A successful write: the new database and the record the operation returns. */
  datatype Written = Written(db: Database, record: Record)

  /** `addPersona(name)`: a persona with a fresh id and a creation stamp, put into `personas`. */
  function AddPersona(db: Database, name: string, freshId: string, now: string): (res: Result<Written, Error>)
    ensures PersonasStore !in db.stores ==> res == Err(NotFoundError)
    ensures res.Ok? ==>
      && res.value.record.Persona?
      && res.value.record.id == freshId && res.value.record.name == name && res.value.record.createdAt == now
    ensures Valid(db) ==>
      && res.Ok? && Valid(res.value.db)
      && Upserted(db, res.value.db, PersonasStore, freshId, res.value.record)
    ensures res.Ok? && PersonasTyped(db) ==> PersonasTyped(res.value.db)
  {
    var persona := Persona(freshId, name, now);
    PutKeepsValidIfValid(db, PersonasStore, persona);
    var db' :- PutInto(db, PersonasStore, persona);
    Ok(Written(db', persona))
  }

  // ---------------------------------------------------------------------------
  // Listing personas

  predicate AllPersonas(s: seq<Record>)
  {
    forall i :: 0 <= i < |s| ==> s[i].Persona?
  }

  /** What `listPersonas` needs of the store: it holds persona records only. */
  predicate PersonasTyped(db: Database)
  {
    PersonasStore in db.stores ==>
      forall k :: k in db.stores[PersonasStore].records ==> db.stores[PersonasStore].records[k].Persona?
  }

  predicate SortedByCreatedAt(s: seq<Record>)
    requires AllPersonas(s)
  {
    forall i, j :: 0 <= i < j < |s| ==> Strings.LessEq(s[i].createdAt, s[j].createdAt)
  }

  /** Personas with equal creation stamps appear in increasing id order. */
  predicate TiesById(s: seq<Record>)
    requires AllPersonas(s)
  {
    forall i, j :: 0 <= i < j < |s| && s[i].createdAt == s[j].createdAt ==> Strings.Less(s[i].id, s[j].id)
  }

  predicate IdsAscending(s: seq<Record>)
    requires AllPersonas(s)
  {
    forall i, j :: 0 <= i < j < |s| ==> Strings.Less(s[i].id, s[j].id)
  }

  /** Places `x` before the first element whose creation stamp is not earlier
      than its own; `x` precedes every element of `s` in the input, so this is
      a stable insertion. */
  function InsertByCreatedAt(x: Record, s: seq<Record>): (r: seq<Record>)
    requires x.Persona? && AllPersonas(s)
    ensures AllPersonas(r)
    ensures multiset(r) == multiset(s) + multiset{x}
  {
    if s == [] then [x]
    else if Strings.LessEq(x.createdAt, s[0].createdAt) then [x] + s
    else
      assert s == [s[0]] + s[1..];
      [s[0]] + InsertByCreatedAt(x, s[1..])
  }

  /** `Array.prototype.sort` with `(a, b) => a.createdAt.localeCompare(b.createdAt)`:
      a stable sort by creation stamp. */
  function SortByCreatedAt(s: seq<Record>): (r: seq<Record>)
    requires AllPersonas(s)
    ensures AllPersonas(r)
    ensures multiset(r) == multiset(s)
  {
    if s == [] then []
    else
      assert s == [s[0]] + s[1..];
      InsertByCreatedAt(s[0], SortByCreatedAt(s[1..]))
  }

  /** `y` may go in front of a sorted list whose stamps are all no earlier than its own. */
  lemma PrependSorted(y: Record, r: seq<Record>)
    requires y.Persona? && AllPersonas(r) && SortedByCreatedAt(r)
    requires forall j :: 0 <= j < |r| ==> Strings.LessEq(y.createdAt, r[j].createdAt)
    ensures SortedByCreatedAt([y] + r)
  {
    var yr := [y] + r;
    forall i, j | 0 <= i < j < |yr|
      ensures Strings.LessEq(yr[i].createdAt, yr[j].createdAt)
    {
      if i > 0 {
        assert yr[i] == r[i - 1] && yr[j] == r[j - 1];
      }
    }
  }

  /** `y` may go in front of a list without breaking id order among equal
      stamps when no element with its stamp has a smaller id. */
  lemma PrependTies(y: Record, r: seq<Record>)
    requires y.Persona? && AllPersonas(r) && TiesById(r)
    requires forall j :: 0 <= j < |r| && y.createdAt == r[j].createdAt ==> Strings.Less(y.id, r[j].id)
    ensures TiesById([y] + r)
  {
    var yr := [y] + r;
    forall i, j | 0 <= i < j < |yr| && yr[i].createdAt == yr[j].createdAt
      ensures Strings.Less(yr[i].id, yr[j].id)
    {
      if i > 0 {
        assert yr[i] == r[i - 1] && yr[j] == r[j - 1];
      }
    }
  }

  /** Every element of the insertion result is `x` or an element of `s`. */
  lemma InsertedFrom(x: Record, s: seq<Record>, j: nat)
    requires x.Persona? && AllPersonas(s) && j < |InsertByCreatedAt(x, s)|
    ensures InsertByCreatedAt(x, s)[j] == x || exists m :: 0 <= m < |s| && s[m] == InsertByCreatedAt(x, s)[j]
  {
    var r := InsertByCreatedAt(x, s);
    assert r[j] in multiset(r);
    if r[j] != x {
      assert r[j] in multiset(s);
    }
  }

  lemma {:induction false} InsertKeepsSorted(x: Record, s: seq<Record>)
    requires x.Persona? && AllPersonas(s) && SortedByCreatedAt(s)
    ensures SortedByCreatedAt(InsertByCreatedAt(x, s))
  {
    if s == [] {
    } else if Strings.LessEq(x.createdAt, s[0].createdAt) {
      forall j | 0 <= j < |s|
        ensures Strings.LessEq(x.createdAt, s[j].createdAt)
      {
        if j > 0 {
          Strings.LessEqTransitive(x.createdAt, s[0].createdAt, s[j].createdAt);
        }
      }
      PrependSorted(x, s);
    } else {
      Strings.LessEqTotal(x.createdAt, s[0].createdAt);
      InsertKeepsSorted(x, s[1..]);
      var rest := InsertByCreatedAt(x, s[1..]);
      forall j | 0 <= j < |rest|
        ensures Strings.LessEq(s[0].createdAt, rest[j].createdAt)
      {
        InsertedFrom(x, s[1..], j);
        if rest[j] != x {
          var m :| 0 <= m < |s[1..]| && s[1..][m] == rest[j];
          assert s[m + 1] == rest[j];
        }
      }
      PrependSorted(s[0], rest);
    }
  }

  /** The sort orders by creation stamp. */
  lemma {:induction false} SortIsSorted(s: seq<Record>)
    requires AllPersonas(s)
    ensures SortedByCreatedAt(SortByCreatedAt(s))
  {
    if s != [] {
      SortIsSorted(s[1..]);
      InsertKeepsSorted(s[0], SortByCreatedAt(s[1..]));
    }
  }

  lemma {:induction false} InsertKeepsTies(x: Record, s: seq<Record>)
    requires x.Persona? && AllPersonas(s) && SortedByCreatedAt(s) && TiesById(s)
    requires forall i :: 0 <= i < |s| ==> Strings.Less(x.id, s[i].id)
    ensures TiesById(InsertByCreatedAt(x, s))
  {
    if s == [] {
    } else if Strings.LessEq(x.createdAt, s[0].createdAt) {
      PrependTies(x, s);
    } else {
      InsertKeepsTies(x, s[1..]);
      var rest := InsertByCreatedAt(x, s[1..]);
      forall j | 0 <= j < |rest| && s[0].createdAt == rest[j].createdAt
        ensures Strings.Less(s[0].id, rest[j].id)
      {
        InsertedFrom(x, s[1..], j);
        if rest[j] == x {
          Strings.LessEqReflexive(x.createdAt);
        } else {
          var m :| 0 <= m < |s[1..]| && s[1..][m] == rest[j];
          assert s[m + 1] == rest[j];
        }
      }
      PrependTies(s[0], rest);
    }
  }

  /** When the input is in id order, as a store read returns it, personas with
      the same creation stamp keep that order. */
  lemma {:induction false} SortKeepsTies(s: seq<Record>)
    requires AllPersonas(s) && IdsAscending(s)
    ensures TiesById(SortByCreatedAt(s))
  {
    if s != [] {
      SortKeepsTies(s[1..]);
      SortIsSorted(s[1..]);
      var sorted := SortByCreatedAt(s[1..]);
      forall i | 0 <= i < |sorted|
        ensures Strings.Less(s[0].id, sorted[i].id)
      {
        assert sorted[i] in multiset(s[1..]);
        var m :| 0 <= m < |s[1..]| && s[1..][m] == sorted[i];
        assert s[m + 1] == sorted[i];
      }
      InsertKeepsTies(s[0], sorted);
    }
  }

  /** `listPersonas()`: every stored persona once, ordered by creation stamp. */
  function ListPersonas(db: Database): (res: Result<seq<Record>, Error>)
    requires PersonasTyped(db)
    ensures PersonasStore !in db.stores <==> res.Err?
    ensures res.Err? ==> res.error == NotFoundError
    ensures res.Ok? ==> AllPersonas(res.value)
    ensures res.Ok? ==> forall p :: p in res.value <==> p in db.stores[PersonasStore].records.Values
    ensures res.Ok? ==> |res.value| == |db.stores[PersonasStore].records|
    ensures res.Ok? ==> SortedByCreatedAt(res.value)
    ensures res.Ok? && KeyConsistent(db.stores[PersonasStore]) && db.stores[PersonasStore].keyPath == "id" ==>
      TiesById(res.value)
    ensures res.Ok? && KeyConsistent(db.stores[PersonasStore]) ==> NoDuplicates(res.value)
  {
    var all :- Read(db, PersonasStore, Objects, None);
    ReadPersonas(db, all);
    ReadNoDuplicates(db, all);
    SortIsSorted(all);
    SortKeepsTiesIfKeyed(db, all);
    var sorted := SortByCreatedAt(all);
    assert forall p :: p in sorted <==> p in multiset(all);
    Ok(sorted)
  }

  lemma ReadPersonas(db: Database, all: seq<Record>)
    requires PersonasTyped(db) && PersonasStore in db.stores
    requires Read(db, PersonasStore, Objects, None) == Ok(all)
    ensures AllPersonas(all)
    ensures forall p :: p in all <==> p in db.stores[PersonasStore].records.Values
    ensures |all| == |db.stores[PersonasStore].records|
  {
    var st := db.stores[PersonasStore];
    forall i | 0 <= i < |all|
      ensures all[i].Persona?
    {
      assert all[i] in all;
    }
    forall p | p in all
      ensures p in st.records.Values
    {
      var k :| Selected(st, Objects, None, k) && st.records[k] == p;
    }
  }

  /** No record appears twice. */
  predicate NoDuplicates(s: seq<Record>)
  {
    forall i, j :: 0 <= i < j < |s| ==> s[i] != s[j]
  }

  /** A list has no duplicates exactly when each of its elements occurs once in its multiset. */
  lemma {:induction false} NoDuplicatesCount(s: seq<Record>)
    ensures NoDuplicates(s) <==> forall x :: x in s ==> multiset(s)[x] == 1
  {
    if s != [] {
      var h, t := s[0], s[1..];
      assert s == [h] + t;
      NoDuplicatesCount(t);
      if NoDuplicates(s) {
        assert h !in t by {
          forall j | 0 <= j < |t|
            ensures t[j] != h
          {
            assert s[j + 1] == t[j];
          }
        }
        assert NoDuplicates(t) by {
          forall i, j | 0 <= i < j < |t|
            ensures t[i] != t[j]
          {
            assert s[i + 1] == t[i] && s[j + 1] == t[j];
          }
        }
      }
      if forall x :: x in s ==> multiset(s)[x] == 1 {
        assert multiset(s)[h] == 1;
        assert h !in t;
        forall x | x in t
          ensures multiset(t)[x] == 1
        {
          assert x in s && multiset(s)[x] == multiset(t)[x];
        }
        forall i, j | 0 <= i < j < |s|
          ensures s[i] != s[j]
        {
          assert s[j] == t[j - 1] && s[j] in t;
          if i > 0 {
            assert s[i] == t[i - 1];
          }
        }
      }
    }
  }

  /** Sorting neither adds nor loses copies, so a list without duplicates stays one. */
  lemma SortKeepsNoDuplicates(s: seq<Record>)
    requires AllPersonas(s) && NoDuplicates(s)
    ensures NoDuplicates(SortByCreatedAt(s))
  {
    var r := SortByCreatedAt(s);
    NoDuplicatesCount(s);
    NoDuplicatesCount(r);
    forall x | x in r
      ensures multiset(r)[x] == 1
    {
      assert x in multiset(s);
    }
  }

  /** A store read on a store whose keys match its records lists no record twice. */
  lemma ReadNoDuplicates(db: Database, all: seq<Record>)
    requires PersonasStore in db.stores && AllPersonas(all)
    requires Read(db, PersonasStore, Objects, None) == Ok(all)
    ensures KeyConsistent(db.stores[PersonasStore]) ==> NoDuplicates(SortByCreatedAt(all))
  {
    var st := db.stores[PersonasStore];
    if KeyConsistent(st) {
      assert AscendingByKey(all, st.keyPath);
      forall i, j | 0 <= i < j < |all|
        ensures all[i] != all[j]
      {
        assert Strings.Less(Field(all[i], st.keyPath).value, Field(all[j], st.keyPath).value);
      }
      SortKeepsNoDuplicates(all);
    }
  }

  lemma SortKeepsTiesIfKeyed(db: Database, all: seq<Record>)
    requires PersonasStore in db.stores && AllPersonas(all)
    requires Read(db, PersonasStore, Objects, None) == Ok(all)
    ensures KeyConsistent(db.stores[PersonasStore]) && db.stores[PersonasStore].keyPath == "id" ==>
      TiesById(SortByCreatedAt(all))
  {
    if KeyConsistent(db.stores[PersonasStore]) && db.stores[PersonasStore].keyPath == "id" {
      assert AscendingByKey(all, "id");
      assert forall i :: 0 <= i < |all| ==> Field(all[i], "id") == Some(all[i].id);
      SortKeepsTies(all);
    }
  }

  // ---------------------------------------------------------------------------
  // History entries, page snapshots and insights

  /** The history entry a caller hands in: `id` may be missing or empty, and a
      `personaId` it carries is ignored. */
  datatype HistoryDraft = HistoryDraft(
    id: Option<string>, personaId: Option<string>,
    url: string, title: string, description: string, visitedAt: string)

  /** The insight a caller hands in, with the same optional `id` and `personaId`. */
  datatype InsightDraft = InsightDraft(
    id: Option<string>, personaId: Option<string>,
    kind: string, content: string, createdAt: string)

  /** `supplied || makeId()`: a missing or empty id is replaced by the fresh one. */
  function ChooseId(supplied: Option<string>, freshId: string): string
  {
    if supplied.Some? && supplied.value != "" then supplied.value else freshId
  }

  /** `addHistoryEntry(personaId, history)`. */
  function AddHistoryEntry(db: Database, personaId: string, draft: HistoryDraft, freshId: string): (res: Result<Written, Error>)
    ensures HistoryStore !in db.stores ==> res == Err(NotFoundError)
    ensures res.Ok? ==>
      var r := res.value.record;
      && r.History?
      && r.personaId == personaId
      && (draft.id.Some? && draft.id.value != "" ==> r.id == draft.id.value)
      && (draft.id.None? || draft.id.value == "" ==> r.id == freshId)
      && r.url == draft.url && r.title == draft.title
      && r.description == draft.description && r.visitedAt == draft.visitedAt
    ensures Valid(db) ==>
      && res.Ok? && Valid(res.value.db)
      && Upserted(db, res.value.db, HistoryStore, res.value.record.id, res.value.record)
  {
    var record := History(ChooseId(draft.id, freshId), personaId, draft.url, draft.title, draft.description, draft.visitedAt);
    PutKeepsValidIfValid(db, HistoryStore, record);
    var db' :- PutInto(db, HistoryStore, record);
    Ok(Written(db', record))
  }

  /** `addInsight(personaId, insight)`. */
  function AddInsight(db: Database, personaId: string, draft: InsightDraft, freshId: string): (res: Result<Written, Error>)
    ensures InsightsStore !in db.stores ==> res == Err(NotFoundError)
    ensures res.Ok? ==>
      var r := res.value.record;
      && r.Insight?
      && r.personaId == personaId
      && (draft.id.Some? && draft.id.value != "" ==> r.id == draft.id.value)
      && (draft.id.None? || draft.id.value == "" ==> r.id == freshId)
      && r.kind == draft.kind && r.content == draft.content && r.createdAt == draft.createdAt
    ensures Valid(db) ==>
      && res.Ok? && Valid(res.value.db)
      && Upserted(db, res.value.db, InsightsStore, res.value.record.id, res.value.record)
  {
    var record := Insight(ChooseId(draft.id, freshId), personaId, draft.kind, draft.content, draft.createdAt);
    PutKeepsValidIfValid(db, InsightsStore, record);
    var db' :- PutInto(db, InsightsStore, record);
    Ok(Written(db', record))
  }

  /** `addPageSnapshot(snapshot)`: an upsert keyed by `historyId`. Anything
      without a `historyId` is refused as IndexedDB refuses it. */
  function AddPageSnapshot(db: Database, snapshot: Record): (res: Result<Database, Error>)
    ensures SnapshotsStore !in db.stores ==> res == Err(NotFoundError)
    ensures Valid(db) && !snapshot.PageSnapshot? ==> res == Err(DataError)
    ensures Valid(db) && snapshot.PageSnapshot? ==>
      && res.Ok? && Valid(res.value)
      && Upserted(db, res.value, SnapshotsStore, snapshot.historyId, snapshot)
  {
    PutKeepsValidIfValid(db, SnapshotsStore, snapshot);
    PutInto(db, SnapshotsStore, snapshot)
  }

  lemma PutKeepsValidIfValid(db: Database, name: string, r: Record)
    requires name in StoreNames
    ensures Valid(db) && Holds(name, r) ==> PutInto(db, name, r).Ok? && Valid(PutInto(db, name, r).value)
  {
    if Valid(db) && Holds(name, r) {
      PutKeepsValid(db, name, r);
    }
  }

  // ---------------------------------------------------------------------------
  // Properties relating several operations

  /** Two snapshots for the same history entry leave one record under that
      key, holding the second; no other snapshot carries that history id. */
  lemma SnapshotOverwrites(db: Database, first: Record, second: Record)
    requires Valid(db) && first.PageSnapshot? && second.PageSnapshot? && first.historyId == second.historyId
    ensures AddPageSnapshot(db, first).Ok?
    ensures AddPageSnapshot(AddPageSnapshot(db, first).value, second).Ok?
    ensures
      var db2 := AddPageSnapshot(AddPageSnapshot(db, first).value, second).value;
      var h := second.historyId;
      && Valid(db2)
      && db2.stores[SnapshotsStore].records[h] == second
      && db2.stores[SnapshotsStore].records.Keys == db.stores[SnapshotsStore].records.Keys + {h}
      && (forall k :: k in db2.stores[SnapshotsStore].records && db2.stores[SnapshotsStore].records[k].historyId == h ==> k == h)
  {
    var db1 := AddPageSnapshot(db, first).value;
    var db2 := AddPageSnapshot(db1, second).value;
    var recs := db2.stores[SnapshotsStore].records;
    forall k | k in recs && recs[k].historyId == second.historyId
      ensures k == second.historyId
    {
      assert Field(recs[k], "historyId") == Some(k);
    }
  }

  /** A history entry just added is found by the byPersona index under its persona. */
  lemma HistoryEntryFoundByPersona(db: Database, personaId: string, draft: HistoryDraft, freshId: string)
    requires Valid(db)
    ensures AddHistoryEntry(db, personaId, draft, freshId).Ok?
    ensures
      var w := AddHistoryEntry(db, personaId, draft, freshId).value;
      && Read(w.db, HistoryStore, ByIndex("byPersona"), Some(Text(personaId))).Ok?
      && w.record in Read(w.db, HistoryStore, ByIndex("byPersona"), Some(Text(personaId))).value
  {
    var w := AddHistoryEntry(db, personaId, draft, freshId).value;
    assert Valid(w.db) && Upserted(db, w.db, HistoryStore, w.record.id, w.record);
    var records := w.db.stores[HistoryStore].records;
    assert w.record.id in records && records[w.record.id] == w.record;
    assert w.record in records.Values;
    assert Field(w.record, "personaId") == Some(personaId);
    ByPersonaIsFilter(w.db, HistoryStore, personaId);
  }

  /** An insight just added is found by the byPersona index under its persona. */
  lemma InsightFoundByPersona(db: Database, personaId: string, draft: InsightDraft, freshId: string)
    requires Valid(db)
    ensures AddInsight(db, personaId, draft, freshId).Ok?
    ensures
      var w := AddInsight(db, personaId, draft, freshId).value;
      && Read(w.db, InsightsStore, ByIndex("byPersona"), Some(Text(personaId))).Ok?
      && w.record in Read(w.db, InsightsStore, ByIndex("byPersona"), Some(Text(personaId))).value
  {
    var w := AddInsight(db, personaId, draft, freshId).value;
    assert Valid(w.db) && Upserted(db, w.db, InsightsStore, w.record.id, w.record);
    var records := w.db.stores[InsightsStore].records;
    assert w.record.id in records && records[w.record.id] == w.record;
    assert w.record in records.Values;
    assert Field(w.record, "personaId") == Some(personaId);
    ByPersonaIsFilter(w.db, InsightsStore, personaId);
  }

  /** With a fresh id, adding a persona makes the listing one longer and puts
      the new persona in it; every persona listed before is still listed. */
  lemma AddPersonaThenList(db: Database, name: string, freshId: string, now: string)
    requires Valid(db) && freshId !in db.stores[PersonasStore].records
    ensures AddPersona(db, name, freshId, now).Ok?
    ensures
      var w := AddPersona(db, name, freshId, now).value;
      && ListPersonas(db).Ok? && ListPersonas(w.db).Ok?
      && |ListPersonas(w.db).value| == |ListPersonas(db).value| + 1
      && w.record in ListPersonas(w.db).value
      && (forall p :: p in ListPersonas(db).value ==> p in ListPersonas(w.db).value)
  {
    var w := AddPersona(db, name, freshId, now).value;
    var before := db.stores[PersonasStore].records;
    var after := w.db.stores[PersonasStore].records;
    assert after.Keys == before.Keys + {freshId};
    assert w.record in after.Values;
    forall p | p in before.Values
      ensures p in after.Values
    {
      var k :| k in before && before[k] == p;
      assert after[k] == p;
    }
  }
}
