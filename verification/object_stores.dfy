/**
 * One IndexedDB object store with an inline key path and secondary indexes,
 * and the three primitives the popup uses on it: `put`, `delete` and `getAll`.
 */
module ObjectStores {
  import opened Wrappers
  import opened Records
  import Strings

  /** The IndexedDB failures these primitives can raise. */
  datatype Error = NotFoundError | DataError | ConstraintError | VersionError

  datatype IndexDef = IndexDef(keyPath: KeyPath, unique: bool)

  /** An object store: the property holding each record's primary key, the
      indexes by name, and the records by primary key. */
  datatype ObjectStore = ObjectStore(keyPath: string, indexes: map<string, IndexDef>, records: map<string, Record>)

  /** Every record sits under the key its own key-path property holds. */
  predicate KeyConsistent(st: ObjectStore)
  {
    forall k :: k in st.records ==> Field(st.records[k], st.keyPath) == Some(k)
  }

  /** Storing `r` under `k` would give some unique index a second record with `r`'s index key. */
  predicate Collides(st: ObjectStore, k: string, r: Record)
  {
    exists n, other ::
      && n in st.indexes && other in st.records
      && st.indexes[n].unique && other != k
      && Evaluate(r, st.indexes[n].keyPath).Some?
      && Evaluate(st.records[other], st.indexes[n].keyPath) == Evaluate(r, st.indexes[n].keyPath)
  }

  /** `store.put(value)`: an upsert under the value's own primary key. */
  function Put(st: ObjectStore, r: Record): (res: Result<ObjectStore, Error>)
    ensures Field(r, st.keyPath).None? ==> res == Err(DataError)
    ensures Field(r, st.keyPath).Some? ==>
      (res.Err? <==> Collides(st, Field(r, st.keyPath).value, r)) && (res.Err? ==> res.error == ConstraintError)
    ensures res.Ok? ==>
      var k := Field(r, st.keyPath).value;
      && res.value.keyPath == st.keyPath && res.value.indexes == st.indexes
      && k in res.value.records && res.value.records[k] == r
      && res.value.records.Keys == st.records.Keys + {k}
      && (forall other :: other in st.records && other != k ==> res.value.records[other] == st.records[other])
      && (KeyConsistent(st) ==> KeyConsistent(res.value))
  {
    match Field(r, st.keyPath)
    case None => Err(DataError)
    case Some(k) =>
      if Collides(st, k, r) then Err(ConstraintError)
      else Ok(st.(records := st.records[k := r]))
  }

  /** `store.delete(key)`: removes the record under `k`, if there is one. */
  function Remove(st: ObjectStore, k: string): (res: ObjectStore)
    ensures k !in res.records
    ensures res.records.Keys == st.records.Keys - {k}
    ensures forall other :: other in res.records ==> res.records[other] == st.records[other]
    ensures res.keyPath == st.keyPath && res.indexes == st.indexes
    ensures k !in st.records ==> res == st
    ensures KeyConsistent(st) ==> KeyConsistent(res)
  {
    st.(records := st.records - {k})
  }

  /** What `getAll` reads from: the store itself or one of its indexes. */
  datatype Source = Objects | ByIndex(name: string)

  /** The record under `k` is part of `getAll(query)` on `src`. A store matches
      its primary key; an index matches the key its key path yields, and leaves
      out records that yield none. */
  predicate Selected(st: ObjectStore, src: Source, query: Option<Key>, k: string)
  {
    && k in st.records
    && match src
       case Objects => query.None? || query == Some(Text(k))
       case ByIndex(n) =>
         && n in st.indexes
         && var ik := Evaluate(st.records[k], st.indexes[n].keyPath);
         && ik.Some?
         && (query.None? || query == ik)
  }

  predicate StrictlyAscending(ks: seq<string>)
  {
    forall i, j :: 0 <= i < j < |ks| ==> Strings.Less(ks[i], ks[j])
  }

  /** Records listed in strictly increasing order of the key-path property. */
  predicate AscendingByKey(rs: seq<Record>, keyPath: string)
  {
    && (forall i :: 0 <= i < |rs| ==> Field(rs[i], keyPath).Some?)
    && (forall i, j :: 0 <= i < j < |rs| ==> Strings.Less(Field(rs[i], keyPath).value, Field(rs[j], keyPath).value))
  }

  predicate IsLeast(m: string, ks: set<string>)
  {
    m in ks && forall k :: k in ks ==> Strings.LessEq(m, k)
  }

  lemma {:induction false} LeastExists(ks: set<string>)
    requires ks != {}
    ensures exists m :: IsLeast(m, ks)
    decreases |ks|
  {
    var x :| x in ks;
    Strings.LessEqReflexive(x);
    if ks == {x} {
      assert IsLeast(x, ks);
    } else {
      LeastExists(ks - {x});
      var m :| IsLeast(m, ks - {x});
      Strings.LessEqTotal(m, x);
      if Strings.LessEq(m, x) {
        assert IsLeast(m, ks);
      } else {
        forall k | k in ks
          ensures Strings.LessEq(x, k)
        {
          if k != x {
            Strings.LessEqTransitive(x, m, k);
          }
        }
        assert IsLeast(x, ks);
      }
    }
  }

  lemma LeastUnique(ks: set<string>)
    ensures forall a, b :: IsLeast(a, ks) && IsLeast(b, ks) ==> a == b
  {
    forall a, b | IsLeast(a, ks) && IsLeast(b, ks)
      ensures a == b
    {
      Strings.LessEqAntisymmetric(a, b);
    }
  }

  /** Putting a key before a strictly ascending list of strictly larger keys keeps it ascending. */
  lemma PrependStaysAscending(m: string, rest: seq<string>, larger: set<string>)
    requires StrictlyAscending(rest)
    requires forall k :: k in rest ==> k in larger
    requires forall k :: k in larger ==> Strings.LessEq(m, k)
    requires m !in larger
    ensures StrictlyAscending([m] + rest)
  {
    var r := [m] + rest;
    forall i, j | 0 <= i < j < |r|
      ensures Strings.Less(r[i], r[j])
    {
      if i == 0 {
        assert r[j] == rest[j - 1] && rest[j - 1] in larger;
      } else {
        assert r[i] == rest[i - 1] && r[j] == rest[j - 1];
      }
    }
  }

  /** Anything ascending drawn from the tail of an ascending list may follow its head. */
  lemma SublistOfTailAscending(ks: seq<string>, rest: seq<string>)
    requires |ks| > 0
    requires forall k :: k in rest ==> k in ks[1..]
    ensures StrictlyAscending(ks) && StrictlyAscending(rest) ==> StrictlyAscending([ks[0]] + rest)
  {
    if StrictlyAscending(ks) && StrictlyAscending(rest) {
      SublistOfTailAscendingCase(ks, rest);
    }
  }

  lemma SublistOfTailAscendingCase(ks: seq<string>, rest: seq<string>)
    requires |ks| > 0 && StrictlyAscending(ks) && StrictlyAscending(rest)
    requires forall k :: k in rest ==> k in ks[1..]
    ensures StrictlyAscending([ks[0]] + rest)
  {
    forall k | k in rest
      ensures Strings.LessEq(ks[0], k)
    {
      var i :| 0 <= i < |ks[1..]| && ks[1..][i] == k;
      assert ks[i + 1] == k;
    }
    forall k | k in rest
      ensures k != ks[0]
    {
      var i :| 0 <= i < |ks[1..]| && ks[1..][i] == k;
      assert ks[i + 1] == k && Strings.Less(ks[0], ks[i + 1]);
    }
    PrependStaysAscending(ks[0], rest, set k | k in rest);
  }

  /** The keys of a store in IndexedDB key order (ascending). */
  function KeysInOrder(ks: set<string>): (r: seq<string>)
    ensures |r| == |ks|
    ensures forall k :: k in r <==> k in ks
    ensures StrictlyAscending(r)
    decreases |ks|
  {
    if ks == {} then []
    else
      LeastExists(ks);
      LeastUnique(ks);
      var m :| m in ks && IsLeast(m, ks);
      var rest := KeysInOrder(ks - {m});
      PrependStaysAscending(m, rest, ks - {m});
      [m] + rest
  }

  /** The keys of `ks`, in order, whose records `getAll(query)` on `src` returns. */
  function SelectKeys(st: ObjectStore, src: Source, query: Option<Key>, ks: seq<string>): (r: seq<string>)
    ensures forall k :: k in r <==> k in ks && Selected(st, src, query, k)
    ensures StrictlyAscending(ks) ==> StrictlyAscending(r)
    ensures |r| <= |ks|
    ensures (forall i :: 0 <= i < |ks| ==> Selected(st, src, query, ks[i])) ==> r == ks
  {
    if ks == [] then []
    else
      var rest := SelectKeys(st, src, query, ks[1..]);
      var r := if Selected(st, src, query, ks[0]) then [ks[0]] + rest else rest;
      SelectKeysStep(st, src, query, ks, rest, r);
      r
  }

  /** One step of `SelectKeys`: what holds of the selection from the tail carries over to `ks`. */
  lemma SelectKeysStep(st: ObjectStore, src: Source, query: Option<Key>, ks: seq<string>, rest: seq<string>, r: seq<string>)
    requires |ks| > 0
    requires forall k :: k in rest <==> k in ks[1..] && Selected(st, src, query, k)
    requires StrictlyAscending(ks[1..]) ==> StrictlyAscending(rest)
    requires |rest| <= |ks| - 1
    requires (forall i :: 0 <= i < |ks| - 1 ==> Selected(st, src, query, ks[1..][i])) ==> rest == ks[1..]
    requires r == if Selected(st, src, query, ks[0]) then [ks[0]] + rest else rest
    ensures forall k :: k in r <==> k in ks && Selected(st, src, query, k)
    ensures StrictlyAscending(ks) ==> StrictlyAscending(r)
    ensures |r| <= |ks|
    ensures (forall i :: 0 <= i < |ks| ==> Selected(st, src, query, ks[i])) ==> r == ks
  {
    assert ks == [ks[0]] + ks[1..];
    if StrictlyAscending(ks) {
      assert StrictlyAscending(ks[1..]) by {
        forall i, j | 0 <= i < j < |ks[1..]|
          ensures Strings.Less(ks[1..][i], ks[1..][j])
        {
          assert ks[1..][i] == ks[i + 1] && ks[1..][j] == ks[j + 1];
        }
      }
      SublistOfTailAscending(ks, rest);
    }
    if forall i :: 0 <= i < |ks| ==> Selected(st, src, query, ks[i]) {
      assert Selected(st, src, query, ks[0]);
      assert forall i :: 0 <= i < |ks| - 1 ==> ks[1..][i] == ks[i + 1];
    }
  }

  function RecordsAt(st: ObjectStore, ks: seq<string>): (rs: seq<Record>)
    requires forall i :: 0 <= i < |ks| ==> ks[i] in st.records
    ensures |rs| == |ks| && forall i :: 0 <= i < |ks| ==> rs[i] == st.records[ks[i]]
  {
    seq(|ks|, i requires 0 <= i < |ks| => st.records[ks[i]])
  }

  /** `getAll(query)` on the store or on one of its indexes. Reading an index
      the store does not have fails as `store.index(name)` does. */
  function GetAll(st: ObjectStore, src: Source, query: Option<Key>): (res: Result<seq<Record>, Error>)
    ensures res.Err? <==> src.ByIndex? && src.name !in st.indexes
    ensures res.Err? ==> res.error == NotFoundError
    ensures res.Ok? ==> forall x :: x in res.value <==> exists k :: Selected(st, src, query, k) && st.records[k] == x
    ensures res.Ok? && KeyConsistent(st) && (src.Objects? || query.Some?) ==> AscendingByKey(res.value, st.keyPath)
    ensures res.Ok? && src.Objects? && query.None? ==> |res.value| == |st.records|
  {
    if src.ByIndex? && src.name !in st.indexes then Err(NotFoundError)
    else
      var ks := SelectKeys(st, src, query, KeysInOrder(st.records.Keys));
      SelectedKeys(st, src, query, ks);
      var rs := RecordsAt(st, ks);
      ReadContents(st, src, query, ks, rs);
      ReadAscending(st, ks, rs);
      Ok(rs)
  }

  /** The keys `getAll` reads are stored keys, in ascending order, and all of them when nothing filters. */
  lemma SelectedKeys(st: ObjectStore, src: Source, query: Option<Key>, ks: seq<string>)
    requires ks == SelectKeys(st, src, query, KeysInOrder(st.records.Keys))
    ensures forall k :: k in ks <==> k in st.records && Selected(st, src, query, k)
    ensures forall i :: 0 <= i < |ks| ==> ks[i] in st.records
    ensures StrictlyAscending(ks)
    ensures src.Objects? && query.None? ==> |ks| == |st.records|
  {
    assert forall i :: 0 <= i < |ks| ==> ks[i] in ks;
    if src.Objects? && query.None? {
      SelectingAllKeys(st, KeysInOrder(st.records.Keys));
    }
  }

  lemma SelectingAllKeys(st: ObjectStore, all: seq<string>)
    requires forall k :: k in all <==> k in st.records
    requires |all| == |st.records.Keys|
    ensures |SelectKeys(st, Objects, None, all)| == |st.records|
  {
    assert forall i :: 0 <= i < |all| ==> all[i] in all && Selected(st, Objects, None, all[i]);
    assert |st.records.Keys| == |st.records|;
  }

  lemma ReadContents(st: ObjectStore, src: Source, query: Option<Key>, ks: seq<string>, rs: seq<Record>)
    requires forall k :: k in ks <==> k in st.records && Selected(st, src, query, k)
    requires |rs| == |ks| && forall i :: 0 <= i < |ks| ==> ks[i] in st.records && rs[i] == st.records[ks[i]]
    ensures forall x :: x in rs <==> exists k :: Selected(st, src, query, k) && st.records[k] == x
  {
    forall x | x in rs
      ensures exists k :: Selected(st, src, query, k) && st.records[k] == x
    {
      var i :| 0 <= i < |rs| && rs[i] == x;
      assert ks[i] in ks;
    }
    forall k | Selected(st, src, query, k)
      ensures st.records[k] in rs
    {
      var i :| 0 <= i < |ks| && ks[i] == k;
      assert rs[i] == st.records[k];
    }
  }

  lemma ReadAscending(st: ObjectStore, ks: seq<string>, rs: seq<Record>)
    requires StrictlyAscending(ks)
    requires |rs| == |ks| && forall i :: 0 <= i < |ks| ==> ks[i] in st.records && rs[i] == st.records[ks[i]]
    ensures KeyConsistent(st) ==> AscendingByKey(rs, st.keyPath)
  {
    if KeyConsistent(st) {
      forall i | 0 <= i < |rs|
        ensures Field(rs[i], st.keyPath) == Some(ks[i])
      {
      }
    }
  }

  /** After a put, reading the store at the record's key returns just that record. */
  lemma PutThenGet(st: ObjectStore, r: Record)
    requires Put(st, r).Ok?
    ensures GetAll(Put(st, r).value, Objects, Some(Text(Field(r, st.keyPath).value))) == Ok([r])
  {
    var st' := Put(st, r).value;
    var k := Field(r, st.keyPath).value;
    var q := Some(Text(k));
    var ks := SelectKeys(st', Objects, q, KeysInOrder(st'.records.Keys));
    assert forall x :: Selected(st', Objects, q, x) <==> x == k;
    OnlyKey(ks, k);
    assert RecordsAt(st', ks) == [r];
  }

  lemma OnlyKey(ks: seq<string>, k: string)
    requires StrictlyAscending(ks)
    requires forall x :: x in ks <==> x == k
    ensures ks == [k]
  {
    assert k in ks;
    FirstTwoDiffer(ks);
  }

  lemma FirstTwoDiffer(ks: seq<string>)
    requires StrictlyAscending(ks)
    ensures |ks| > 1 ==> ks[0] in ks && ks[1] in ks && ks[0] != ks[1]
  {
  }

  /** Deleting the key a put introduced restores the store: the upsert added exactly one record. */
  lemma RemoveUndoesPut(st: ObjectStore, r: Record)
    requires Put(st, r).Ok?
    requires Field(r, st.keyPath).value !in st.records
    ensures Remove(Put(st, r).value, Field(r, st.keyPath).value) == st
  {
    var k := Field(r, st.keyPath).value;
    var st' := Remove(Put(st, r).value, k);
    assert st'.records == st.records;
  }

  /** Deleting twice is deleting once. */
  lemma RemoveIdempotent(st: ObjectStore, k: string)
    ensures Remove(Remove(st, k), k) == Remove(st, k)
  {
  }

  /** Reading an index on one property with a key returns exactly the stored
      records whose property holds that key. */
  lemma IndexOnFieldIsFilter(st: ObjectStore, n: string, f: string, v: string)
    requires n in st.indexes && st.indexes[n].keyPath == Single(f)
    ensures GetAll(st, ByIndex(n), Some(Text(v))).Ok?
    ensures forall x :: x in GetAll(st, ByIndex(n), Some(Text(v))).value <==>
      x in st.records.Values && Field(x, f) == Some(v)
  {
    forall k | k in st.records
      ensures Selected(st, ByIndex(n), Some(Text(v)), k) <==> Field(st.records[k], f) == Some(v)
    {
    }
  }
}
