/**
 * The popup's persona selection: refreshing the persona list (seeding a
 * default persona into an empty store), choosing the selected persona, and the
 * add-persona form. The `<select>` element is modelled by its value: assigning
 * a value that no option carries leaves no option selected, which reads back
 * as "", and rebuilding the options selects the first one.
 */
module Popup {
  import opened Wrappers
  import opened Records
  import opened ObjectStores
  import opened PersonaDatabase
  import opened Repository
  import Strings

  const DefaultPersonaName: string := "Default Persona"

  /** The popup's state: the personas last listed, the value of the persona
      select, the text of the name input, and whether the add form is hidden. */
  datatype View = View(personas: seq<Record>, selected: string, nameInput: string, formHidden: bool)

  /** The database together with the popup after an operation. */
  datatype Screen = Screen(db: Database, view: View)

  predicate Listed(personas: seq<Record>, id: string)
    requires AllPersonas(personas)
  {
    exists i :: 0 <= i < |personas| && personas[i].id == id
  }

  /** JavaScript truthiness of an optional string argument. */
  predicate Truthy(s: Option<string>)
  {
    s.Some? && s.value != ""
  }

  /** The select's value once its options have been rebuilt from `personas`. */
  function RenderedValue(personas: seq<Record>): string
    requires AllPersonas(personas)
  {
    if |personas| > 0 then personas[0].id else ""
  }

  /** `selectPersona(personaId)` on a select whose options are `personas` and
      whose value is `current`. */
  function SelectPersona(personas: seq<Record>, current: string, personaId: Option<string>): (selected: string)
    requires AllPersonas(personas)
    ensures selected == "" || Listed(personas, selected) || selected == current
    ensures !Truthy(personaId) && |personas| > 0 ==> selected == personas[0].id
    ensures Truthy(personaId) && Listed(personas, personaId.value) ==> selected == personaId.value
    ensures Truthy(personaId) && !Listed(personas, personaId.value) ==> selected == ""
    ensures !Truthy(personaId) && |personas| == 0 ==> selected == current
  {
    if !Truthy(personaId) && |personas| > 0 then personas[0].id
    else if Truthy(personaId) then (if Listed(personas, personaId.value) then personaId.value else "")
    else current
  }

  /** `refreshPersonas(selectId)`: lists the personas, seeds "Default Persona"
      (with id `seedId`) when there are none, re-renders and selects. */
  function RefreshPersonas(db: Database, view: View, selectId: Option<string>, seedId: string, now: string): (res: Result<Screen, Error>)
    requires PersonasTyped(db)
    ensures PersonasStore !in db.stores ==> res == Err(NotFoundError)
    ensures res.Ok? ==>
      && AllPersonas(res.value.view.personas)
      && |res.value.view.personas| > 0
      && (res.value.view.selected == "" || Listed(res.value.view.personas, res.value.view.selected))
      && res.value.view.nameInput == view.nameInput
      && res.value.view.formHidden == view.formHidden
      && PersonasTyped(res.value.db)
    // an empty store: one default persona is added and selected
    ensures res.Ok? && |db.stores[PersonasStore].records| == 0 ==>
      && res.value.view.personas == [Persona(seedId, DefaultPersonaName, now)]
      && res.value.view.selected == seedId
    ensures Valid(db) && |db.stores[PersonasStore].records| == 0 ==>
      && res.Ok?
      && Upserted(db, res.value.db, PersonasStore, seedId, Persona(seedId, DefaultPersonaName, now))
    // a non-empty store: nothing is written, the requested persona or the first one is selected
    ensures res.Ok? && |db.stores[PersonasStore].records| > 0 ==>
      && res.value.db == db
      && res.value.view.personas == ListPersonas(db).value
      && (!Truthy(selectId) ==> res.value.view.selected == res.value.view.personas[0].id)
      && (Truthy(selectId) && Listed(res.value.view.personas, selectId.value) ==> res.value.view.selected == selectId.value)
      && (Truthy(selectId) && !Listed(res.value.view.personas, selectId.value) ==> res.value.view.selected == "")
    ensures Valid(db) ==> res.Ok? && Valid(res.value.db)
  {
    var listed :- ListPersonas(db);
    if |listed| == 0 then
      var w :- AddPersona(db, DefaultPersonaName, seedId, now);
      var personas := [w.record];
      Ok(Screen(w.db, view.(personas := personas, selected := SelectPersona(personas, RenderedValue(personas), Some(w.record.id)))))
    else
      Ok(Screen(db, view.(personas := listed, selected := SelectPersona(listed, RenderedValue(listed), selectId))))
  }

  /** A second refresh never seeds again: the store is left as the first one left it. */
  lemma RefreshSeedsOnce(db: Database, view: View, selectId: Option<string>, seedId: string, seedId': string, now: string)
    requires Valid(db)
    ensures RefreshPersonas(db, view, selectId, seedId, now).Ok?
    ensures
      var first := RefreshPersonas(db, view, selectId, seedId, now).value;
      && RefreshPersonas(first.db, first.view, selectId, seedId', now).Ok?
      && RefreshPersonas(first.db, first.view, selectId, seedId', now).value.db == first.db
  {
    var first := RefreshPersonas(db, view, selectId, seedId, now).value;
    if |db.stores[PersonasStore].records| == 0 {
      assert seedId in first.db.stores[PersonasStore].records;
    } else {
      assert first.db == db;
    }
  }

  /** `addPersonaFlow()`: a name that is blank after trimming cancels with no
      change; otherwise the trimmed name becomes a persona, the list is
      refreshed with it selected, and the form is cleared and hidden. */
  function AddPersonaFlow(db: Database, view: View, freshId: string, now: string): (res: Result<Screen, Error>)
    requires PersonasTyped(db)
    ensures Strings.AllSpace(view.nameInput) ==> res == Ok(Screen(db, view))
    ensures !Strings.AllSpace(view.nameInput) && PersonasStore !in db.stores ==> res == Err(NotFoundError)
    ensures !Strings.AllSpace(view.nameInput) && Valid(db) && freshId != "" ==>
      && res.Ok?
      && Valid(res.value.db)
      && Upserted(db, res.value.db, PersonasStore, freshId, Persona(freshId, Strings.Trim(view.nameInput), now))
      && Persona(freshId, Strings.Trim(view.nameInput), now) in res.value.view.personas
      && res.value.view.selected == freshId
      && res.value.view.nameInput == ""
      && res.value.view.formHidden
  {
    var name := Strings.Trim(view.nameInput);
    if name == "" then Ok(Screen(db, view))
    else
      var w :- AddPersona(db, name, freshId, now);
      NewPersonaListed(db, w, name, freshId, now);
      // the listing holds the new persona, so the refresh never uses its seed id
      var screen :- RefreshPersonas(w.db, view, Some(w.record.id), freshId, now);
      Ok(Screen(screen.db, screen.view.(nameInput := "", formHidden := true)))
  }

  lemma NewPersonaListed(db: Database, w: Written, name: string, freshId: string, now: string)
    requires PersonasTyped(db) && AddPersona(db, name, freshId, now) == Ok(w)
    ensures PersonasTyped(w.db)
    ensures Valid(db) ==>
      && |w.db.stores[PersonasStore].records| > 0
      && w.record in ListPersonas(w.db).value
      && Listed(ListPersonas(w.db).value, freshId)
  {
    if Valid(db) {
      var after := w.db.stores[PersonasStore].records;
      assert w.record in after.Values;
      var listed := ListPersonas(w.db).value;
      var i :| 0 <= i < |listed| && listed[i] == w.record;
      assert listed[i].id == freshId;
    }
  }
}
