/**
 * The four record shapes the popup stores, and IndexedDB key paths evaluated
 * against them. A record is a plain object in the source; `Field` plays the
 * role of property access, so a key path that names an absent property yields
 * no key.
 */
module Records {
  import opened Wrappers

  datatype Record =
    | Persona(id: string, name: string, createdAt: string)
    | History(id: string, personaId: string, url: string, title: string, description: string, visitedAt: string)
    | PageSnapshot(historyId: string, personaId: string, url: string, capturedAt: string, html: string)
      /** `content` is an arbitrary value in the source; here it is carried as opaque text. */
    | Insight(id: string, personaId: string, kind: string, content: string, createdAt: string)

  /** Property lookup by name; `None` when the record has no such property. */
  function Field(r: Record, name: string): Option<string>
  {
    match r
    case Persona(id, n, createdAt) =>
      if name == "id" then Some(id)
      else if name == "name" then Some(n)
      else if name == "createdAt" then Some(createdAt)
      else None
    case History(id, personaId, url, title, description, visitedAt) =>
      if name == "id" then Some(id)
      else if name == "personaId" then Some(personaId)
      else if name == "url" then Some(url)
      else if name == "title" then Some(title)
      else if name == "description" then Some(description)
      else if name == "visitedAt" then Some(visitedAt)
      else None
    case PageSnapshot(historyId, personaId, url, capturedAt, html) =>
      if name == "historyId" then Some(historyId)
      else if name == "personaId" then Some(personaId)
      else if name == "url" then Some(url)
      else if name == "capturedAt" then Some(capturedAt)
      else if name == "html" then Some(html)
      else None
    case Insight(id, personaId, kind, content, createdAt) =>
      if name == "id" then Some(id)
      else if name == "personaId" then Some(personaId)
      else if name == "kind" then Some(kind)
      else if name == "content" then Some(content)
      else if name == "createdAt" then Some(createdAt)
      else None
  }

  /** An IndexedDB key: a string, or an array of strings for a compound key path. */
  datatype Key = Text(text: string) | Tuple(parts: seq<string>)

  /** A key path: one property name, or an array of them. */
  datatype KeyPath = Single(field: string) | Compound(fields: seq<string>)

  /** The values of the named properties, in order; `None` as soon as one is missing. */
  function FieldsOf(r: Record, names: seq<string>): (v: Option<seq<string>>)
    ensures v.Some? <==> forall i :: 0 <= i < |names| ==> Field(r, names[i]).Some?
    ensures v.Some? ==> |v.value| == |names| && forall i :: 0 <= i < |names| ==> Field(r, names[i]) == Some(v.value[i])
  {
    if names == [] then Some([])
    else
      match (Field(r, names[0]), FieldsOf(r, names[1..]))
      case (Some(x), Some(xs)) => Some([x] + xs)
      case _ => None
  }

  /** Evaluates a key path on a record; `None` means the record yields no key. */
  function Evaluate(r: Record, path: KeyPath): (k: Option<Key>)
    ensures path.Single? ==> (k.Some? <==> Field(r, path.field).Some?)
    ensures path.Single? && k.Some? ==> k.value == Text(Field(r, path.field).value)
  {
    match path
    case Single(f) => (match Field(r, f) case Some(v) => Some(Text(v)) case None => None)
    case Compound(fs) => (match FieldsOf(r, fs) case Some(vs) => Some(Tuple(vs)) case None => None)
  }
}
