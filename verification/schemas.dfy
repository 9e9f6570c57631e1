/**
 * The wire shapes of the API: what a client sends to create an entry or a
 * user, and what it receives for an entry. The wire entry carries the type
 * as its name and leaves out the owner column.
 */
module Schemas {
  import opened Wrappers
  import opened Models

  /** The four fields every entry shape shares; `kind` is the `type` field. */
  datatype EntryBase = EntryBase(date: CalendarDate, kind: string, category: string, amount: Amount)

  /** The body of a create request: exactly the shared fields. */
  type EntryCreate = EntryBase

  /** An entry as sent to the client: the shared fields plus the id. */
  datatype WireEntry = WireEntry(id: int, fields: EntryBase)

  /** The body of a register request. */
  datatype UserCreate = UserCreate(username: string, password: string)

  /** Project a stored entry onto the wire shape, dropping its owner. */
  function ToWire(e: Entry): (w: WireEntry)
    ensures w.id == e.id
    ensures ParseEntryType(w.fields.kind) == Some(e.kind)
    ensures w.fields.date == e.date && w.fields.category == e.category && w.fields.amount == e.amount
  {
    TypeNameRoundTrip(e.kind);
    WireEntry(e.id, EntryBase(e.date, TypeName(e.kind), e.category, e.amount))
  }

  /** Project a list of stored entries, element by element. */
  function ToWireAll(es: seq<Entry>): (ws: seq<WireEntry>)
    ensures |ws| == |es|
    ensures forall j :: 0 <= j < |es| ==> ws[j] == ToWire(es[j])
  {
    if es == [] then [] else [ToWire(es[0])] + ToWireAll(es[1..])
  }

  /** Projecting a concatenation projects each part. */
  lemma ToWireAllAppend(a: seq<Entry>, b: seq<Entry>)
    ensures ToWireAll(a + b) == ToWireAll(a) + ToWireAll(b)
  {
  }

  /** The projection loses only the owner: the wire entry and the owner determine the row. */
  lemma ToWireLosesOnlyOwner(e: Entry, f: Entry)
    requires ToWire(e) == ToWire(f)
    requires e.userId == f.userId
    ensures e == f
  {
  }

  /** Two stored entries with different ids never project to the same wire entry. */
  lemma ToWireSeparatesIds(e: Entry, f: Entry)
    requires e.id != f.id
    ensures ToWire(e) != ToWire(f)
  {
  }

  /**
   * The stored row a create request becomes: the request's fields, the
   * assigned id and the caller as owner; `None` when the type is not one of
   * the two tags.
   */
  function NewEntry(input: EntryCreate, id: int, ownerId: int): (r: Option<Entry>)
    ensures r.Some? <==> ParseEntryType(input.kind).Some?
    ensures r.Some? ==> r.value.id == id && r.value.userId == ownerId
    ensures r.Some? ==> ToWire(r.value) == WireEntry(id, input)
  {
    match ParseEntryType(input.kind)
    case None => None
    case Some(t) => Some(Entry(id, input.date, t, input.category, input.amount, ownerId))
  }
}
