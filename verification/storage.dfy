/**
 The data model shared by both registry implementations: the three value
 shapes a registry can hold, an entry (a value plus the time it was last
 written), the liveness test both implementations apply on every read, and
 the state of a registry (its TTL and its key -> entry map).

 Time is an integer supplied by the caller (`now`); the TTL is an integer
 of the same unit. Neither is bounded: the model does not wrap around.
 */
module Storage {

  /** The conventional optional value; `None` plays the role of Go's nil. */
  datatype Option<+T> = None | Some(value: T)

  /** A storable value: a scalar string, a sequence of strings, or a
      string -> string mapping. No other shape can be stored. */
  datatype Value =
    | Scalar(text: string)
    | List(items: seq<string>)
    | Dict(entries: map<string, string>)

  /** A stored value together with the instant it was last written. */
  datatype Entry = Entry(entity: Value, lastWriteTime: int)

  /** The state of a registry: the TTL fixed at construction and the map
      from keys to entries as physically stored (expired entries included,
      until something removes them). */
  datatype Store = Store(ttl: int, registry: map<string, Entry>)

  /** The errors the registry operations report; `Message` gives the text
      each one carries. */
  datatype Error =
    | IndexOutOfRange
    | NotAnArray
    | NotADictionary
    | MapNotFound
    | NoSuchEntry
    | AlreadyExists

  function Message(e: Error): (m: string)
    ensures ErrorOf(m) == Some(e)
  {
    match e
    case IndexOutOfRange => "Index out of range"
    case NotAnArray => "Stored value is not an array"
    case NotADictionary => "Stored value is not a dictionary"
    case MapNotFound => "Map not found"
    case NoSuchEntry => "There is no entry with such key"
    case AlreadyExists => "Entry with such key already exists"
  }

  /** Reads an error kind back from its text; the inverse of `Message`, so
      different error kinds never share a text. */
  function ErrorOf(m: string): Option<Error>
  {
    if m == "Index out of range" then Some(IndexOutOfRange)
    else if m == "Stored value is not an array" then Some(NotAnArray)
    else if m == "Stored value is not a dictionary" then Some(NotADictionary)
    else if m == "Map not found" then Some(MapNotFound)
    else if m == "There is no entry with such key" then Some(NoSuchEntry)
    else if m == "Entry with such key already exists" then Some(AlreadyExists)
    else None
  }

  /** The result of a nested read: the projected entry (if any), whether the
      element was found, and the error (if any). */
  datatype NestedResult = NestedResult(entry: Option<Entry>, found: bool, err: Option<Error>)

  /** The result of an operation that may change the registry: the new
      state and what the operation returned. */
  datatype Step<+T> = Step(store: Store, out: T)

  /** An entry is live at `now` unless its last write plus the TTL lies
      strictly before `now`: it is still live at exactly `lastWriteTime + ttl`. */
  predicate Live(e: Entry, ttl: int, now: int)
    ensures Live(e, ttl, now) <==> now - e.lastWriteTime <= ttl
    ensures now == e.lastWriteTime + ttl ==> Live(e, ttl, now)
    ensures now == e.lastWriteTime + ttl + 1 ==> !Live(e, ttl, now)
  {
    !(e.lastWriteTime + ttl < now)
  }

  /** A freshly written entry: the given value, stamped with `now`. */
  function NewEntry(entity: Value, now: int): (e: Entry)
    ensures e.entity == entity
    ensures e.lastWriteTime == now
    ensures forall ttl :: ttl >= 0 ==> Live(e, ttl, now)
  {
    Entry(entity, now)
  }

  /** Wraps one element projected out of `parent` (a sequence cell or a
      mapping value) as an entry of its own. The element inherits the
      parent's write time, so it is live exactly when its parent is. */
  function Enpack(element: string, parent: Entry): (e: Entry)
    ensures e.entity == Scalar(element)
    ensures e.lastWriteTime == parent.lastWriteTime
    ensures forall ttl, now :: Live(e, ttl, now) <==> Live(parent, ttl, now)
  {
    Entry(Scalar(element), parent.lastWriteTime)
  }

  /** Passes an entry through if it is live, and reports not-found otherwise. */
  function FilterExpired(e: Entry, ttl: int, now: int): Option<Entry>
  {
    if Live(e, ttl, now) then Some(e) else None
  }

  /** Once an entry has expired it stays expired as time moves on, and a
      live entry was live at every earlier instant since its write. */
  lemma ExpiryIsPermanent(e: Entry, ttl: int, now: int, later: int)
    requires now <= later
    ensures !Live(e, ttl, now) ==> !Live(e, ttl, later)
    ensures Live(e, ttl, later) ==> Live(e, ttl, now)
  {
  }
}
