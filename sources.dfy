/** Sources and the registry that maps each source to its pair of callbacks. */
module Sources {

  /** Whether a source has `readline` (a stream) or not (a listening socket that signals a pending accept). */
  datatype Kind = Readable | Acceptor

  /**
   * A source handle. The capabilities the reader probes with `hasattr` are fixed per object, so
   * they are part of the handle: its kind (`readline`), and whether it has `write` and `flush`.
   */
  datatype Source = Source(id: nat, kind: Kind, canWrite: bool, canFlush: bool)

  /**
   * A callback value: a user function, named by an identity, or one of the default pair's
   * lambdas, which return False.
   */
  datatype Callback = User(id: nat) | ReturnsFalse

  /** A registry entry: the callback for lines and accepts, and the callback for removal. */
  datatype Entry = Entry(callback: Callback, onRemove: Callback)

  /** The pair the lookup falls back on for a source that is not registered. */
  const Default: Entry := Entry(ReturnsFalse, ReturnsFalse)

  type Registry = map<Source, Entry>

  /** The registry lookup with a default; it never fails. */
  function GetEntry(m: Registry, f: Source): (e: Entry)
    ensures f in m ==> e == m[f]
    ensures f !in m ==> e.callback.ReturnsFalse? && e.onRemove.ReturnsFalse?
  {
    if f in m then m[f] else Default
  }

  /**
   * What a call of `cb` returns, given the answer the user's function would give: the default
   * lambdas always return False, so only a user callback can ask the reader to stop.
   */
  function Reply(cb: Callback, answer: bool): bool
  {
    match cb
    case User(_) => answer
    case ReturnsFalse => false
  }

  /** `add(f, cb, rm)` followed by a lookup: `f` yields `(cb, rm)` and every other source what it did before. */
  lemma LookupAfterAdd(m: Registry, f: Source, e: Entry, g: Source)
    ensures GetEntry(m[f := e], g) == if g == f then e else GetEntry(m, g)
  {
  }

  /** No source occurs twice: a select result, or an enumeration of a dictionary's keys. */
  predicate Distinct(s: seq<Source>) {
    forall i, j :: 0 <= i < j < |s| ==> s[i] != s[j]
  }

  /** Dropping the last element keeps a sequence duplicate-free and the last element is not in the rest. */
  lemma DistinctPrefix(s: seq<Source>)
    requires Distinct(s) && s != []
    ensures Distinct(s[..|s| - 1]) && s[|s| - 1] !in s[..|s| - 1]
  {
  }
}
