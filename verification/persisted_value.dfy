/**
  A value kept in the component and mirrored in local storage
  (`useLocalStorage` in lib/use-local-storage.ts).

  The hook starts from the caller's initial value and is not yet hydrated.
  Its effect reads the key once: a stored string that parses replaces the
  value, anything else (absent key, unreadable storage, unparsable text)
  leaves the initial value, and the hook becomes hydrated. Only then does
  `setValue` do anything: it updates the value and writes its JSON text
  under the key, ignoring a failed write. Until hydration completes nothing
  is written, so the initial value can never overwrite a stored one.

  `JSON.stringify` and `JSON.parse` are an abstract pair of functions, a
  `Codec`; properties that need them to agree assume `RoundTrips`.
*/
module PersistedValue {
  import opened Wrappers
  import Storage

  /** How values become storage text and back; `decode` gives `None` where `JSON.parse` throws. */
  datatype Codec<!T> = Codec(encode: T -> string, decode: string -> Option<T>)

  /** Decoding undoes encoding. */
  ghost predicate RoundTrips<T(!new)>(c: Codec<T>) {
    forall v :: c.decode(c.encode(v)) == Some(v)
  }

  /** The JSON text of a boolean, the type of every preference the page keeps. */
  const BoolJson: Codec<bool> := Codec(
    (b: bool) => if b then "true" else "false",
    (t: string) => if t == "true" then Some(true) else if t == "false" then Some(false) else None)

  lemma BoolJsonRoundTrips()
    ensures RoundTrips(BoolJson)
  {
    assert BoolJson.decode(BoolJson.encode(true)) == Some(true);
    assert BoolJson.decode(BoolJson.encode(false)) == Some(false) by {
      assert BoolJson.encode(false) == "false";
      assert "false" != "true";
    }
  }

  /** The hook's state: its key, the caller's initial value, the current value and whether the first read is done. */
  datatype Hook<T> = Hook(key: string, initial: T, value: T, hydrated: bool) {

    /** Before hydration the value is still the initial one. */
    ghost predicate Consistent() {
      !hydrated ==> value == initial
    }
  }

  /** A hook as first rendered. */
  function Fresh<T>(key: string, initial: T): (h: Hook<T>)
    ensures h.Consistent() && !h.hydrated && h.value == initial && h.key == key
  {
    Hook(key, initial, initial, false)
  }

  /** The argument of `setValue`: a new value, or a function of the current one. */
  datatype Update<!T> = Put(v: T) | Apply(f: T -> T)

  /** The value an update produces from `current`. */
  function Next<T>(u: Update<T>, current: T): (r: T)
    ensures u.Put? ==> r == u.v
    ensures u.Apply? ==> r == u.f(current)
  {
    match u
    case Put(v) => v
    case Apply(f) => f(current)
  }

  /** The hydration effect: one read of the key, which never writes. */
  function Hydrate<T>(h: Hook<T>, store: Storage.Store, c: Codec<T>): (h': Hook<T>)
    ensures h'.hydrated && h'.key == h.key && h'.initial == h.initial
    ensures !store.readable || h.key !in store.entries ==> h'.value == h.value
    ensures store.readable && h.key in store.entries && c.decode(store.entries[h.key]).Some? ==>
      h'.value == c.decode(store.entries[h.key]).value
    ensures store.readable && h.key in store.entries && c.decode(store.entries[h.key]).None? ==>
      h'.value == h.value
  {
    var read := match Storage.GetItem(store, h.key)
      case Ok(Some(raw)) => c.decode(raw)
      case _ => None;
    h.(value := read.GetOr(h.value), hydrated := true)
  }

  /** `setValue`: nothing before hydration; afterwards the new value, written best-effort under the hook's key. */
  function SetValue<T>(h: Hook<T>, store: Storage.Store, c: Codec<T>, u: Update<T>): (r: (Hook<T>, Storage.Store))
    ensures !h.hydrated ==> r == (h, store)
    ensures h.hydrated ==> r.0 == h.(value := Next(u, h.value))
    ensures h.hydrated && store.writable ==> r.1 == store.(entries := store.entries[h.key := c.encode(r.0.value)])
    ensures !store.writable ==> r.1 == store
  {
    if !h.hydrated then (h, store)
    else
      var next := Next(u, h.value);
      (h.(value := next), Storage.Write(store, h.key, c.encode(next)))
  }

  /** What can happen to a hook: its effect runs, or the page calls `setValue`. */
  datatype Event<!T> = HydrateEvent | SetEvent(u: Update<T>)

  /**
    One event. Every step keeps the hook at its initial value until it is
    hydrated, and keeps its key and initial value; hydration never writes, and
    an update before hydration changes nothing.
  */
  function Step<T>(h: Hook<T>, store: Storage.Store, c: Codec<T>, e: Event<T>): (r: (Hook<T>, Storage.Store))
    ensures h.Consistent() ==> r.0.Consistent()
    ensures r.0.key == h.key && r.0.initial == h.initial
    ensures e.HydrateEvent? ==> r.0.hydrated && r.1 == store
    ensures e.SetEvent? && !h.hydrated ==> r == (h, store)
  {
    match e
    case HydrateEvent => (Hydrate(h, store, c), store)
    case SetEvent(u) => SetValue(h, store, c, u)
  }

  /**
    The first read of a fresh hook: the decoded stored value when the key is
    present and decodes, the initial value otherwise.
  */
  lemma FirstRead<T>(key: string, initial: T, store: Storage.Store, c: Codec<T>)
    ensures var h := Hydrate(Fresh(key, initial), store, c);
      && h.hydrated
      && (store.readable && key in store.entries && c.decode(store.entries[key]).Some? ==>
            h.value == c.decode(store.entries[key]).value)
      && (!store.readable || key !in store.entries || c.decode(store.entries[key]).None? ==>
            h.value == initial)
  {
  }

  /** After hydration an update sets the value even when the write fails, and touches no key but the hook's. */
  lemma SetAfterHydration<T>(h: Hook<T>, store: Storage.Store, c: Codec<T>, u: Update<T>)
    requires h.hydrated
    ensures var (h', s') := SetValue(h, store, c, u);
      && h'.value == Next(u, h.value)
      && (store.writable ==> h.key in s'.entries && s'.entries[h.key] == c.encode(h'.value))
      && (!store.writable ==> s' == store)
      && (forall k :: k != h.key ==> (k in s'.entries <==> k in store.entries))
      && (forall k :: k in store.entries && k != h.key ==> s'.entries[k] == store.entries[k])
  {
  }

  /**
    A value set after hydration survives a reload: a fresh hook on the same
    key hydrates to it, whatever its own initial value, provided the codec
    round-trips and storage accepted the write and can be read.
  */
  lemma SetThenReload<T(!new)>(h: Hook<T>, store: Storage.Store, c: Codec<T>, v: T, initial: T)
    requires RoundTrips(c)
    requires h.hydrated && store.readable && store.writable
    ensures var (_, s') := SetValue(h, store, c, Put(v));
      Hydrate(Fresh(h.key, initial), s', c).value == v
  {
    var (_, s') := SetValue(h, store, c, Put(v));
    assert s'.entries[h.key] == c.encode(v);
    assert c.decode(c.encode(v)) == Some(v);
  }

  /** Before hydration a sequence of updates is lost entirely: neither value nor storage changes. */
  lemma {:induction false} UpdatesBeforeHydrationAreLost<T>(h: Hook<T>, store: Storage.Store, c: Codec<T>, us: seq<Update<T>>)
    requires !h.hydrated
    ensures SetAll(h, store, c, us) == (h, store)
    decreases |us|
  {
    if us != [] {
      UpdatesBeforeHydrationAreLost(h, store, c, us[1..]);
    }
  }

  /** A sequence of `setValue` calls, each seeing the result of the one before. */
  function SetAll<T>(h: Hook<T>, store: Storage.Store, c: Codec<T>, us: seq<Update<T>>): (Hook<T>, Storage.Store)
    decreases |us|
  {
    if us == [] then (h, store)
    else
      var (h1, s1) := SetValue(h, store, c, us[0]);
      SetAll(h1, s1, c, us[1..])
  }
}
