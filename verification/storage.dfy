/**
  The browser's `window.localStorage`, as seen by the page: a map from string
  keys to string values. Reading throws when the browser denies access to
  storage (disabled cookies, some private modes); writing throws in that case
  and also when the quota is exhausted. Both situations are state of the
  environment here, recorded in the `readable` and `writable` flags.
*/
module Storage {
  import opened Wrappers

  datatype Store = Store(entries: map<string, string>, readable: bool, writable: bool)

  /** The exceptions `getItem` and `setItem` can raise. */
  datatype Error = SecurityError | QuotaExceeded

  datatype Result<+T> = Ok(value: T) | Err(error: Error)

  /** `getItem(key)`: the stored string, `None` (JavaScript `null`) when the key is absent. */
  function GetItem(s: Store, key: string): (r: Result<Option<string>>)
    ensures r.Ok? <==> s.readable
    ensures r.Ok? ==> (r.value.Some? <==> key in s.entries)
    ensures r.Ok? && key in s.entries ==> r.value == Some(s.entries[key])
  {
    if !s.readable then Err(SecurityError)
    else if key in s.entries then Ok(Some(s.entries[key]))
    else Ok(None)
  }

  /** `setItem(key, v)`: the store afterwards, or the exception it throws. */
  function SetItem(s: Store, key: string, v: string): (r: Result<Store>)
    ensures r.Ok? <==> s.writable
    ensures r.Ok? ==> r.value.entries.Keys == s.entries.Keys + {key}
    ensures r.Ok? ==> r.value.entries[key] == v
    ensures r.Ok? ==> forall k :: k in s.entries && k != key ==> r.value.entries[k] == s.entries[k]
  {
    if !s.writable then Err(if s.readable then QuotaExceeded else SecurityError)
    else Ok(s.(entries := s.entries[key := v]))
  }

  /**
    `try { setItem(key, v) } catch { }`: a best-effort write whose failure
    leaves storage as it was.
  */
  function Write(s: Store, key: string, v: string): (s': Store)
    ensures s'.readable == s.readable && s'.writable == s.writable
    ensures s.writable ==> key in s'.entries && s'.entries[key] == v
    ensures !s.writable ==> s' == s
    ensures forall k :: k != key ==> (k in s'.entries <==> k in s.entries)
    ensures forall k :: k in s.entries && k != key ==> s'.entries[k] == s.entries[k]
  {
    match SetItem(s, key, v)
    case Ok(s1) => s1
    case Err(_) => s
  }
}
