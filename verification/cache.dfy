/** `CachedData` and `ExchangeRateCache` (src/cur/adapters/cache.py): an
    envelope pairing a payload with an absolute expiry instant, and a cache
    over the storage that treats expired or malformed envelopes as misses and
    deletes them. The clock is the parameter `now` (whole seconds). */
module Cache {
  import opened Wrappers
  import opened Errors
  import opened Json
  import opened Storage

  /** An envelope. Neither field is type-checked by the source, so both are JSON values. */
  datatype CachedData = CachedData(data: JsonValue, expiryUnix: JsonValue)

  /** The outcome of `get`: the payload, if any, and the directory afterwards. */
  datatype Lookup = Lookup(data: Option<JsonValue>, store: Store)

  /** `now >= expiry` for an expiry read from JSON: a comparison of an int with
      an int, a float or a bool (0 or 1); any other value raises TypeError. */
  function ExpiredAt(expiry: JsonValue, now: int): (r: Result<bool, Error>)
    ensures r.Ok? <==> expiry.JInt? || expiry.JFloat? || expiry.JBool?
    ensures expiry.JInt? ==> r == Ok(now >= expiry.i)
    ensures expiry.JFloat? ==> r == Ok(now as real >= expiry.f)
  {
    match expiry
    case JInt(e) => Ok(now >= e)
    case JFloat(e) => Ok(now as real >= e)
    case JBool(b) => Ok(now >= (if b then 1 else 0))
    case _ => Err(TypeError)
  }

  /** `is_expired`: only the expiry instant and the clock matter, and the
      boundary instant already counts as expired. */
  function IsExpired(c: CachedData, now: int): (r: Result<bool, Error>)
    ensures r.Ok? <==> c.expiryUnix.JInt? || c.expiryUnix.JFloat? || c.expiryUnix.JBool?
    ensures c.expiryUnix.JInt? ==> (r == Ok(true) <==> now >= c.expiryUnix.i)
  {
    ExpiredAt(c.expiryUnix, now)
  }

  /** Expiry is monotone in time: an envelope expired at `now` stays expired
      at every later instant, so a fresh one was fresh at every earlier one. */
  lemma StaysExpired(c: CachedData, now: int, later: int)
    requires now <= later && IsExpired(c, now) == Ok(true)
    ensures IsExpired(c, later) == Ok(true)
  {
  }

  /** `from_dict`: the two fields of a JSON object; KeyError when one is
      missing, TypeError when the value is not an object. */
  function FromDict(v: JsonValue): (r: Result<CachedData, Error>)
    ensures r.Ok? <==> v.JObject? && "data" in v.fields && "expiry_unix" in v.fields
    ensures r.Ok? ==> r.value == CachedData(v.fields["data"], v.fields["expiry_unix"])
    ensures !v.JObject? ==> r == Err(TypeError)
    ensures v.JObject? && "data" !in v.fields ==> r == Err(KeyError("data"))
    ensures v.JObject? && "data" in v.fields && "expiry_unix" !in v.fields ==> r == Err(KeyError("expiry_unix"))
  {
    match v
    case JObject(m) =>
      if "data" !in m then Err(KeyError("data"))
      else if "expiry_unix" !in m then Err(KeyError("expiry_unix"))
      else Ok(CachedData(m["data"], m["expiry_unix"]))
    case _ => Err(TypeError)
  }

  /** `to_dict`: an object with exactly the two fields, which `from_dict` reads back. */
  function ToDict(c: CachedData): (v: JsonValue)
    ensures v.JObject? && v.fields.Keys == {"data", "expiry_unix"}
    ensures FromDict(v) == Ok(c)
  {
    JObject(map["data" := c.data, "expiry_unix" := c.expiryUnix])
  }

  /** Python's None is JSON null: a null payload is returned as "nothing". */
  function AsOptional(v: JsonValue): (r: Option<JsonValue>)
    ensures r.None? <==> v == JNull
  {
    if v == JNull then None else Some(v)
  }

  /** `get`: a hit returns the payload and changes nothing; a missing file, or
      one holding null, is a miss that changes nothing; corrupt text, a
      malformed envelope or an expired one is a miss that deletes the file. */
  function Get(store: Store, key: string, now: int): (r: Lookup)
    ensures r.store == store || r.store == store - {SafeKey(key)}
    ensures forall k :: k != SafeKey(key) ==> SameEntry(store, r.store, k)
    ensures r.data.Some? ==>
      && r.store == store
      && SafeKey(key) in store && store[SafeKey(key)].Parsed?
      && FromDict(store[SafeKey(key)].value).Ok?
      && IsExpired(FromDict(store[SafeKey(key)].value).value, now) == Ok(false)
      && r.data == Some(FromDict(store[SafeKey(key)].value).value.data)
    ensures
      && SafeKey(key) in store && store[SafeKey(key)].Parsed?
      && FromDict(store[SafeKey(key)].value).Ok?
      && IsExpired(FromDict(store[SafeKey(key)].value).value, now) == Ok(false)
      ==> r == Lookup(AsOptional(FromDict(store[SafeKey(key)].value).value.data), store)
    ensures SafeKey(key) !in store || store[SafeKey(key)] == Parsed(JNull) ==> r == Lookup(None, store)
    ensures
      && SafeKey(key) in store && store[SafeKey(key)] != Parsed(JNull)
      && !(&& store[SafeKey(key)].Parsed?
           && FromDict(store[SafeKey(key)].value).Ok?
           && IsExpired(FromDict(store[SafeKey(key)].value).value, now) == Ok(false))
      ==> r == Lookup(None, store - {SafeKey(key)})
  {
    var read := Storage.Read(store, key);
    if read.value.None? || read.value.value == JNull then Lookup(None, read.store)
    else match FromDict(read.value.value)
      case Err(_) => Lookup(None, Storage.Delete(read.store, key))
      case Ok(cached) =>
        match IsExpired(cached, now)
        case Err(_) => Lookup(None, Storage.Delete(read.store, key))
        case Ok(true) => Lookup(None, Storage.Delete(read.store, key))
        case Ok(false) => Lookup(AsOptional(cached.data), read.store)
  }

  /** `set`: writes the envelope, replacing any earlier one; no other file changes. */
  function Set(store: Store, key: string, data: JsonValue, expiry: JsonValue): (s: Store)
    ensures forall k :: k != SafeKey(key) ==> SameEntry(store, s, k)
    ensures WellFormed(store) ==> WellFormed(s)
    ensures SafeKey(key) in s && s[SafeKey(key)].Parsed?
    ensures FromDict(s[SafeKey(key)].value) == Ok(CachedData(data, expiry))
  {
    Storage.Write(store, key, ToDict(CachedData(data, expiry)))
  }

  /** A file holding null is a miss that keeps the file: `get` returns before
      it reaches the `try`. */
  lemma GetKeepsNull(store: Store, key: string, now: int)
    requires SafeKey(key) in store && store[SafeKey(key)] == Parsed(JNull)
    ensures Get(store, key, now) == Lookup(None, store)
  {
  }

  lemma GetAbsent(store: Store, key: string, now: int)
    requires SafeKey(key) !in store
    ensures Get(store, key, now) == Lookup(None, store)
  {
  }

  /** Setting with an expiry still in the future, then getting, returns the
      payload and leaves the directory as `set` left it. */
  lemma SetThenGetFresh(store: Store, key: string, data: JsonValue, expiry: int, now: int)
    requires now < expiry
    ensures var s := Set(store, key, data, JInt(expiry));
      Get(s, key, now) == Lookup(AsOptional(data), s)
  {
  }

  /** Setting with an expiry at or before `now`, then getting, returns nothing
      and deletes the file. */
  lemma SetThenGetExpired(store: Store, key: string, data: JsonValue, expiry: int, now: int)
    requires expiry <= now
    ensures var s := Set(store, key, data, JInt(expiry));
      Get(s, key, now) == Lookup(None, s - {SafeKey(key)})
  {
  }

  /** Once a key's file is deleted, `list_keys` no longer lists the key
      (provided no file of the empty key is present: its stem is ".json"
      whatever it holds). */
  lemma DeletedKeyUnlisted(store: Store, key: string)
    requires key != "" && "" !in store
    ensures SafeKey(key) !in ListKeys(store - {SafeKey(key)})
  {
    var after := store - {SafeKey(key)};
    forall k | k in after
      ensures Stem(k + ".json") != SafeKey(key)
    {
      StemOfCacheFile(k);
    }
  }

  /** A file whose text is not JSON, whose envelope lacks a field or is not an
      object, or whose expiry cannot be compared with the clock, is a miss, and
      the file is deleted. */
  lemma GetEvictsMalformed(store: Store, key: string, now: int)
    requires SafeKey(key) in store
    requires var entry := store[SafeKey(key)];
      || entry == Corrupt
      || (entry.Parsed? && entry.value != JNull && FromDict(entry.value).Err?)
      || (entry.Parsed? && FromDict(entry.value).Ok? && IsExpired(FromDict(entry.value).value, now).Err?)
    ensures Get(store, key, now) == Lookup(None, store - {SafeKey(key)})
  {
  }

  /** An envelope whose expiry has come is a miss, and the file is deleted. */
  lemma GetEvictsExpired(store: Store, key: string, now: int)
    requires SafeKey(key) in store && store[SafeKey(key)].Parsed?
    requires FromDict(store[SafeKey(key)].value).Ok?
    requires IsExpired(FromDict(store[SafeKey(key)].value).value, now) == Ok(true)
    ensures Get(store, key, now) == Lookup(None, store - {SafeKey(key)})
  {
  }

  // ---------------------------------------------------------------------------
  // `clear`
  // ---------------------------------------------------------------------------

  /** The files `clear` deletes: those addressed by the listed stems. */
  function ClearTargets(store: Store): set<string> {
    set l | l in ListKeys(store) :: SafeKey(l)
  }

  /** The directory `clear` leaves: every file addressed by a listed stem gone. */
  function Cleared(store: Store): Store {
    store - ClearTargets(store)
  }

  /** `clear`: `delete` for each key `list_keys` returned, in any order. */
  method Clear(store: Store) returns (cleared: Store)
    ensures forall k :: k in cleared <==> k in store && k !in ClearTargets(store)
    ensures forall k :: k in cleared ==> cleared[k] == store[k]
  {
    var listed := ListKeys(store);
    var todo := listed;
    cleared := store;
    while todo != {}
      invariant todo <= listed
      invariant forall k :: k in cleared <==>
        k in store && (forall l :: l in listed && SafeKey(l) == k ==> l in todo)
      invariant forall k :: k in cleared ==> cleared[k] == store[k]
      decreases |todo|
    {
      var l :| l in todo;
      cleared := Storage.Delete(cleared, l);
      todo := todo - {l};
    }
  }

  /** After `clear`, at most the empty key's file is left. */
  lemma ClearLeavesOnlyEmptyKey(store: Store)
    requires WellFormed(store)
    ensures forall k :: k in Cleared(store) ==> k == ""
  {
    ListedStemsAddressTheirFiles(store);
    forall k | k in store && k != ""
      ensures k in ClearTargets(store)
    {
      var l := Stem(k + ".json");
      assert l in ListKeys(store) && SafeKey(l) == k;
    }
  }

  /** After `clear`, `get` of any non-empty key is a miss. */
  lemma GetAfterClear(store: Store, key: string, now: int)
    requires WellFormed(store)
    requires key != ""
    ensures Get(Cleared(store), key, now).data == None
  {
    ClearLeavesOnlyEmptyKey(store);
    assert SafeKey(key) != "";
  }

  /** Clearing twice leaves the same directory as clearing once. */
  lemma ClearTwice(store: Store)
    requires WellFormed(store)
    ensures Cleared(Cleared(store)) == Cleared(store)
  {
    var once := Cleared(store);
    ClearLeavesOnlyEmptyKey(store);
    NothingListedAfterClear(once);
    MinusAbsent(once, ClearTargets(once));
  }

  /** In a directory holding at most the empty key's file, `clear` targets
      only the file ".json", which is not there. */
  lemma NothingListedAfterClear(once: Store)
    requires forall k :: k in once ==> k == ""
    ensures forall t :: t in ClearTargets(once) ==> t !in once
  {
    assert ListKeys(once) <= {".json"};
    assert SafeKey(".json") == ".json";
    forall t | t in ClearTargets(once)
      ensures t == ".json"
    {
      var l :| l in ListKeys(once) && SafeKey(l) == t;
    }
  }

  lemma MinusAbsent(m: Store, s: set<string>)
    requires forall t :: t in s ==> t !in m
    ensures m - s == m
  {
  }

  /** As written, `clear` never deletes the empty key's file: its stem is
      ".json", which `delete` maps to the file `.json.json`. */
  lemma ClearKeepsEmptyKey(store: Store)
    requires "" in store
    ensures "" in Cleared(store) && Cleared(store)[""] == store[""]
  {
    forall l | l in ListKeys(store)
      ensures SafeKey(l) != ""
    {
    }
  }

  /** The name of a cache file with its ".json" suffix removed: what `list_keys`
      evidently means by the key of a file. */
  function FileKey(name: string): (key: string)
    requires |name| >= 5
    ensures name == key + name[|name| - 5..]
  {
    name[..|name| - 5]
  }

  /** `list_keys` reading keys with the suffix removed rather than with `stem`. */
  function ListKeysFixed(store: Store): set<string> {
    set k | k in store :: FileKey(k + ".json")
  }

  /** `clear` over `ListKeysFixed`: the directory ends up empty. */
  function ClearedFixed(store: Store): (s: Store)
    ensures WellFormed(store) ==> s == map[]
  {
    assert forall k :: k in store ==> FileKey(k + ".json") == k;
    store - (set l | l in ListKeysFixed(store) :: SafeKey(l))
  }
}
