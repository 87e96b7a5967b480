/** `FileCacheStorage` (src/cur/adapters/cache.py): one `<safe key>.json` file
    per key in a cache directory. The directory is modelled as an immutable map
    from the file's base name without ".json" (the sanitised key) to what the
    file holds; every operation returns the directory it leaves behind. */
module Storage {
  import opened Wrappers
  import opened Json
  import Text

  /** What one cache file holds: JSON text (kept parsed) or text that is not JSON. */
  datatype Stored = Corrupt | Parsed(value: JsonValue)

  /** The cache directory: sanitised key -> content of `<sanitised key>.json`. */
  type Store = map<string, Stored>

  /** The outcome of `read`: the parsed content, if any, and the directory afterwards. */
  datatype ReadResult = ReadResult(value: Option<JsonValue>, store: Store)

  predicate IsSeparator(c: char) {
    c == '/' || c == '\\'
  }

  /** `_get_cache_path`'s sanitising: every '/' and every '\' becomes '_'. */
  function SafeKey(key: string): (safe: string)
    ensures |safe| == |key|
    ensures forall i :: 0 <= i < |key| ==> !IsSeparator(safe[i])
    ensures forall i :: 0 <= i < |key| && !IsSeparator(key[i]) ==> safe[i] == key[i]
    ensures forall i :: 0 <= i < |key| && IsSeparator(key[i]) ==> safe[i] == '_'
  {
    Text.Replace(Text.Replace(key, '/', '_'), '\\', '_')
  }

  /** Sanitising is idempotent: a sanitised key addresses its own file. */
  lemma SafeKeyIdempotent(key: string)
    ensures SafeKey(SafeKey(key)) == SafeKey(key)
  {
  }

  /** Keys that differ only in which separator they use (or in '_' against a
      separator) share one file. */
  lemma SeparatorsShareEntry(k1: string, k2: string)
    requires |k1| == |k2|
    requires forall i :: 0 <= i < |k1| ==>
      k1[i] == k2[i] || ((IsSeparator(k1[i]) || k1[i] == '_') && (IsSeparator(k2[i]) || k2[i] == '_'))
    ensures SafeKey(k1) == SafeKey(k2)
  {
  }

  /** Every file name in the directory is a sanitised key: true of every
      directory built by the operations below from an empty one. */
  predicate WellFormed(store: Store) {
    forall k :: k in store ==> SafeKey(k) == k
  }

  /** Entry `k` is the same in both directories. */
  predicate SameEntry(a: Store, b: Store, k: string) {
    (k in a <==> k in b) && (k in a ==> a[k] == b[k])
  }

  /** `read`: absent -> None; text that is not JSON -> None and the file is
      deleted; JSON -> its parsed value. */
  function Read(store: Store, key: string): (r: ReadResult)
    ensures r.value.Some? <==> SafeKey(key) in store && store[SafeKey(key)].Parsed?
    ensures r.value.Some? ==> store[SafeKey(key)] == Parsed(r.value.value) && r.store == store
    ensures r.value.None? ==> r.store == store - {SafeKey(key)}
  {
    var safe := SafeKey(key);
    if safe !in store then ReadResult(None, store)
    else match store[safe]
      case Corrupt => ReadResult(None, Delete(store, key))
      case Parsed(v) => ReadResult(Some(v), store)
  }

  /** `write`: replaces the file's content; reading it back gives the value
      written, and no other file changes. */
  function Write(store: Store, key: string, v: JsonValue): (s: Store)
    ensures Read(s, key) == ReadResult(Some(v), s)
    ensures forall k :: k != SafeKey(key) ==> SameEntry(store, s, k)
    ensures WellFormed(store) ==> WellFormed(s)
  {
    SafeKeyIdempotent(key);
    store[SafeKey(key) := Parsed(v)]
  }

  /** `delete` (`unlink(missing_ok=True)`): removes the file if present, and is
      a no-op otherwise; no other file changes. */
  function Delete(store: Store, key: string): (s: Store)
    ensures SafeKey(key) !in s
    ensures SafeKey(key) !in store ==> s == store
    ensures forall k :: k != SafeKey(key) ==> SameEntry(store, s, k)
    ensures WellFormed(store) ==> WellFormed(s)
  {
    store - {SafeKey(key)}
  }

  lemma ReadAbsent(store: Store, key: string)
    requires SafeKey(key) !in store
    ensures Read(store, key) == ReadResult(None, store)
  {
  }

  /** A corrupt file reads as absent and is gone afterwards, so a second read
      finds nothing and changes nothing. */
  lemma ReadCorruptSelfHeals(store: Store, key: string)
    requires SafeKey(key) in store && store[SafeKey(key)] == Corrupt
    ensures var r := Read(store, key);
      && r.value == None
      && SafeKey(key) !in r.store
      && Read(r.store, key) == ReadResult(None, r.store)
  {
  }

  // ---------------------------------------------------------------------------
  // `list_keys`: the stems of the `*.json` files
  // ---------------------------------------------------------------------------

  /** Index of the last '.' in `name`, or -1 (`str.rfind('.')`). */
  function LastDot(name: string): (i: int)
    ensures -1 <= i < |name|
    ensures i >= 0 ==> name[i] == '.'
    ensures forall j :: i < j < |name| ==> name[j] != '.'
  {
    if name == [] then -1
    else if name[|name| - 1] == '.' then |name| - 1
    else LastDot(name[..|name| - 1])
  }

  /** `PurePath.stem`: the name without its suffix, where a suffix starts at the
      last '.' only if that dot is neither the first nor the last character. */
  function Stem(name: string): (r: string)
    ensures |r| <= |name| && r == name[..|r|]
    ensures |r| < |name| ==>
      && 0 < |r| < |name| - 1 && name[|r|] == '.'
      && forall j :: |r| < j < |name| ==> name[j] != '.'
    ensures |r| == |name| ==>
      forall j :: 0 < j < |name| - 1 && name[j] == '.' ==> name[|name| - 1] == '.'
  {
    var i := LastDot(name);
    if 0 < i < |name| - 1 then name[..i] else name
  }

  /** The stem of a cache file is its key, except for the empty key: its file
      `.json` has no suffix, so its stem is ".json". */
  lemma StemOfCacheFile(key: string)
    ensures Stem(key + ".json") == (if key == "" then ".json" else key)
  {
    var name := key + ".json";
    assert LastDot(name) == |key| by {
      assert name[|key|] == '.';
      assert name[..|name| - 1] == key + ".jso";
      assert name[..|name| - 2] == key + ".js";
      assert name[..|name| - 3] == key + ".j";
      assert (key + ".j")[..|key| + 1] == key + ".";
    }
    assert name[..|key|] == key;
  }

  /** `list_keys`: the stem of every `*.json` file, in no particular order. */
  function ListKeys(store: Store): (r: set<string>)
    ensures r == (store.Keys - {""}) + (if "" in store then {".json"} else {})
  {
    var r := set k | k in store :: Stem(k + ".json");
    forall k | k in store
      ensures Stem(k + ".json") == (if k == "" then ".json" else k)
    {
      StemOfCacheFile(k);
    }
    r
  }

  /** Every listed stem other than the empty key's addresses, through `delete`
      or `read`, the very file it was listed from. */
  lemma ListedStemsAddressTheirFiles(store: Store)
    requires WellFormed(store)
    ensures forall k :: k in store && k != "" ==>
      Stem(k + ".json") in ListKeys(store) && SafeKey(Stem(k + ".json")) == k
  {
    forall k | k in store && k != ""
      ensures Stem(k + ".json") in ListKeys(store) && SafeKey(Stem(k + ".json")) == k
    {
      StemOfCacheFile(k);
    }
  }
}
