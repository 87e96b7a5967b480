/** `LatestExchangeRateResponse` and `ExchangeRateClient`
    (src/cur/adapters/exchange_rate_client.py): rates for a base currency come
    from the cache when a fresh envelope is stored under the base's code, and
    otherwise from one GET to the remote source, whose decoded answer is then
    cached until the source's own next-update instant.

    HTTP is an oracle `string -> Reply` (path to answer); every call returns
    the directory it leaves and the paths it requested, in order. */
module Client {
  import opened Wrappers
  import opened Errors
  import opened Json
  import opened Storage
  import Cache
  import opened Entity
  import Text

  /** The decoded body of `GET /latest/{base}`. No field is type-checked by
      the source, so each is a JSON value; rates stay opaque. */
  datatype Response = Response(
    result: JsonValue,
    documentation: JsonValue,
    termsOfUse: JsonValue,
    timeLastUpdateUnix: JsonValue,
    timeLastUpdateUtc: JsonValue,
    timeNextUpdateUnix: JsonValue,
    timeNextUpdateUtc: JsonValue,
    baseCode: JsonValue,
    conversionRates: JsonValue)

  /** The nine keys `from_dict` requires, in the order it reads them. */
  const FieldNames: seq<string> := [
    "result", "documentation", "terms_of_use",
    "time_last_update_unix", "time_last_update_utc",
    "time_next_update_unix", "time_next_update_utc",
    "base_code", "conversion_rates"]

  /** The oracle's answer to one GET: no response at all, or a status and a
      body that is JSON text (`Some`) or not (`None`). */
  datatype Reply = NoResponse | Reply(status: int, body: Option<JsonValue>)

  /** The outcome of a client call: its value or exception, the cache
      directory afterwards, and the paths requested. */
  datatype Outcome<T> = Outcome(result: Result<T, Error>, store: Store, requests: seq<string>)

  /** `data[name]` on a JSON object. */
  function Field(m: map<string, JsonValue>, name: string): Result<JsonValue, Error> {
    if name in m then Ok(m[name]) else Err(KeyError(name))
  }

  /** `from_dict`: reads the nine keys in order; the first one missing raises
      KeyError, and a value that is not an object raises TypeError. */
  function FromDict(v: JsonValue): (r: Result<Response, Error>)
    ensures r.Ok? <==> v.JObject? && forall f :: f in FieldNames ==> f in v.fields
    ensures !v.JObject? ==> r == Err(TypeError)
    ensures v.JObject? && r.Err? ==>
      r.error.KeyError? && r.error.key in FieldNames && r.error.key !in v.fields
    ensures r.Ok? ==> r.value == Response(
      v.fields["result"], v.fields["documentation"], v.fields["terms_of_use"],
      v.fields["time_last_update_unix"], v.fields["time_last_update_utc"],
      v.fields["time_next_update_unix"], v.fields["time_next_update_utc"],
      v.fields["base_code"], v.fields["conversion_rates"])
  {
    match v
    case JObject(m) =>
      var result :- Field(m, "result");
      var documentation :- Field(m, "documentation");
      var termsOfUse :- Field(m, "terms_of_use");
      var lastUnix :- Field(m, "time_last_update_unix");
      var lastUtc :- Field(m, "time_last_update_utc");
      var nextUnix :- Field(m, "time_next_update_unix");
      var nextUtc :- Field(m, "time_next_update_utc");
      var baseCode :- Field(m, "base_code");
      var rates :- Field(m, "conversion_rates");
      Ok(Response(result, documentation, termsOfUse, lastUnix, lastUtc, nextUnix, nextUtc, baseCode, rates))
    case _ => Err(TypeError)
  }

  /** `to_dict`: an object with exactly the nine keys, which `from_dict` reads
      back to the same response. */
  function ToDict(r: Response): (v: JsonValue)
    ensures FromDict(v) == Ok(r)
  {
    var m := map[
      "result" := r.result,
      "documentation" := r.documentation,
      "terms_of_use" := r.termsOfUse,
      "time_last_update_unix" := r.timeLastUpdateUnix,
      "time_last_update_utc" := r.timeLastUpdateUtc,
      "time_next_update_unix" := r.timeNextUpdateUnix,
      "time_next_update_utc" := r.timeNextUpdateUtc,
      "base_code" := r.baseCode,
      "conversion_rates" := r.conversionRates];
    ResponseFields(r, m);
    JObject(m)
  }

  lemma ResponseFields(r: Response, m: map<string, JsonValue>)
    requires m == map[
      "result" := r.result,
      "documentation" := r.documentation,
      "terms_of_use" := r.termsOfUse,
      "time_last_update_unix" := r.timeLastUpdateUnix,
      "time_last_update_utc" := r.timeLastUpdateUtc,
      "time_next_update_unix" := r.timeNextUpdateUnix,
      "time_next_update_utc" := r.timeNextUpdateUtc,
      "base_code" := r.baseCode,
      "conversion_rates" := r.conversionRates]
    ensures FromDict(JObject(m)) == Ok(r)
  {
    assert m["result"] == r.result;
    assert m["documentation"] == r.documentation;
    assert m["terms_of_use"] == r.termsOfUse;
    assert m["time_last_update_unix"] == r.timeLastUpdateUnix;
    assert m["time_last_update_utc"] == r.timeLastUpdateUtc;
    assert m["time_next_update_unix"] == r.timeNextUpdateUnix;
    assert m["time_next_update_utc"] == r.timeNextUpdateUtc;
    assert m["base_code"] == r.baseCode;
    assert m["conversion_rates"] == r.conversionRates;
  }

  /** `/latest/{base_currency}`: the path is formatted with `__str__`, the code. */
  function ApiPath(base: Currency): (p: string)
    ensures p == "/latest/" + base.Code()
  {
    "/latest/" + base.ToString()
  }

  /** `raise_for_status()` then `response.json()` then `from_dict`. */
  function Decode(reply: Reply): (r: Result<Response, Error>)
    ensures reply.NoResponse? ==> r == Err(TransportError)
    ensures reply.Reply? && !(200 <= reply.status < 300) ==> r == Err(HttpStatusError(reply.status))
    ensures reply.Reply? && 200 <= reply.status < 300 && reply.body.None? ==> r == Err(JsonDecodeError)
    ensures r.Ok? <==>
      reply.Reply? && 200 <= reply.status < 300 && reply.body.Some? && FromDict(reply.body.value).Ok?
    ensures r.Ok? ==> FromDict(reply.body.value) == r
  {
    match reply
    case NoResponse => Err(TransportError)
    case Reply(status, body) =>
      if !(200 <= status < 300) then Err(HttpStatusError(status))
      else if body.None? then Err(JsonDecodeError)
      else FromDict(body.value)
  }

  /** A currency code contains no separator, so it is its own file name. */
  lemma CodeIsSafeKey(c: Currency)
    ensures SafeKey(c.Code()) == c.Code()
  {
    var code := c.Code();
    assert forall i :: 0 <= i < |code| ==> !IsSeparator(code[i]);
  }

  /** `_get_latest_rates`. A hit makes no request and changes nothing (its
      payload is decoded unguarded, so a payload lacking a field raises). A
      miss makes exactly one GET, to `/latest/{code}`; a failed GET or an
      undecodable body caches nothing, and a decoded response is cached under
      the base code with the response's next-update instant as its expiry.
      No other cache entry changes. */
  function LatestRates(store: Store, now: int, base: Currency, http: string -> Reply): (r: Outcome<Response>)
    ensures var g := Cache.Get(store, base.Code(), now);
      && (r.requests == [] <==> g.data.Some?)
      && (g.data.Some? ==> r.store == store && r.result == FromDict(g.data.value))
      && (g.data.None? ==> r.requests == [ApiPath(base)])
      && (g.data.None? ==> r.result == Decode(http(ApiPath(base))))
      && (g.data.None? && r.result.Err? ==> r.store == g.store)
      && (g.data.None? && r.result.Ok? ==>
            r.store == Cache.Set(g.store, base.Code(), ToDict(r.result.value), r.result.value.timeNextUpdateUnix))
    ensures forall k :: k != base.Code() ==> SameEntry(store, r.store, k)
  {
    var key := base.Code();
    CodeIsSafeKey(base);
    var cached := Cache.Get(store, key, now);
    if cached.data.Some? then
      Outcome(FromDict(cached.data.value), cached.store, [])
    else
      var path := ApiPath(base);
      match Decode(http(path))
      case Err(e) => Outcome(Err(e), cached.store, [path])
      case Ok(response) =>
        var stored := Cache.Set(cached.store, key, ToDict(response), response.timeNextUpdateUnix);
        assert forall k :: k != key ==> SameEntry(store, stored, k) by {
          forall k | k != key
            ensures SameEntry(store, stored, k)
          {
            assert SameEntry(store, cached.store, k);
            assert SameEntry(cached.store, stored, k);
          }
        }
        Outcome(Ok(response), stored, [path])
  }

  /** The ValueError `get_rate` raises for a target missing from the rates. */
  function NotFound(code: string): Error {
    ValueError("Target currency " + code + " not found in rates")
  }

  /** `target_code not in rates` then `rates[target_code]`, with Python's `in`:
      a key test on an object, membership on a list, a substring test on a
      string, and TypeError on anything else; indexing anything but an object
      with a string raises TypeError. */
  function Rate(rates: JsonValue, code: string): (r: Result<JsonValue, Error>)
    ensures r.Ok? <==> rates.JObject? && code in rates.fields
    ensures r.Ok? ==> r.value == rates.fields[code]
    ensures rates.JObject? && code !in rates.fields ==> r == Err(NotFound(code))
  {
    match rates
    case JObject(m) => if code in m then Ok(m[code]) else Err(NotFound(code))
    case JArray(items) => if JString(code) in items then Err(TypeError) else Err(NotFound(code))
    case JString(s) => if Text.Contains(s, code) then Err(TypeError) else Err(NotFound(code))
    case _ => Err(TypeError)
  }

  /** `get_rate`: the rate of the target in the base's latest rates; whatever
      `_get_latest_rates` did to the cache and the network stands. */
  function GetRate(store: Store, now: int, base: Currency, target: Currency, http: string -> Reply): (r: Outcome<JsonValue>)
    ensures var l := LatestRates(store, now, base, http);
      && r.store == l.store
      && r.requests == l.requests
      && (l.result.Err? ==> r.result == Err(l.result.error))
      && (l.result.Ok? ==> r.result == Rate(l.result.value.conversionRates, target.Code()))
  {
    var latest := LatestRates(store, now, base, http);
    match latest.result
    case Err(e) => Outcome(Err(e), latest.store, latest.requests)
    case Ok(response) => Outcome(Rate(response.conversionRates, target.Code()), latest.store, latest.requests)
  }

  // ---------------------------------------------------------------------------
  // At most one fetch per base while the cached answer is fresh
  // ---------------------------------------------------------------------------

  /** After a successful fetch, any call for the same base at a time before
      the response's next-update instant is a hit: no request, whatever the
      network would answer, the same response, and the cache as the fetch left it. */
  lemma FetchedResponseIsServedFromCache(store: Store, now: int, base: Currency, http: string -> Reply,
                                         later: int, http2: string -> Reply)
    requires var l := LatestRates(store, now, base, http); l.requests != [] && l.result.Ok?
    requires Cache.ExpiredAt(LatestRates(store, now, base, http).result.value.timeNextUpdateUnix, later) == Ok(false)
    ensures var l := LatestRates(store, now, base, http);
      LatestRates(l.store, later, base, http2) == Outcome(l.result, l.store, [])
  {
    var l := LatestRates(store, now, base, http);
    var response := l.result.value;
    var envelope := Cache.CachedData(ToDict(response), response.timeNextUpdateUnix);
    CodeIsSafeKey(base);
    assert l.store[base.Code()] == Parsed(Cache.ToDict(envelope));
    assert Cache.Get(l.store, base.Code(), later) == Cache.Lookup(Some(ToDict(response)), l.store);
  }

  /** Different targets for one fresh base share one fetch: the second
      `get_rate` makes no request and reads the same cached rates. */
  lemma TargetsShareOneFetch(store: Store, now: int, base: Currency, first: Currency, http: string -> Reply,
                             later: int, second: Currency, http2: string -> Reply)
    requires var l := LatestRates(store, now, base, http); l.requests != [] && l.result.Ok?
    requires Cache.ExpiredAt(LatestRates(store, now, base, http).result.value.timeNextUpdateUnix, later) == Ok(false)
    ensures var r1 := GetRate(store, now, base, first, http);
      var r2 := GetRate(r1.store, later, base, second, http2);
      && r1.requests == ["/latest/" + base.Code()]
      && r2.requests == []
      && r2.store == r1.store
      && r2.result == Rate(LatestRates(store, now, base, http).result.value.conversionRates, second.Code())
  {
    FetchedResponseIsServedFromCache(store, now, base, http, later, http2);
  }

  /** `get` for one key looks at that key's file only. */
  lemma GetReadsOneEntry(a: Store, b: Store, key: string, now: int)
    requires SameEntry(a, b, SafeKey(key))
    ensures Cache.Get(a, key, now).data == Cache.Get(b, key, now).data
  {
  }

  /** Different bases are fetched and cached independently: fetching a second
      base in between does not disturb the first base's fresh entry, which
      still answers without a request. */
  lemma BasesAreCachedIndependently(store: Store, now: int, base: Currency, http: string -> Reply,
                                    mid: int, other: Currency, http2: string -> Reply,
                                    later: int, http3: string -> Reply)
    requires base != other
    requires var l := LatestRates(store, now, base, http); l.requests != [] && l.result.Ok?
    requires Cache.ExpiredAt(LatestRates(store, now, base, http).result.value.timeNextUpdateUnix, later) == Ok(false)
    ensures var l1 := LatestRates(store, now, base, http);
      var l2 := LatestRates(l1.store, mid, other, http2);
      LatestRates(l2.store, later, base, http3) == Outcome(l1.result, l2.store, [])
  {
    var l1 := LatestRates(store, now, base, http);
    var l2 := LatestRates(l1.store, mid, other, http2);
    CodeIsSafeKey(base);
    assert base.Code() != other.Code();
    assert SameEntry(l1.store, l2.store, base.Code());
    FetchedResponseIsServedFromCache(store, now, base, http, later, http3);
    GetReadsOneEntry(l1.store, l2.store, base.Code(), later);
  }

  // ---------------------------------------------------------------------------
  // Failures
  // ---------------------------------------------------------------------------

  /** With nothing cached for the base, a transport failure, a non-2xx status,
      a body that is not JSON or one lacking a required key fails the call
      and leaves the cache exactly as it was. */
  lemma FailedFetchCachesNothing(store: Store, now: int, base: Currency, http: string -> Reply)
    requires base.Code() !in store
    requires Decode(http("/latest/" + base.Code())).Err?
    ensures var l := LatestRates(store, now, base, http);
      && l.result == Decode(http("/latest/" + base.Code()))
      && l.store == store
      && l.requests == ["/latest/" + base.Code()]
  {
    CodeIsSafeKey(base);
  }

  /** A stale entry is not reused: it is evicted and exactly one fresh GET is made. */
  lemma ExpiredEntryIsRefetched(store: Store, now: int, base: Currency, http: string -> Reply)
    requires base.Code() in store && store[base.Code()].Parsed?
    requires Cache.FromDict(store[base.Code()].value).Ok?
    requires Cache.IsExpired(Cache.FromDict(store[base.Code()].value).value, now) == Ok(true)
    ensures LatestRates(store, now, base, http).requests == ["/latest/" + base.Code()]
  {
    CodeIsSafeKey(base);
    Cache.GetEvictsExpired(store, base.Code(), now);
  }

  /** A fresh, well-formed envelope whose payload is not null but is not a
      complete response is served anyway: the hit is decoded unguarded, so it
      raises (KeyError for a missing key, TypeError for a payload that is not
      an object), with no request and without evicting the entry. */
  lemma IncompleteCachedPayloadRaises(store: Store, now: int, base: Currency, http: string -> Reply)
    requires base.Code() in store && store[base.Code()].Parsed?
    requires Cache.FromDict(store[base.Code()].value).Ok?
    requires var c := Cache.FromDict(store[base.Code()].value).value;
      && Cache.IsExpired(c, now) == Ok(false)
      && c.data != JNull
      && !(c.data.JObject? && forall f :: f in FieldNames ==> f in c.data.fields)
    ensures var data := Cache.FromDict(store[base.Code()].value).value.data;
      var l := LatestRates(store, now, base, http);
      && l.requests == []
      && l.store == store
      && l.result.Err?
      && (data.JObject? ==>
            l.result.error.KeyError? && l.result.error.key in FieldNames && l.result.error.key !in data.fields)
      && (!data.JObject? ==> l.result.error == TypeError)
  {
    CodeIsSafeKey(base);
  }

  /** `get_rate` raises the ValueError naming the target when the fetched
      rates lack it, and the fetched response is cached all the same. */
  lemma MissingTargetRaises(store: Store, now: int, base: Currency, target: Currency, http: string -> Reply)
    requires var l := LatestRates(store, now, base, http);
      l.result.Ok? && l.result.value.conversionRates.JObject?
      && target.Code() !in l.result.value.conversionRates.fields
    ensures var r := GetRate(store, now, base, target, http);
      && r.result == Err(ValueError("Target currency " + target.Code() + " not found in rates"))
      && r.store == LatestRates(store, now, base, http).store
  {
  }
}
