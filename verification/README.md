# currency-converter core, in Dafny

A Dafny model of the core of `cur`, a command-line currency converter. The
model covers:

- **Storage and cache** (`storage.dfy`, `cache.dfy`). `FileCacheStorage`
  keeps one `<key>.json` file per key in a cache directory. Keys are
  sanitised, corrupt files are deleted when read, and `list_keys` lists the
  file stems. `CachedData` and `ExchangeRateCache` add an expiry envelope:
  `get` evicts an entry that is expired or malformed, `set` writes one and
  `clear` removes them.
- **Exchange-rate client** (`client.dfy`). `LatestExchangeRateResponse` has
  nine fields. `ExchangeRateClient` serves the latest rates for a base
  currency from the cache. Otherwise it makes one GET and caches the answer
  until the source's next-update instant. `get_rate` looks up the target in
  those rates.
- **Currency** (`entity.py`, modelled in `entity.dfy`). The three supported
  currencies and the lookup from user text.
- **Parser** (`parser.dfy`). `parse_amount` covers text such as "1,500.5k":
  surrounding whitespace is trimmed, commas are dropped, the pattern is
  matched and the result is scaled by a k/m/b multiplier. Also modelled are
  `UnitMultiplier` and `parse_currency`.
- **Korean formatter** (`korean_formatter.dfy`). Amounts are written with
  the units 조, 억 and 만 and the currency's Korean names, with an optional
  subunit part.
- **Number formatters** (`number_formatter.dfy`). `format_with_commas`,
  `format_plain`, the K/M/B abbreviation `format_short`, and the
  trailing-zero trimmer all three use.

Supporting modules:

- `Wrappers`, with `Option` and `Result`, and `Errors`, the exceptions that
  can escape.
- `Json`, the JSON value type.
- `Text`, Python's `str` builtins on `seq<char>`: `strip`, `upper`,
  `replace`, `rstrip`, `count`, `index`, `join`, and integer formatting with
  and without thousands separators.
- `Decimal`, the Unicode decimal digits (category Nd) that Python's `\d`
  and `float()` accept, as a table of the first digit of each block of ten.
- `Numbers`, covering `round` (ties to even) and `int` (toward zero) on
  exact reals.

State is modelled as immutable values:

- The cache directory is a map from file name to content. Every operation
  returns the directory it leaves behind.
- The clock is a parameter `now`.
- HTTP is an oracle from request path to reply.
- Each client call returns the paths it requested.

## Model

| member | source | states |
|---|---|---|
| Storage.SafeKey | src/cur/adapters/cache.py:44-46 | The sanitised key has the key's length and contains no '/' or '\'. Each separator becomes '_' and every other character is kept. |
| Storage.SafeKeyIdempotent | src/cur/adapters/cache.py:44-46 | Sanitising a sanitised key changes nothing, so a sanitised key addresses its own file. |
| Storage.SeparatorsShareEntry | src/cur/adapters/cache.py:44-46 | Two keys that differ only in '/', '\' or '_' at the same positions map to one file. |
| Storage.Read | src/cur/adapters/cache.py:48-59 | A value is returned exactly when the key's file exists and holds JSON, and the directory is then unchanged. Otherwise nothing is returned and the key's file is gone afterwards. |
| Storage.Write | src/cur/adapters/cache.py:61-64 | Reading the key back gives the value written. No other file changes, and a directory of sanitised names stays one. |
| Storage.Delete | src/cur/adapters/cache.py:66-68 | The key's file is absent afterwards. Deleting an absent key is a no-op, and no other file changes. |
| Storage.ReadCorruptSelfHeals | src/cur/adapters/cache.py:54-59 | A file that is not JSON reads as absent and is deleted, so a second read finds nothing and changes nothing. |
| Storage.Stem | src/cur/adapters/cache.py:76 | `Path.stem` is a prefix of the name. It is shorter exactly when the last '.' is neither the first nor the last character, and then it ends just before that dot. A name with a dot inside and none at the end is always shortened. |
| Storage.StemOfCacheFile | src/cur/adapters/cache.py:70-77 | The stem of `<key>.json` is the key, except for the empty key, whose file `.json` has the stem ".json". |
| Storage.ListedStemsAddressTheirFiles | src/cur/adapters/cache.py:70-77 | In a directory of sanitised names, each non-empty key's stem is listed, and sanitising that stem gives back the file it was listed from. |
| Storage.ListKeys | src/cur/adapters/cache.py:70-77 | `list_keys` lists every file's key except the empty key's. The empty key's file `.json` is listed as ".json" instead. |
| Cache.IsExpired | src/cur/adapters/cache.py:15-16 | Only the expiry and the clock matter. A number or bool expiry gives a verdict, and anything else raises TypeError. An int expiry is expired exactly from that instant on. |
| Cache.StaysExpired | src/cur/adapters/cache.py:15-16 | Once expired, an envelope stays expired at every later instant. |
| Cache.ExpiredAt | src/cur/adapters/cache.py:15-16 | The result is `now >= expiry` for an int or float expiry. The boundary instant already counts as expired. Only a number or a bool can be compared, and anything else raises TypeError. |
| Cache.FromDict | src/cur/adapters/cache.py:21-23 | It succeeds exactly on an object holding both "data" and "expiry_unix", and returns their values. An object without "data" raises KeyError("data"); one with "data" but no "expiry_unix" raises KeyError("expiry_unix"); anything that is not an object raises TypeError. |
| Cache.ToDict | src/cur/adapters/cache.py:18-23 | The result is an object with exactly the two keys, and `from_dict` reads it back to the same envelope. |
| Cache.Get | src/cur/adapters/cache.py:84-100 | Every branch is fixed. A missing file, or one holding null, is a miss that changes nothing. A well-formed, unexpired envelope is a hit: its data is returned and nothing changes. Every other file is a miss that deletes exactly that file: corrupt text, a non-object, a missing field, an expiry that cannot be compared (TypeError), or an expired envelope. |
| Cache.Set | src/cur/adapters/cache.py:102-104 | The key's file holds an envelope that `from_dict` reads as exactly (data, expiry). No other file changes. |
| Cache.SetThenGetFresh | src/cur/adapters/cache.py:84-104 | After `set` with an expiry after `now`, `get` returns the data and leaves the directory as `set` left it. |
| Cache.SetThenGetExpired | src/cur/adapters/cache.py:92-94 | For every directory and key, after `set` with an expiry at or before `now`, `get` returns nothing and deletes exactly that file. |
| Cache.DeletedKeyUnlisted | src/cur/adapters/cache.py:70-77 | Once a nonempty key's file is deleted, `list_keys` does not list the key, provided no file of the empty key exists. |
| Cache.GetEvictsMalformed | src/cur/adapters/cache.py:89-100 | A corrupt file, an envelope that is not an object or lacks a field, or one whose expiry raises TypeError when compared, is a miss, and only that file is deleted. |
| Cache.GetEvictsExpired | src/cur/adapters/cache.py:92-94 | An expired envelope is a miss, and only that file is deleted. |
| Cache.GetKeepsNull | src/cur/adapters/cache.py:84-87 | A file holding null is a miss, and the file is kept. |
| Cache.Clear | src/cur/adapters/cache.py:106-108 | Deleting each listed key in any order leaves exactly the files no listed stem addresses, with their contents unchanged. |
| Cache.ClearLeavesOnlyEmptyKey | src/cur/adapters/cache.py:106-108 | After `clear`, no file other than the empty key's remains. |
| Cache.GetAfterClear | src/cur/adapters/cache.py:106-108 | After `clear`, `get` of any non-empty key returns nothing. |
| Cache.ClearTwice | src/cur/adapters/cache.py:106-108 | Clearing twice leaves the same directory as clearing once. |
| Cache.ClearKeepsEmptyKey | src/cur/adapters/cache.py:106-108 | As written, `clear` keeps the empty key's file, with its content unchanged. |
| Cache.ClearedFixed | src/cur/adapters/cache.py:106-108 | When keys are listed by removing ".json" rather than by `stem`, `clear` empties every directory of sanitised names. |
| Client.FromDict | src/cur/adapters/exchange_rate_client.py:25-37 | It succeeds exactly on an object holding all nine keys, and returns their values field by field. A missing key raises KeyError naming a required key that is absent, and a non-object raises TypeError. |
| Client.ToDict | src/cur/adapters/exchange_rate_client.py:22-37 | `from_dict(to_dict(r)) == r`. |
| Client.ApiPath | src/cur/adapters/exchange_rate_client.py:58 | The request path is "/latest/" followed by the base currency's code. |
| Client.Decode | src/cur/adapters/exchange_rate_client.py:59-63 | No response raises a transport error, a non-2xx status raises a status error, and a 2xx reply whose body is not JSON raises a decode error. The decode succeeds exactly for a 2xx reply with a JSON body that `from_dict` accepts, and the result is that of `from_dict`. |
| Client.LatestRates | src/cur/adapters/exchange_rate_client.py:51-69 | On a cache hit there is no request, the cache is unchanged and the result is `from_dict` of the cached payload. On a miss there is exactly one GET, to `/latest/{code}`. A failure leaves the cache as `get` left it. A success caches `to_dict(response)` under the code, expiring at `time_next_update_unix`. No other entry changes. |
| Client.Rate | src/cur/adapters/exchange_rate_client.py:75-78 | It succeeds exactly when the rates are an object containing the target. Then it returns that rate, and a missing key gives the "Target currency … not found in rates" ValueError. |
| Client.GetRate | src/cur/adapters/exchange_rate_client.py:71-78 | The result is the target's rate in the latest rates, or the error from fetching them. The cache and requests are as `_get_latest_rates` left them. |
| Client.FetchedResponseIsServedFromCache | src/cur/adapters/exchange_rate_client.py:51-69 | After a successful fetch, a call for the same base before the next-update instant makes no request, whatever the network would answer. It returns the same response and leaves the cache unchanged. |
| Client.TargetsShareOneFetch | src/cur/adapters/exchange_rate_client.py:71-78 | Two `get_rate` calls for one fresh base make exactly one GET between them, and the second reads the first's cached rates. |
| Client.GetReadsOneEntry | src/cur/adapters/cache.py:84-100 | What `get` returns depends only on the key's own file. |
| Client.BasesAreCachedIndependently | src/cur/adapters/exchange_rate_client.py:51-56 | Fetching another base in between does not disturb a fresh base's entry, which still answers without a request. |
| Client.FailedFetchCachesNothing | src/cur/adapters/exchange_rate_client.py:58-67 | With nothing cached, a failed GET, a non-2xx status, a non-JSON body or a body missing a field fails the call. One request is made, and the cache is unchanged. |
| Client.ExpiredEntryIsRefetched | src/cur/adapters/exchange_rate_client.py:54-59 | An expired cached entry is not reused: exactly one GET is made. |
| Client.IncompleteCachedPayloadRaises | src/cur/adapters/exchange_rate_client.py:54-56 | For every directory, a fresh envelope under the base's code whose payload is neither null nor a complete response is served and decoded unguarded. It raises KeyError for a missing response key, or TypeError if the payload is not an object, with no request and with the directory unchanged. |
| Client.MissingTargetRaises | src/cur/adapters/exchange_rate_client.py:75-76 | A target missing from the fetched rates raises the ValueError naming it, and the fetched response stays cached. |
| Entity.ByName | src/cur/core/entity.py:24-25 | The member with the given name when one exists, and none only when no member has that name. |
| Entity.Supported | src/cur/core/entity.py:27 | The codes joined in declaration order are "AUD, KRW, USD". |
| Entity.ByNameMembers | src/cur/core/entity.py:16-25 | The lookup succeeds exactly for "AUD", "KRW" and "USD", finding the member with that code. |
| Entity.FromString | src/cur/core/entity.py:21-30 | It succeeds exactly when the stripped, upper-cased text is a supported code, and returns the member with that code. Otherwise it raises the domain's ParseError (imported from `cur.core.exception`), naming the normalised text and listing the codes. |
| Entity.NameIsCode | src/cur/core/entity.py:32-41 | Each member's name, code and `str` agree. |
| Entity.Normalize | src/cur/core/entity.py:23 | `strip().upper()` is no longer than its input, is empty exactly for blank text, neither starts nor ends in whitespace, and holds no ASCII lower-case letter. |
| Entity.NormalizeIdempotent | src/cur/core/entity.py:23 | `strip().upper()` applied twice equals once. |
| Entity.FromNormalizedCode | src/cur/core/entity.py:21-25 | Any text that normalises to a member's code parses to that member. |
| Entity.FromCode | src/cur/core/entity.py:16-34 | Round trip: `from_string(c.code) == c` for every member. |
| Entity.FromStringNormalized | src/cur/core/entity.py:23 | Surrounding whitespace and letter case do not matter: text and its normalised form parse alike. |
| Entity.FromStringPadded | src/cur/core/entity.py:23-25 | " usd " parses to USD. |
| Entity.FromStringUnsupported | src/cur/core/entity.py:26-30 | "GBP" raises "Unsupported currency: GBP. Supported: AUD, KRW, USD". |
| Parser.UnitFromString | src/cur/core/parser.py:15-20 | It succeeds exactly when the upper-cased unit is K, M or B, giving 10^3, 10^6 and 10^9. Otherwise it raises "Invalid unit: {unit}". |
| Parser.Multiplier | src/cur/core/parser.py:10-20 | No unit multiplies by 1. A k, m or b in either case gives the multiplier `UnitMultiplier.from_string` returns for it. |
| Parser.UnitLetters | src/cur/core/parser.py:10-20 | A single character is a unit exactly when it is k, m or b in either case, with the multipliers 10^3, 10^6 and 10^9. |
| Parser.NumberPatternIsNumberText | src/cur/core/parser.py:40-42 | Over ASCII digits, the pattern's number group (digits with an optional '.' and more digits, or a '.' and digits) matches exactly the texts of digits and at most one '.' that contain a digit. |
| Parser.DecimalNumberPattern | src/cur/core/parser.py:40-42 | With `\d` read as every Unicode decimal digit, the number group matches exactly the texts of decimal digits and at most one '.' that contain a digit. |
| Parser.NumberValue | src/cur/core/parser.py:57-58 | The value of a number text is nonnegative, and zero exactly when every digit is 0. |
| Parser.Anchored | src/cur/core/parser.py:40-42 | `$` lets the match end at the end of the text or just before a final newline. |
| Parser.MatchBody | src/cur/core/parser.py:51-55 | A match splits the text into a number text and an optional unit letter. No match means the text is neither a number text nor a number text followed by a unit letter. |
| Parser.MatchIsUnique | src/cur/core/parser.py:51-55 | A number text followed by an optional unit letter matches as exactly that number and that unit. |
| Parser.Checked | src/cur/core/parser.py:57-70 | KELVIN SIGN raises "Invalid unit". Otherwise the result is ok exactly when the number is nonzero, is the number times the unit's multiplier, and is positive. A zero number raises "Amount must be greater than zero". |
| Parser.Scaled | src/cur/core/parser.py:62-63 | The number is multiplied by the unit's multiplier, or by 1 without a unit. KELVIN SIGN raises "Invalid unit". |
| Parser.ParseAmount | src/cur/core/parser.py:45-70 | Blank text raises "Amount cannot be empty". Text whose cleaned form, with its Unicode decimal digits read as ASCII digits, does not match raises "Invalid amount format: {amount}". A match is checked as above, and every result is strictly positive. |
| Parser.ParseAmountStrict | src/cur/core/parser.py:49-53 | With the match spanning the whole cleaned text, blank text is still rejected and every result is positive. An accepted text holds only decimal digits, '.' and unit letters once cleaned. |
| Parser.StrictAgreesWithoutTrailingNewline | src/cur/core/parser.py:51-53 | The two parsers agree on every text whose cleaned form does not end in a newline. |
| Parser.PlainAmountMatches | src/cur/core/parser.py:49-55 | A number text with an optional unit letter is not blank and is its own cleaned text. It matches as that number and unit. |
| Parser.NonzeroDigit | src/cur/core/parser.py:65-66 | A number text is nonzero exactly when one of its digits is 1 to 9. |
| Parser.ParsePlainAmount | src/cur/core/parser.py:45-70 | A number text with an optional k/m/b in either case parses to the number times the multiplier. It is rejected as zero exactly when no digit is 1 to 9. |
| Parser.ParseDecimalAmount | src/cur/core/parser.py:45-70 | A number text over any Unicode decimal digits, with an optional unit letter, parses exactly as its ASCII-digit form. Apart from KELVIN SIGN, it is rejected as zero exactly when no digit has a nonzero value. |
| Parser.FullwidthAmount | src/cur/core/parser.py:40-58 | The fullwidth text "１２" parses as "12" does. |
| Parser.UnitCaseIgnored | src/cur/core/parser.py:62-63 | A lower-case unit letter and its upper case parse alike. |
| Parser.SameMultiplierSameParse | src/cur/core/parser.py:62-63 | Two unit letters with the same multiplier parse alike. |
| Parser.Cleaned | src/cur/core/parser.py:49 | The text matched holds no comma, is no longer than the input, and is empty for blank input. |
| Parser.CommasIgnored | src/cur/core/parser.py:49 | Two stripped texts that are equal once their commas are deleted are accepted alike, with the same value, so "1,000" and "1000" parse equal. |
| Parser.KelvinSignIsInvalidUnit | src/cur/core/parser.py:62-63 | A number text followed by KELVIN SIGN passes the pattern but raises "Invalid unit". |
| Parser.TrailingNewlineAccepted | src/cur/core/parser.py:49-53 | As written, "1\n," keeps a newline after cleaning and is accepted as 1. |
| Parser.StrictRejectsTrailingNewline | src/cur/core/parser.py:49-53 | Matching the whole cleaned text rejects "1\n," as an invalid format. |
| Parser.ParseCurrency | src/cur/core/parser.py:28-37 | It returns the normalised code exactly when that code is supported. Otherwise it raises the parser's own ParseError (parser.py:6-7), not the domain's, with the "Unsupported currency: …" message listing the codes in declaration order. |
| Parser.ParseCurrencyMirrorsDomain | src/cur/core/parser.py:23-37 | The parser's `Currency.from_string` accepts exactly the texts the domain's `Currency.from_string` accepts, with the same code and message. Only the exception class differs. |
| Parser.ParseCurrencyOfCode | src/cur/core/parser.py:73-74 | Every supported code parses to itself. |
| Numbers.RoundHalfEven | src/cur/utils/formatters/korean_formatter.py:18 | The result is an integer within 1/2 of x, and the even one on a tie. |
| Numbers.RoundHalfEvenUnique | src/cur/utils/formatters/korean_formatter.py:18 | Only one integer meets that contract, so the contract defines `round`. |
| Numbers.Trunc | src/cur/utils/formatters/korean_formatter.py:54 | `int(x)` is the integer part of x, truncated toward zero. |
| KoreanFormatter.TakeUnit | src/cur/utils/formatters/korean_formatter.py:24-40 | One grouping block adds a part exactly when the rest reaches `size`, and that part is the comma-grouped count of `size`s followed by the unit. The new rest is below `size`, and the count times `size` plus the new rest is the old rest. |
| KoreanFormatter.PlacesRecompose | src/cur/utils/formatters/korean_formatter.py:24-43 | `num == jo*10^12 + eok*10^8 + man*10^4 + rest`, with eok, man and rest each below 10^4. |
| KoreanFormatter.Groups | src/cur/utils/formatters/korean_formatter.py:24-45 | The parts are at most four, one per place (조, 억, 만, ones), and there are none exactly for 0. |
| KoreanFormatter.GroupsArePositional | src/cur/utils/formatters/korean_formatter.py:24-45 | The source's subtract-and-append blocks write exactly the nonzero base-10^4 digits, at 조, 억, 만 and units in descending order. |
| KoreanFormatter.GroupsNonEmpty | src/cur/utils/formatters/korean_formatter.py:24-45 | A positive number writes at least one group. |
| KoreanFormatter.WholeMan | src/cur/utils/formatters/korean_formatter.py:36-43 | A whole number of 만 below 10^4 is written as that count of 만 alone. |
| KoreanFormatter.SmallPositional | src/cur/utils/formatters/korean_formatter.py:17-18 | A positive number below 10^4 reads as its comma-grouped digits alone. |
| KoreanFormatter.OnlyMainUnit | src/cur/utils/formatters/korean_formatter.py:11-47 | 0 gives "0{unit}". An amount that rounds to a positive integer gives that integer's 조/억/만 reading, joined by single spaces and followed directly by the unit. A nonzero amount that rounds to 0 or below gives that integer with thousands separators and a leading '-' if negative, then the unit. |
| KoreanFormatter.SplitAsWritten | src/cur/utils/formatters/korean_formatter.py:54-55 | The whole part is `int(amount)`, truncated toward zero: for a nonnegative amount it is at most the amount, with hundredths from 0 to 100; for a negative one it is at least the amount, with hundredths from -100 to 0. Whole plus hundredths is always within half a hundredth of the amount. |
| KoreanFormatter.WholeTextPositional | src/cur/utils/formatters/korean_formatter.py:59-87 | A positive whole part is written as its 조/억/만 reading, both below and from 1000. |
| KoreanFormatter.WithSubunit | src/cur/utils/formatters/korean_formatter.py:57-95 | The whole part and the cents part each appear only when positive, in that order. With neither, the result is "0 {main_unit}". |
| KoreanFormatter.FormatKorean | src/cur/utils/formatters/korean_formatter.py:4-8 | The subunit path is taken exactly when the currency has a subunit name. Otherwise the main-unit path is taken. |
| KoreanFormatter.HundredCentsAsWritten | src/cur/utils/formatters/korean_formatter.py:54-55 | As written, 1.999 splits into 1 and 100 hundredths and reads "1 달러 100 센트". |
| KoreanFormatter.SplitRounded | src/cur/utils/formatters/korean_formatter.py:54-55 | With the amount rounded to hundredths before splitting, the hundredths stay below 100. The two parts recompose the rounded amount and are nonnegative for a nonnegative amount. |
| KoreanFormatter.FormatKoreanRounded | src/cur/utils/formatters/korean_formatter.py:4-8 | `format_korean` over the carrying split, with the same path choice. |
| KoreanFormatter.HundredCentsCarried | src/cur/utils/formatters/korean_formatter.py:54-55 | With the carry, 1.999 is 2 whole units and 0 hundredths. |
| KoreanFormatter.SplitsAgreeBelowHundred | src/cur/utils/formatters/korean_formatter.py:54-55 | The two splits agree whenever the hundredths as written are below 100. |
| KoreanFormatter.Won1385000 | tests/unit/test_korean_formatter.py:47 | 1385000 won gives "138만 5,000원". |
| KoreanFormatter.Dollars150000000 | tests/unit/test_korean_formatter.py:39 | 150000000 dollars gives "1억 5,000만 달러". |
| KoreanFormatter.Dollars1500000000000 | tests/unit/test_korean_formatter.py:44 | 1500000000000 dollars gives "1조 5,000억 달러". |
| KoreanFormatter.Dollars15000And50 | tests/unit/test_korean_formatter.py:30 | 15000.50 dollars gives "1만 5,000 달러 50 센트". |
| KoreanFormatter.DollarsZero | tests/unit/test_korean_formatter.py:12 | 0 dollars gives "0 달러". |
| NumberFormatter.FirstSuffix | src/cur/utils/formatters/number_formatter.py:45-47 | The first of K, M, B, in that order, that occurs in the text. None only when none occurs. |
| NumberFormatter.Trim | src/cur/utils/formatters/number_formatter.py:48-52 | `rstrip("0").rstrip(".")` returns a prefix that does not end in '.'. What it drops is the whole run of trailing '0's, then the dots just before that run. |
| NumberFormatter.RemoveTrailingZeros | src/cur/utils/formatters/number_formatter.py:27-54 | Text without '.' is returned unchanged. It raises ValueError exactly when the first suffix occurs more than once. Without a suffix the whole text is trimmed. Otherwise the part before the suffix is trimmed and the suffix is put back. |
| NumberFormatter.RemoveTrailingZerosTrims | src/cur/utils/formatters/number_formatter.py:27-54 | On text with one '.', the output's number part does not end in '.', nor in '0' when it keeps a '.'. |
| NumberFormatter.RemoveTrailingZerosIdempotent | src/cur/utils/formatters/number_formatter.py:27-54 | Trimming the output again gives the same output. |
| NumberFormatter.TrimsBeforeSuffix | src/cur/utils/formatters/number_formatter.py:37-39 | "1.50M" gives "1.5M". |
| NumberFormatter.TrimsWithoutSuffix | src/cur/utils/formatters/number_formatter.py:40-41 | "1,385,000.00" gives "1,385,000". |
| NumberFormatter.Round | src/cur/utils/formatters/number_formatter.py:1-6 | `.1f`/`.2f`: exactly that many fraction digits, which together with the integer part make the magnitude rounded half to even at that decimal. The sign is the sign of x. |
| NumberFormatter.RenderTrimmed | src/cur/utils/formatters/number_formatter.py:1-6 | The trimmer turns `format`'s fixed-point text into the shown text: trailing fraction zeros removed, and the '.' too when nothing is left. |
| NumberFormatter.FormatWithCommas | src/cur/utils/formatters/number_formatter.py:1-2 | The shown text is the rounded number with thousands separators, and it is trimmed. |
| NumberFormatter.FormatPlain | src/cur/utils/formatters/number_formatter.py:5-6 | The shown text is the rounded number without separators, and it is trimmed. |
| NumberFormatter.CommasDeletedIsPlain | src/cur/utils/formatters/number_formatter.py:1-6 | `format_with_commas(x)` with its commas deleted is `format_plain(x)`. |
| NumberFormatter.Abbreviate | src/cur/utils/formatters/number_formatter.py:12-24 | The quotient by the suffix's power of ten, shown at one decimal, then trimmed, with the suffix appended. |
| NumberFormatter.FormatShort | src/cur/utils/formatters/number_formatter.py:9-24 | A number with a suffix is abbreviated with it. Below 1000 the result is `format_plain`. |
| NumberFormatter.ShortSuffix | src/cur/utils/formatters/number_formatter.py:12-22 | There is no suffix exactly below 1000. Otherwise the suffix stands for the largest of 10^3, 10^6, 10^9 not above the number: the number is at least that scale and, below B, under a thousand times it. |
| NumberFormatter.ShortSuffixByThreshold | src/cur/utils/formatters/number_formatter.py:12-22 | The output ends in B exactly from 10^9, in M exactly from 10^6 below 10^9, in K exactly from 10^3 below 10^6, and otherwise in a digit. |
| NumberFormatter.ShortMillions | tests/unit/test_number_formatter.py:45 | 1234000 gives "1.2M". |
| NumberFormatter.ShortMillionsUp | tests/unit/test_number_formatter.py:46 | 1260000 gives "1.3M". |
| NumberFormatter.ShortOneMillion | tests/unit/test_number_formatter.py:44 | 1000000 gives "1M". |
| NumberFormatter.ShortBillion | tests/unit/test_number_formatter.py:43 | 1000000000 gives "1B". |
| NumberFormatter.ShortThousands | tests/unit/test_number_formatter.py:47 | 1234 gives "1.2K". |
| NumberFormatter.ShortThousandsFraction | tests/unit/test_number_formatter.py:48 | 1234.5678 gives "1.2K". |
| NumberFormatter.ShortThousandsUp | tests/unit/test_number_formatter.py:49 | 1452.67 gives "1.5K". |
| NumberFormatter.ShortHundred | tests/unit/test_number_formatter.py:50 | 100 gives "100". |
| NumberFormatter.CommasMillionExample | tests/unit/test_number_formatter.py:13 | `format_with_commas(1000000)` is "1,000,000". |
| NumberFormatter.CommasCents | tests/unit/test_number_formatter.py:14 | 1452.67 gives "1,452.67". |
| NumberFormatter.CommasRounded | tests/unit/test_number_formatter.py:15 | 1234.5678 gives "1,234.57". |
| NumberFormatter.CommasWhole | tests/unit/test_number_formatter.py:16 | 1234 gives "1,234". |
| NumberFormatter.ThousandKAsWritten | src/cur/utils/formatters/number_formatter.py:18-20 | As written, 999999 gives "1000K". |
| NumberFormatter.CarriedSuffix | src/cur/utils/formatters/number_formatter.py:12-22 | With the suffix chosen after rounding, B is chosen exactly from 10^9 or when the M quotient rounds to 1000.0. No suffix is chosen exactly below 1000. |
| NumberFormatter.FormatShortCarried | src/cur/utils/formatters/number_formatter.py:9-24 | `format_short` over the carried suffix. |
| NumberFormatter.CarriedBelowThousand | src/cur/utils/formatters/number_formatter.py:18-20 | With the carry, a K or M quotient always shows below 1000. |
| NumberFormatter.CarriedAgrees | src/cur/utils/formatters/number_formatter.py:9-24 | The carried form equals the written one wherever the written K or M quotient shows below 1000. |
| NumberFormatter.ThousandKCarried | src/cur/utils/formatters/number_formatter.py:18-20 | With the carry, 999999 gives "1M". |
| Text.Strip | src/cur/core/parser.py:49 | `strip()` returns an infix of the text with only whitespace before and after it. The result neither starts nor ends in whitespace, and is empty exactly for blank text. |
| Text.StripIdempotent | src/cur/core/parser.py:49 | Stripping twice is stripping once. |
| Text.Replace | src/cur/adapters/cache.py:45 | `replace` of one character keeps the length and substitutes every occurrence, leaving other characters alone. |
| Text.Delete | src/cur/core/parser.py:49 | `replace(",", "")` leaves no comma, keeps text without commas unchanged and adds no character. |
| Text.DeleteAppend | src/cur/core/parser.py:49 | Deleting a character from a concatenation deletes it from each part. |
| Text.DigitsValueOf | src/cur/utils/formatters/number_formatter.py:5-6 | Digit text without a leading zero is the decimal rendering of its own value. |
| Text.CommasWithoutCommas | src/cur/utils/formatters/number_formatter.py:1-2 | `f"{n:,d}"` with its commas deleted is `f"{n}"`. |
| Decimal.Value | src/cur/core/parser.py:40-42 | An ASCII digit has its own value, and no other character below U+0660 is a decimal digit. Every value found is below 10. |
| Decimal.FullwidthOneTwo | src/cur/core/parser.py:40-42 | FULLWIDTH DIGIT ONE and TWO are decimal digits with values 1 and 2. |
| Decimal.KelvinSignNotDecimal | src/cur/core/parser.py:40-42 | KELVIN SIGN is not a decimal digit. |
| Decimal.AsciiChar | src/cur/core/parser.py:57-58 | `float()` reads a decimal digit as the ASCII digit of the same value, and keeps every other character. The result is an ASCII digit exactly when the input is a decimal digit. |
| Decimal.AsciiAppend | src/cur/core/parser.py:57-58 | Reading digits as ASCII commutes with concatenation. |
| Decimal.AsciiAt | src/cur/core/parser.py:57-58 | Reading digits as ASCII works character by character. |

## Left out

- HTTP transport: the httpx client, its base URL and text decoding of the body. It is an oracle returning no response or a status with a parsed body (or none, for text that is not JSON). `raise_for_status` is modelled as "2xx or raise".
- Filesystem details: directory creation, `platformdirs`, `glob` order and the `indent=2` encoding. Stored values are kept parsed. A file is either `Corrupt` (its text is not JSON) or holds a JSON value. `list_keys` returns a set, since its order is unspecified and `clear` deletes every listed key whatever the order.
- The missing-directory branch of `list_keys` (src/cur/adapters/cache.py:71-72): the directory is created on construction, so it is not modelled.
- `time.time()` is the parameter `now`, already truncated to whole seconds.
- Floating point: amounts, quotients and rates are exact reals. Binary rounding, NaN and infinities are not modelled, so `round` and `.1f`/`.2f` round the exact value half to even.
- The `float()` failure branch of `parse_amount` (src/cur/core/parser.py:59-60) and its negative-amount branch (67-68) are unreachable under the pattern. The model proves every result positive instead.
- Unicode `strip()` and `upper()` are modelled for ASCII whitespace and letters only. The pattern's `\d` and `float()` are modelled for every Unicode decimal digit (category Nd, the 68 blocks of ten in Unicode 15.0), which `parse_amount` reads as the ASCII digit of the same value. KELVIN SIGN, which matches `k` under IGNORECASE, is modelled too. Other non-ASCII characters that match `[kmb]` under IGNORECASE, and non-ASCII whitespace, are not modelled.
- Parser.NumberPatternIsNumberText: stated for text whose digits are already ASCII, the form `parse_amount` matches against. Parser.DecimalNumberPattern states the same equivalence for text over every Unicode decimal digit.
- Storage.Read: a file whose bytes are not valid text in the locale's encoding makes `open(...).read` raise UnicodeDecodeError (src/cur/adapters/cache.py:55-56). That is not a JSONDecodeError, so it escapes `read`, and `get` too, since its call at line 85 is outside its `try`. The model has no bytes: such a file is `Corrupt`, and the model deletes it and returns nothing instead of raising.
- The formatters take the currency's names as a parameter `(korean name, subunit name)`. `format_korean` reads `currency.subunit_name`, which `CurrencyInfo` in src/cur/core/entity.py does not define, so with that entity it would raise AttributeError. The tests assume other names ("달러", "센트").
- The parser's own `Currency` enum (src/cur/core/parser.py:23-37) is not a separate datatype. `Parser.ParseCurrency` makes the domain's lookup (`Entity.ByName`), which has the same members, codes, normalisation and message, and raises the parser's `ParseError`. The domain's `ParseError` is a different class, `Errors.DomainParseError`. Its defining module, `cur.core.exception`, is not part of this model.
- src/cur/services/conversion.py, src/cur/entrypoints/cli.py and src/cur/bootstrap.py are not part of this model: glue, console output and wiring.
- Concurrency and races on the cache directory are not modelled: the code has no locking.
- Client.FromDict: states that the KeyError names some missing required key, not that it is the first missing one in the order the source reads them.
- NumberFormatter.RemoveTrailingZerosTrims: stated for text with at most one '.', which is what every formatter passes. On "1.0.0" the trimmer returns "1.0".
- NumberFormatter.RemoveTrailingZerosIdempotent: stated for text with at most one '.', for the same reason.
- NumberFormatter.FormatShortCarried: changes only which suffix is chosen. Text below 1000 is still `format_plain`.

## Findings

| source | as written | input that shows it | evidently intended | confidence | as-written member | corrected member |
|---|---|---|---|---|---|---|
| src/cur/adapters/cache.py:70-77 | `list_keys` returns `Path.stem`, which for the empty key's file `.json` is ".json", so `clear` deletes `.json.json` and keeps the entry | `set("", d, e)` then `clear()` | `clear` removes every cache file | not executed | Cache.ClearKeepsEmptyKey | Cache.ClearedFixed |
| src/cur/core/parser.py:49-53 | `$` matches before a final newline, and a newline followed by commas survives `strip()` | `parse_amount("1\n,")` returns 1.0 | the match spans the whole cleaned text | not executed | Parser.TrailingNewlineAccepted | Parser.StrictRejectsTrailingNewline |
| src/cur/utils/formatters/korean_formatter.py:54-55 | the hundredths are rounded after the whole part is cut off, so they can reach 100 | 1.999 with subunit names gives "1 달러 100 센트" | round to hundredths first, so it reads "2 달러" | not executed | KoreanFormatter.HundredCentsAsWritten | KoreanFormatter.HundredCentsCarried |
| src/cur/utils/formatters/number_formatter.py:12-20 | the suffix is chosen before rounding to one decimal | `format_short(999999)` gives "1000K" | "1M" | not executed | NumberFormatter.ThousandKAsWritten | NumberFormatter.ThousandKCarried |
