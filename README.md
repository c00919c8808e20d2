# TiCaching in Dafny

TiCaching is a persistent key/value cache for Titanium applications. It keeps
one SQLite table, `cache`, with a UNIQUE `key` column, an absolute expiry
`time` in whole seconds and a `data` column holding the JSON text of the cached
value. `save` upserts a row, `get` returns the decoded data unless the clock
has passed the row's time (expiry is checked lazily, on read), `del` deletes
one row, `clear` deletes the expired rows or all of them, and `exists` reports
whether a row is present, whatever its time.

The model has five modules:

- `Wrappers`: `Option`, used for JavaScript arguments that may be `undefined`.
- `Codec`: the value handed to `save` (`Datum`: `Undefined` or a JSON value), the
  stored text (`Text`: empty or the serialisation of a value), `Encode`, the
  source's `Parse` (`JSON.parse`) and the model's `Decode`. JSON is not modelled:
  a stored text is a free representation of its value, so the round trip
  `JSON.parse(JSON.stringify(v)) == v` holds by construction.
- `Expiration`: the default lifetime of 30 seconds, the expiry computation and
  the two boundary tests (`get`'s `now > time`, `clear(true)`'s `time < now`).
- `CacheTable`: the table as a `map` from key to `Entry(time, data)` and the
  effect of each SQL statement as a function on it, with the lemmas that relate
  the operations (round trip, upsert, targeted delete, what `clear` keeps).
- `TiCaching`: the class `Cache` with the fields `table` and `now` (the injected
  clock) and the methods `Get`, `Save`, `Del`, `Clear`, `Exists`, each proved
  against the `CacheTable` functions; three client methods check whole
  sequences of calls: a value saved for 5 seconds that expires, a key saved
  with no value, and a key that was never written.

Points where the code is more precise than a first reading suggests, and one
place where the model departs from it:

- A strict reading of validity (`now < time`) would reject a row at its
  deadline; the code rejects a row only when `now > time` (ticaching.js:57),
  so a row whose time equals the clock is still returned
  (`CacheTable.LookUpAtDeadline`). The model follows the code.
- `del` does not compute whether a row existed; it returns whatever `execute`
  returns (ticaching.js:114). The model returns `true` when the statement ran.
- The one departure: `save` stores `''` for an undefined value
  (ticaching.js:83), and `get` then calls `JSON.parse('')`, which throws (see
  Findings). The model decodes the empty text to `Undefined`, so `Cache.Get`
  and `TiCaching.UndefinedScenario` return `Hit(Undefined)` where the source
  throws; `CacheTable.LookUpAsWritten` keeps the source's behaviour.

## Model

| member | source | states |
|---|---|---|
| Codec.DecodeEncode | ticaching.js:83 | decoding the text `save` stores gives back the value, `undefined` included |
| Codec.EncodeDecode | ticaching.js:48 | every stored text is the encoding of what it decodes to |
| Codec.ParseFailsOnlyOnEmpty | ticaching.js:48 | over the texts `save` stores, `JSON.parse` fails exactly on the empty text stored for `undefined`, and agrees with the model's decoding on the rest |
| Expiration.StaleIffExpired | ticaching.js:134-135 | the rows `clear(true)` deletes are exactly the rows `get` rejects at the same clock |
| Expiration.LiveWindow | ticaching.js:85 | a row saved with lifetime `ttl` (default 30) is readable at `later` iff `later - now <= ttl` |
| Expiration.FreshIffNonNegative | ticaching.js:57 | at the writing instant a row reads back iff its lifetime is absent or not negative |
| CacheTable.Select | ticaching.js:43 | the cursor yields at most one row per key, none iff the key is absent, and that row is the stored one |
| CacheTable.Saved | ticaching.js:83-90 | after an upsert the key is present with expiry `now + ttl` (or `now + 30`) and data decoding to the value, empty exactly for `undefined`; other rows are unchanged and no key is added besides it |
| CacheTable.Deleted | ticaching.js:114 | the delete removes exactly the key's row and keeps every other row unchanged |
| CacheTable.Cleared | ticaching.js:130-141 | a row survives `clear` iff the argument is the literal `true` and its time is not before the clock; survivors are unchanged |
| CacheTable.LookUpMissIff | ticaching.js:43-63 | `get` misses iff the key has no row or the clock has passed its time; otherwise it returns the decoded data |
| CacheTable.LookUpAtDeadline | ticaching.js:57 | a row whose time equals the clock is still returned |
| CacheTable.AsWrittenAgreesOffEmpty | ticaching.js:45-52 | the source's `get` throws exactly on a row with empty text and otherwise answers as the model does |
| CacheTable.SaveUndefinedThenGetThrows | ticaching.js:83 | `save(k, undefined)` then `get(k)` throws in the source at any time, while the model returns `undefined` within the lifetime |
| CacheTable.SavedSize | ticaching.js:26 | an upsert adds one row for a new key and none for an existing key |
| CacheTable.SaveTwice | ticaching.js:90 | a second save of a key replaces the first one entirely |
| CacheTable.SaveThenGet | ticaching.js:85 | with a non-negative or default lifetime, `get` right after `save` returns the saved value |
| CacheTable.SaveExpiredThenGet | ticaching.js:157-161 | with a negative lifetime, `get` right after `save` misses while the row is present |
| CacheTable.SaveThenGetLater | ticaching.js:57 | a saved value is returned up to and including its expiry second and missed after it |
| CacheTable.SaveIsolated | ticaching.js:90 | saving one key does not change what `get` answers for another key |
| CacheTable.DeleteThenGet | ticaching.js:105-120 | after `del(k)` the key is absent and `get(k)` misses; other keys answer as before |
| CacheTable.DeletedSize | ticaching.js:114 | `del` removes one row if the key was present and none otherwise |
| CacheTable.ClearAll | ticaching.js:132-134 | `clear` with `false`, `undefined` or any argument but the literal `true` empties the table |
| CacheTable.ClearExpiredUnobservable | ticaching.js:135 | after `clear(true)` at `now`, `get` at `now` or later answers for every key as it would have before |
| CacheTable.ClearKeepsLive | ticaching.js:135 | every row `clear(true)` keeps is still returned by `get` at the same clock |
| CacheTable.ClearExpiredSize | ticaching.js:135 | `clear(true)` keeps exactly the non-stale rows; kept and deleted rows partition the table |
| TiCaching.Cache.constructor | ticaching.js:26 | opening the cache keeps the rows already stored |
| TiCaching.Cache.SetClock | ticaching.js:172-174 | the clock takes the given value and the table is unchanged |
| TiCaching.Cache.Get | ticaching.js:37-64 | an undefined key misses; otherwise the cursor loop's answer is the table's `LookUp` at the current clock |
| TiCaching.Cache.Save | ticaching.js:76-95 | an undefined key or a failing statement returns false and leaves the table alone; otherwise the table becomes the upserted one |
| TiCaching.Cache.Del | ticaching.js:105-120 | an undefined key or a failing statement returns false and leaves the table alone; otherwise exactly the key's row is removed |
| TiCaching.Cache.Clear | ticaching.js:130-146 | a failing statement leaves the table alone; otherwise the table becomes the cleared one |
| TiCaching.Cache.Exists | ticaching.js:156-162 | true iff the key is defined and has a row, ignoring its time; the table is not changed |
| TiCaching.ExpiryScenario | ticaching.js:37-64 | a value saved for 5 seconds is returned at once, missed 6 seconds later while still present, and absent after `del` |
| TiCaching.UndefinedScenario | ticaching.js:83-85 | `save("x", undefined)` with the default lifetime reads back as `undefined` throughout its 30 seconds |
| TiCaching.NeverWritten | ticaching.js:156-162 | a key that has no row is missed by `get` and not present for `exists` |

## Findings

| source | as written | input that shows it | evidently intended | confidence | as-written member | corrected member |
|---|---|---|---|---|---|---|
| ticaching.js:48 | `get` runs `JSON.parse` on the stored text inside the cursor loop, before the expiry test and with no `try`; `save` stores `''` for an undefined value (ticaching.js:83), and `JSON.parse('')` throws | `save('x')` then `get('x')` | `get` returns the data previously cached, as its doc comment says (ticaching.js:28-30); line 83 deliberately stores `''` for `undefined`, so reading it back should give `undefined`, not an exception | not executed; high, `JSON.parse('')` is a syntax error in ECMAScript; it assumes the database driver hands the stored `''` back as `''` and not as `null` | CacheTable.SaveUndefinedThenGetThrows | CacheTable.LookUp |

`CacheTable.LookUpAsWritten` models the source's `get`; `CacheTable.LookUp`,
used by `TiCaching.Cache.Get`, decodes the empty text to `Undefined`, and
`Codec.DecodeEncode` with `CacheTable.SaveThenGet` prove the round trip for it.

## Left out

- Opening the database, the iCloud backup switch and the platform test (ticaching.js:13-21): platform I/O.
- `PRAGMA read_uncommitted=true` (ticaching.js:23): concurrent isolation; the model is sequential.
- The SQL text, the cursor API and the logging calls: only the statements' effect on the table is modelled.
- The exact values `execute` returns from `save`, `del` and `clear` (ticaching.js:90, 114, 141): foreign; modelled as a boolean that is true when the statement ran.
- Storage failure is an injected `fault` argument: the failing statement leaves the table unchanged and the operation returns false (the source returns `undefined` from its `catch`).
- `get` has no `try`: a failing SELECT would throw out of it; the model has no failing read.
- `JSON.stringify` throwing (a cyclic value) or returning `undefined` (a function) in `save` (ticaching.js:83): `Encode` is total.
- Values that do not survive a JSON round trip (dates, `NaN`, `-0`): the codec is a free representation.
- `get` returns the JavaScript value `false` for a miss, so a cached `false` cannot be told from a miss; the model keeps them apart (`Miss` against `Hit(Json(false))`).
- Keys that are `null` or not strings: keys are `Option<string>`.
- Lifetimes are JavaScript numbers (doubles), modelled as `Option<int>` with unbounded integers. Not modelled: strings and fractions; the rounding of `time + this.time()` (ticaching.js:85) once the sum passes 2^53; `Infinity` and `NaN`; and a `null` lifetime, which passes the `typeof time == 'undefined'` test and is added as 0, so it expires at `now` (the model's `Some(0)`).
- Stored text that `save` did not write (a corrupt row, or a row from another writer): `Text` holds only the empty text and serialised values, so a malformed text on which `JSON.parse` in `get` would throw cannot be represented.
- `exists(undefined)` is modelled as false: the source binds `undefined` to `key=?`, which matches no row written through `save`.
- The clock `Math.floor(new Date().getTime() / 1000)` (ticaching.js:173): floating point and the wall clock; replaced by the field `now`, set with `SetClock`. Each operation reads it once; the second read in `get`'s log line is omitted.
- The module-level singleton (ticaching.js:178): callers construct `Cache` objects themselves.
