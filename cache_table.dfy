/**
 * The `cache` table and the effect of each statement the engine runs on it,
 * as functions of the table's contents. The column `key` is UNIQUE, so the
 * table is a map from key to its one row.
 */
module CacheTable {

  import opened Wrappers
  import opened Codec
  import opened Expiration

  /** One row of the table: its absolute expiry `time` and its `data` text. */
  datatype Entry<V> = Entry(time: int, data: Text<V>)

  type Table<V> = map<string, Entry<V>>

  /** What `get` answers: `false` (a miss) or the decoded data. */
  datatype Lookup<V> = Miss | Hit(value: Datum<V>)

  /** `get` as the source writes it may also end by throwing out of `JSON.parse`. */
  datatype Reply<V> = Returned(answer: Lookup<V>) | Threw

  /** The rows `SELECT * from cache WHERE key = ? LIMIT 1` yields, in cursor order. */
  function Select<V>(t: Table<V>, key: string): (rows: seq<Entry<V>>)
    ensures |rows| <= 1
    ensures rows == [] <==> key !in t
    ensures forall i :: 0 <= i < |rows| ==> rows[i] == t[key]
  {
    if key in t then [t[key]] else []
  }

  /** The answer of `get(key)`, with the empty text decoding to `undefined`. */
  function LookUp<V>(t: Table<V>, key: string, now: int): (r: Lookup<V>)
  {
    if key !in t || Expired(now, t[key].time) then Miss else Hit(Decode(t[key].data))
  }

  /**
   * The answer of `get(key)` as the source computes it: the cursor loop parses
   * the row's text before the expiry is looked at, and `JSON.parse` throws on
   * the empty text.
   */
  function LookUpAsWritten<V>(t: Table<V>, key: string, now: int): (r: Reply<V>)
  {
    if key !in t then Returned(Miss)
    else match Parse(t[key].data)
      case SyntaxError => Threw
      case Parsed(v) => Returned(if Expired(now, t[key].time) then Miss else Hit(Json(v)))
  }

  /** The table after `INSERT OR REPLACE INTO cache (key,data,time)` for `save(key, d, ttl)` at `now`. */
  function Saved<V>(t: Table<V>, key: string, d: Datum<V>, ttl: Option<int>, now: int): (r: Table<V>)
    ensures r.Keys == t.Keys + {key}
    ensures r[key].time == Expiry(now, ttl) && Decode(r[key].data) == d
    ensures d == Undefined <==> r[key].data == Empty
    ensures forall k :: k in t && k != key ==> r[k] == t[k]
  {
    t[key := Entry(Expiry(now, ttl), Encode(d))]
  }

  /** The table after `DELETE FROM cache WHERE key=?`. */
  function Deleted<V>(t: Table<V>, key: string): (r: Table<V>)
    ensures r.Keys == t.Keys - {key}
    ensures forall k :: k in r ==> r[k] == t[k]
  {
    t - {key}
  }

  /**
   * The table after `clear(expiredOnly)`: only the literal `true` restricts the
   * DELETE to stale rows; `false`, `undefined` and anything else delete every row.
   */
  function Cleared<V>(t: Table<V>, expiredOnly: Option<bool>, now: int): (r: Table<V>)
    ensures r.Keys <= t.Keys
    ensures forall k :: k in r ==> r[k] == t[k]
    ensures forall k :: k in t ==> (k in r <==> expiredOnly == Some(true) && !Stale(now, t[k].time))
  {
    if expiredOnly == Some(true) then map k | k in t && !Stale(now, t[k].time) :: t[k] else map[]
  }

  /** The keys of the rows `clear(true)` at `now` deletes. */
  function StaleKeys<V>(t: Table<V>, now: int): (keys: set<string>)
  {
    set k | k in t && Stale(now, t[k].time)
  }

  // ---------------------------------------------------------------- get

  /** `get` misses exactly when there is no row for the key or the clock has passed the row's time. */
  lemma LookUpMissIff<V>(t: Table<V>, key: string, now: int)
    ensures LookUp(t, key, now) == Miss <==> (key !in t || now > t[key].time)
    ensures LookUp(t, key, now).Hit? ==> LookUp(t, key, now).value == Decode(t[key].data)
  {
  }

  /** A row whose time equals the clock is still returned. */
  lemma LookUpAtDeadline<V>(t: Table<V>, key: string, now: int)
    requires key in t && t[key].time == now
    ensures LookUp(t, key, now) == Hit(Decode(t[key].data))
  {
  }

  /** Where the source does not throw, it answers what the model answers; it throws exactly on an empty text. */
  lemma AsWrittenAgreesOffEmpty<V>(t: Table<V>, key: string, now: int)
    ensures LookUpAsWritten(t, key, now) == Threw <==> key in t && t[key].data == Empty
    ensures LookUpAsWritten(t, key, now) != Threw ==>
              LookUpAsWritten(t, key, now) == Returned(LookUp(t, key, now))
  {
  }

  /**
   * `save(key, undefined)` followed by `get(key)` throws in the source, even
   * within the lifetime of the row, while the model returns `undefined`.
   */
  lemma SaveUndefinedThenGetThrows<V>(t: Table<V>, key: string, ttl: Option<int>, now: int, later: int)
    ensures LookUpAsWritten(Saved(t, key, Undefined, ttl, now), key, later) == Threw
    ensures later <= Expiry(now, ttl) ==>
              LookUp(Saved(t, key, Undefined, ttl, now), key, later) == Hit(Undefined)
  {
  }

  // ---------------------------------------------------------------- save

  /** `save` adds at most one row, and one exactly when the key was new. */
  lemma SavedSize<V>(t: Table<V>, key: string, d: Datum<V>, ttl: Option<int>, now: int)
    ensures |Saved(t, key, d, ttl, now)| == if key in t then |t| else |t| + 1
  {
  }

  /** Upsert: a second `save` of the same key replaces the first entirely. */
  lemma SaveTwice<V>(t: Table<V>, key: string, d1: Datum<V>, ttl1: Option<int>, now1: int,
                     d2: Datum<V>, ttl2: Option<int>, now2: int)
    ensures Saved(Saved(t, key, d1, ttl1, now1), key, d2, ttl2, now2) == Saved(t, key, d2, ttl2, now2)
  {
  }

  /** Round trip: with a non-negative (or the default) lifetime, `get` right after `save` returns the value. */
  lemma SaveThenGet<V>(t: Table<V>, key: string, d: Datum<V>, ttl: Option<int>, now: int)
    requires ttl.None? || ttl.value >= 0
    ensures LookUp(Saved(t, key, d, ttl, now), key, now) == Hit(d)
  {
  }

  /** With a negative lifetime the row is written but already expired: `get` misses while the key is present. */
  lemma SaveExpiredThenGet<V>(t: Table<V>, key: string, d: Datum<V>, ttl: int, now: int)
    requires ttl < 0
    ensures LookUp(Saved(t, key, d, Some(ttl), now), key, now) == Miss
    ensures key in Saved(t, key, d, Some(ttl), now)
  {
  }

  /** A saved value stays readable up to and including its expiry second, and then misses until rewritten. */
  lemma SaveThenGetLater<V>(t: Table<V>, key: string, d: Datum<V>, ttl: Option<int>, now: int, later: int)
    ensures LookUp(Saved(t, key, d, ttl, now), key, later) ==
            if later <= Expiry(now, ttl) then Hit(d) else Miss
  {
  }

  /** `save` of one key does not change what `get` answers for any other key. */
  lemma SaveIsolated<V>(t: Table<V>, key: string, d: Datum<V>, ttl: Option<int>, now: int, other: string, at: int)
    requires other != key
    ensures LookUp(Saved(t, key, d, ttl, now), other, at) == LookUp(t, other, at)
  {
  }

  // ---------------------------------------------------------------- del

  /** After `del(key)` the key is absent and `get` misses; every other key answers as before. */
  lemma DeleteThenGet<V>(t: Table<V>, key: string, now: int, other: string)
    ensures key !in Deleted(t, key) && LookUp(Deleted(t, key), key, now) == Miss
    ensures other != key ==> LookUp(Deleted(t, key), other, now) == LookUp(t, other, now)
  {
  }

  /** `del` removes one row when the key was present and none otherwise. */
  lemma DeletedSize<V>(t: Table<V>, key: string)
    ensures |Deleted(t, key)| == if key in t then |t| - 1 else |t|
  {
  }

  // ---------------------------------------------------------------- clear

  /** `clear` with anything but the literal `true` empties the table. */
  lemma ClearAll<V>(t: Table<V>, expiredOnly: Option<bool>, now: int)
    requires expiredOnly != Some(true)
    ensures Cleared(t, expiredOnly, now) == map[]
  {
  }

  /**
   * `clear(true)` at `now` cannot be observed through `get` at `now` or later:
   * every kept row answers as before and every deleted row was already a miss.
   */
  lemma ClearExpiredUnobservable<V>(t: Table<V>, now: int, key: string, later: int)
    requires now <= later
    ensures LookUp(Cleared(t, Some(true), now), key, later) == LookUp(t, key, later)
  {
  }

  /** Every row `clear(true)` keeps is still returned by `get` at the same instant. */
  lemma ClearKeepsLive<V>(t: Table<V>, now: int, key: string)
    requires key in Cleared(t, Some(true), now)
    ensures LookUp(Cleared(t, Some(true), now), key, now) == Hit(Decode(t[key].data))
  {
  }

  /** `clear(true)` deletes exactly the stale rows: the kept and the deleted rows together make up the table. */
  lemma ClearExpiredSize<V>(t: Table<V>, now: int)
    ensures Cleared(t, Some(true), now).Keys == t.Keys - StaleKeys(t, now)
    ensures |Cleared(t, Some(true), now)| + |StaleKeys(t, now)| == |t|
  {
  }
}
