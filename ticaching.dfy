/**
 * The cache engine: one object holding the persistent `cache` table and a
 * clock. The operations `get`, `save`, `del`, `clear` and `exists` read and
 * rewrite the table in place; the clock stands in for the platform time and
 * is set by the caller.
 */
module TiCaching {

  import opened Wrappers
  import opened Codec
  import opened Expiration
  import opened CacheTable

  /** The expiry and decoded data `get` keeps from the last row of its cursor. */
  datatype Fetched<V> = Fetched(time: int, data: Datum<V>)

  class Cache<V> {
    /** The rows of the `cache` table, one per key. */
    var table: map<string, Entry<V>>
    /** The current Unix time in whole seconds. */
    var now: int

    /** Opening the database keeps whatever rows it already holds (`CREATE TABLE IF NOT EXISTS`). */
    constructor (stored: map<string, Entry<V>>, clock: int)
      ensures table == stored && now == clock
    {
      table := stored;
      now := clock;
    }

    /** The clock moves to `clock` (forwards or backwards); the table is untouched. */
    method SetClock(clock: int)
      modifies this
      ensures now == clock && table == old(table)
    {
      now := clock;
    }

    /**
     * `get(key)`: a miss for an undefined key, a missing row or a row whose
     * time the clock has passed; otherwise the decoded data of the row.
     */
    method Get(key: Option<string>) returns (r: Lookup<V>)
      ensures key.None? ==> r == Miss
      ensures key.Some? ==> r == LookUp(table, key.value, now)
    {
      if key.None? {
        return Miss;
      }
      var rows := Select(table, key.value);
      var ret: Option<Fetched<V>> := None;
      var i := 0;
      while i < |rows|
        invariant 0 <= i <= |rows|
        invariant i == 0 ==> ret == None
        invariant i > 0 ==> ret == Some(Fetched(rows[i - 1].time, Decode(rows[i - 1].data)))
      {
        ret := Some(Fetched(rows[i].time, Decode(rows[i].data)));
        i := i + 1;
      }
      if ret.None? || Expired(now, ret.value.time) {
        r := Miss;
      } else {
        r := Hit(ret.value.data);
      }
    }

    /**
     * `save(key, d, ttl)`: rejected for an undefined key; otherwise one upsert
     * of the row for `key`. A failing statement (`fault`) leaves the table as it was.
     */
    method Save(key: Option<string>, d: Datum<V>, ttl: Option<int>, fault: bool) returns (ok: bool)
      modifies this
      ensures now == old(now)
      ensures ok <==> key.Some? && !fault
      ensures table == if ok then Saved(old(table), key.value, d, ttl, now) else old(table)
    {
      if key.None? {
        return false;
      }
      var data := Encode(d);
      var time := Expiry(now, ttl);
      if fault {
        return false;
      }
      table := table[key.value := Entry(time, data)];
      ok := true;
    }

    /** `del(key)`: rejected for an undefined key; otherwise the row for `key`, if any, is deleted. */
    method Del(key: Option<string>, fault: bool) returns (ok: bool)
      modifies this
      ensures now == old(now)
      ensures ok <==> key.Some? && !fault
      ensures table == if ok then Deleted(old(table), key.value) else old(table)
    {
      if key.None? {
        return false;
      }
      if fault {
        return false;
      }
      table := table - {key.value};
      ok := true;
    }

    /** `clear(expiredOnly)`: deletes the stale rows for the literal `true`, every row otherwise. */
    method Clear(expiredOnly: Option<bool>, fault: bool) returns (ok: bool)
      modifies this
      ensures now == old(now)
      ensures ok <==> !fault
      ensures table == if ok then Cleared(old(table), expiredOnly, now) else old(table)
    {
      if fault {
        return false;
      }
      if expiredOnly == Some(true) {
        table := map k | k in table && !Stale(now, table[k].time) :: table[k];
      } else {
        table := map[];
      }
      ok := true;
    }

    /** `exists(key)`: whether a row for `key` is present, whatever its time. */
    method Exists(key: Option<string>) returns (b: bool)
      ensures b <==> key.Some? && key.value in table
    {
      if key.None? {
        return false;
      }
      var rows := Select(table, key.value);
      b := |rows| > 0;
    }
  }

  /**
   * A value cached under "user:1" for 5 seconds is returned at once; six
   * seconds later `get` misses while `exists` still sees the row, and after
   * `del` the row is gone.
   */
  method ExpiryScenario<V>(v: V, start: int)
    returns (first: Lookup<V>, later: Lookup<V>, presentLater: bool, presentAfterDel: bool)
    ensures first == Hit(Json(v))
    ensures later == Miss && presentLater
    ensures !presentAfterDel
  {
    var c := new Cache<V>(map[], start);
    var ok := c.Save(Some("user:1"), Json(v), Some(5), false);
    first := c.Get(Some("user:1"));
    c.SetClock(start + 6);
    later := c.Get(Some("user:1"));
    presentLater := c.Exists(Some("user:1"));
    ok := c.Del(Some("user:1"), false);
    presentAfterDel := c.Exists(Some("user:1"));
  }

  /** `save("x", undefined)` with the default lifetime reads back as `undefined` throughout its 30 seconds. */
  method UndefinedScenario<V>(start: int, elapsed: int)
    returns (answer: Lookup<V>)
    requires 0 <= elapsed <= DefaultTtl
    ensures answer == Hit(Undefined)
  {
    var c := new Cache<V>(map[], start);
    var ok := c.Save(Some("x"), Undefined, None, false);
    c.SetClock(start + elapsed);
    answer := c.Get(Some("x"));
  }

  /** A key never written is neither returned nor present. */
  method NeverWritten<V>(stored: map<string, Entry<V>>, clock: int, key: string)
    returns (answer: Lookup<V>, present: bool)
    requires key !in stored
    ensures answer == Miss && !present
  {
    var c := new Cache<V>(stored, clock);
    answer := c.Get(Some(key));
    present := c.Exists(Some(key));
  }
}
