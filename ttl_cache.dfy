/**
 * A bounded key/value cache whose entries expire a fixed time after they were
 * last written (src/practice/ttlcache.py).
 *
 * Each operation is first given as a pure transition on the map of entries
 * (`AddEntry`, `GetEntry`, `ContainsKey`, `RemoveExpired`); the class `Cache`
 * holds that map in a field and its methods update it in place as the Python
 * methods do.  The current time is a parameter `now` of every operation that
 * reads the clock.
 */
module TtlCache {
  import opened Wrappers

  /** The outcome codes of the cache; `Code` is the integer each one stands for. */
  datatype Error = Ok | Full | Expired | NotFound {
    function Code(): (c: int)
      ensures (c > 0) == (this == Ok)
      ensures this != Ok ==> c < 0
    {
      match this
      case Ok => 1
      case Full => -1
      case Expired => -2
      case NotFound => -3
    }
  }

  /** What the map holds for a key: the value and the instant it stops being valid. */
  datatype Entry<V> = Entry(value: V, expireAt: real)

  /** Read-side validity: `get` and `in` accept an entry while `now < expire_at`. */
  predicate Live<V>(e: Entry<V>, now: real) {
    now < e.expireAt
  }

  /** Sweep-side expiry: the sweeper deletes an entry once `expire_at <= now`. */
  predicate Stale<V>(e: Entry<V>, now: real) {
    e.expireAt <= now
  }

  // ------------------------------------------------------------------ transitions

  /** Result of `add`: its return value (`None` on the update path) and the new map. */
  datatype AddOutcome<K, V> = AddOutcome(result: Option<Error>, entries: map<K, Entry<V>>)

  /** Result of `get`: its code, its value, and the map after the lazy clean-up. */
  datatype GetOutcome<K, V> = GetOutcome(code: Error, value: Option<V>, entries: map<K, Entry<V>>)

  /** Result of `key in cache`: the answer and the map after the lazy clean-up. */
  datatype ContainsOutcome<K, V> = ContainsOutcome(present: bool, entries: map<K, Entry<V>>)

  /**
   * `add(key, value)` at time `now`: an existing key, stale or not, is
   * overwritten and answers `None`; a new key is refused with `FULL` when the
   * map already holds `maxSize` entries and is inserted with `OK` otherwise.
   */
  function AddEntry<K, V>(m: map<K, Entry<V>>, key: K, value: V, now: real, ttl: real, maxSize: int)
    : (o: AddOutcome<K, V>)
    ensures key in o.entries ==> o.entries[key] == Entry(value, now + ttl)
    ensures forall k :: k in m && k != key ==> k in o.entries && o.entries[k] == m[k]
    ensures key in m ==> o.result == None && |o.entries| == |m| && o.entries.Keys == m.Keys
    ensures key !in m && |m| >= maxSize ==> o.result == Some(Full) && o.entries == m
    ensures key !in m && |m| < maxSize ==>
      o.result == Some(Ok) && o.entries.Keys == m.Keys + {key} && |o.entries| == |m| + 1
  {
    if key in m then
      AddOutcome(None, m[key := Entry(value, now + ttl)])
    else if |m| >= maxSize then
      AddOutcome(Some(Full), m)
    else
      AddOutcome(Some(Ok), m[key := Entry(value, now + ttl)])
  }

  /**
   * `get(key)` at time `now`: `NOT_FOUND` for an absent key, `OK` with the
   * value for a live one, and `EXPIRED` for a stale one, which is deleted.
   */
  function GetEntry<K, V>(m: map<K, Entry<V>>, key: K, now: real): (o: GetOutcome<K, V>)
    ensures key !in m ==> o == GetOutcome(NotFound, None, m)
    ensures key in m && Live(m[key], now) ==> o == GetOutcome(Ok, Some(m[key].value), m)
    ensures key in m && !Live(m[key], now) ==>
      o.code == Expired && o.value == None && o.entries.Keys == m.Keys - {key} && |o.entries| == |m| - 1
    ensures forall k :: k in o.entries ==> k in m && o.entries[k] == m[k]
  {
    if key in m then
      if now < m[key].expireAt then GetOutcome(Ok, Some(m[key].value), m)
      else GetOutcome(Expired, None, m - {key})
    else GetOutcome(NotFound, None, m)
  }

  /**
   * `key in cache` at time `now`: true exactly when `get` would answer `OK`
   * at the same instant, with the same deletion of a stale entry.
   */
  function ContainsKey<K, V>(m: map<K, Entry<V>>, key: K, now: real): (o: ContainsOutcome<K, V>)
    ensures o.present == (GetEntry(m, key, now).code == Ok)
    ensures o.entries == GetEntry(m, key, now).entries
  {
    if key in m then
      if now < m[key].expireAt then ContainsOutcome(true, m)
      else ContainsOutcome(false, m - {key})
    else ContainsOutcome(false, m)
  }

  /**
   * One sweep at time `now`: every stale entry is deleted and every other
   * entry is kept as it was, so the map afterwards holds exactly the entries
   * that reads still consider live.
   */
  function RemoveExpired<K, V>(m: map<K, Entry<V>>, now: real): (r: map<K, Entry<V>>)
    ensures forall k :: k in r ==> k in m && Live(m[k], now) && r[k] == m[k]
    ensures forall k :: k in m && Live(m[k], now) ==> k in r
    ensures |r| <= |m|
  {
    var r := map k | k in m && !Stale(m[k], now) :: m[k];
    assert r.Keys <= m.Keys;
    SubsetSize(r.Keys, m.Keys);
    r
  }

  lemma {:induction false} SubsetSize<K>(a: set<K>, b: set<K>)
    requires a <= b
    ensures |a| <= |b|
  {
    if a != {} {
      var x :| x in a;
      SubsetSize(a - {x}, b - {x});
    }
  }

  // ------------------------------------------------------------------ properties

  /** After a sweep no read at the same instant answers `EXPIRED`, and every other answer is unchanged. */
  lemma SweepAgreesWithReads<K, V>(m: map<K, Entry<V>>, key: K, now: real)
    ensures GetEntry(RemoveExpired(m, now), key, now).code != Expired
    ensures GetEntry(m, key, now).code == Ok <==> GetEntry(RemoveExpired(m, now), key, now).code == Ok
    ensures GetEntry(m, key, now).code == Ok ==>
      GetEntry(RemoveExpired(m, now), key, now).value == GetEntry(m, key, now).value
  {
  }

  /** A second sweep at the same instant changes nothing. */
  lemma {:induction false} SweepIdempotent<K, V>(m: map<K, Entry<V>>, now: real)
    ensures RemoveExpired(RemoveExpired(m, now), now) == RemoveExpired(m, now)
  {
    var r := RemoveExpired(m, now);
    assert RemoveExpired(r, now).Keys == r.Keys;
  }

  /**
   * A key written at `t0` answers its value to every `get` before `t0 + ttl`
   * and `EXPIRED` (deleting it) to a `get` at or after `t0 + ttl`.
   */
  lemma LifetimeAfterAdd<K, V>(m: map<K, Entry<V>>, key: K, value: V, t0: real, ttl: real, maxSize: int, t: real)
    requires AddEntry(m, key, value, t0, ttl, maxSize).result != Some(Full)
    ensures var after := AddEntry(m, key, value, t0, ttl, maxSize).entries;
      && (t < t0 + ttl ==> GetEntry(after, key, t) == GetOutcome(Ok, Some(value), after))
      && (t0 + ttl <= t ==> GetEntry(after, key, t).code == Expired && key !in GetEntry(after, key, t).entries)
  {
  }

  /** The operations of the public interface, for reasoning about runs of them. */
  datatype Op<K, V> =
    | AddOp(key: K, value: V, now: real)
    | GetOp(key: K, now: real)
    | ContainsOp(key: K, now: real)
    | SweepOp(now: real)
    | ClearOp

  function Apply<K, V>(m: map<K, Entry<V>>, op: Op<K, V>, ttl: real, maxSize: int): map<K, Entry<V>>
  {
    match op
    case AddOp(k, v, now) => AddEntry(m, k, v, now, ttl, maxSize).entries
    case GetOp(k, now) => GetEntry(m, k, now).entries
    case ContainsOp(k, now) => ContainsKey(m, k, now).entries
    case SweepOp(now) => RemoveExpired(m, now)
    case ClearOp => map[]
  }

  function Run<K, V>(m: map<K, Entry<V>>, ops: seq<Op<K, V>>, ttl: real, maxSize: int): map<K, Entry<V>>
    decreases |ops|
  {
    if ops == [] then m else Run(Apply(m, ops[0], ttl, maxSize), ops[1..], ttl, maxSize)
  }

  /** The capacity invariant: a map within `maxSize` stays within it under any run of operations. */
  lemma {:induction false} RunKeepsCapacity<K, V>(m: map<K, Entry<V>>, ops: seq<Op<K, V>>, ttl: real, maxSize: int)
    requires |m| <= maxSize
    ensures |Run(m, ops, ttl, maxSize)| <= maxSize
    decreases |ops|
  {
    if ops != [] {
      var m' := Apply(m, ops[0], ttl, maxSize);
      assert |m'| <= maxSize;
      RunKeepsCapacity(m', ops[1..], ttl, maxSize);
    }
  }

  /** Only `add` of a new key grows the map, and then by exactly one. */
  lemma {:induction false} OnlyAddGrows<K, V>(m: map<K, Entry<V>>, op: Op<K, V>, ttl: real, maxSize: int)
    ensures |Apply(m, op, ttl, maxSize)| <= |m| + 1
    ensures !op.AddOp? ==> |Apply(m, op, ttl, maxSize)| <= |m|
  {
    match op
    case AddOp(k, v, now) =>
    case GetOp(k, now) =>
    case ContainsOp(k, now) =>
    case SweepOp(now) =>
    case ClearOp =>
  }

  /** Deleting exactly the stale keys is the sweep. */
  lemma SweepRemoves<K, V>(m: map<K, Entry<V>>, removed: set<K>, now: real)
    requires forall k :: k in m ==> (Stale(m[k], now) <==> k in removed)
    ensures m - removed == RemoveExpired(m, now)
  {
    assert (m - removed).Keys == RemoveExpired(m, now).Keys;
  }

  // ------------------------------------------------------------------ the cache object

  class Cache<K(==), V> {
    const maxSize: int
    const ttl: real
    var entries: map<K, Entry<V>>

    /** Stores the two settings as given, with no validation, and starts empty. */
    constructor (maxSize: int, ttl: real)
      ensures this.maxSize == maxSize && this.ttl == ttl && entries == map[]
    {
      this.maxSize := maxSize;
      this.ttl := ttl;
      entries := map[];
    }

    /** The periodic sweep, run at time `now`. */
    method RemoveExpiredKeys(now: real)
      modifies this
      ensures entries == RemoveExpired(old(entries), now)
      ensures old(|entries|) <= maxSize ==> |entries| <= maxSize
    {
      var expiredKeys := set k | k in entries && Stale(entries[k], now);
      ghost var removed: set<K> := {};
      while expiredKeys != {}
        invariant expiredKeys <= entries.Keys
        invariant expiredKeys !! removed
        invariant entries == old(entries) - removed
        invariant forall k :: k in old(entries) ==> (Stale(old(entries)[k], now) <==> k in expiredKeys + removed)
        decreases expiredKeys
      {
        var k :| k in expiredKeys;
        entries := entries - {k};
        expiredKeys := expiredKeys - {k};
        removed := removed + {k};
      }
      SweepRemoves(old(entries), removed, now);
    }

    method Add(key: K, value: V, now: real) returns (r: Option<Error>)
      modifies this
      ensures AddOutcome(r, entries) == AddEntry(old(entries), key, value, now, ttl, maxSize)
      ensures old(|entries|) <= maxSize ==> |entries| <= maxSize
    {
      if key in entries {
        entries := entries[key := Entry(value, now + ttl)];
        return None;
      }
      if |entries| >= maxSize {
        return Some(Full);
      }
      entries := entries[key := Entry(value, now + ttl)];
      return Some(Ok);
    }

    method Get(key: K, now: real) returns (code: Error, value: Option<V>)
      modifies this
      ensures GetOutcome(code, value, entries) == GetEntry(old(entries), key, now)
      ensures old(|entries|) <= maxSize ==> |entries| <= maxSize
    {
      if key in entries {
        var e := entries[key];
        if now < e.expireAt {
          return Ok, Some(e.value);
        } else {
          entries := entries - {key};
          return Expired, None;
        }
      }
      return NotFound, None;
    }

    method IsFull() returns (full: bool)
      ensures full <==> |entries| >= maxSize
    {
      return |entries| >= maxSize;
    }

    method Contains(key: K, now: real) returns (present: bool)
      modifies this
      ensures ContainsOutcome(present, entries) == ContainsKey(old(entries), key, now)
      ensures old(|entries|) <= maxSize ==> |entries| <= maxSize
    {
      if key in entries {
        var e := entries[key];
        if now < e.expireAt {
          return true;
        } else {
          entries := entries - {key};
        }
      }
      return false;
    }

    method Len() returns (n: nat)
      ensures n == |entries|
    {
      return |entries|;
    }

    method Clear()
      modifies this
      ensures entries == map[]
    {
      entries := map[];
    }
  }

  /**
   * The demonstration run of the module, with the clock readings made explicit
   * and no sweep in between: a fresh key is present, and gone once its lifetime
   * has passed; with three live keys a fourth is refused; a live key reads back
   * its value and, read again after its lifetime, is reported expired.
   */
  method Demo() returns (key1Before: bool, key1After: bool, add5: Option<Error>,
                         code2: Error, value2: Option<string>, code2Later: Error)
    ensures key1Before && !key1After
    ensures add5 == Some(Full)
    ensures code2 == Ok && value2 == Some("value2")
    ensures code2Later == Expired
  {
    var cache := new Cache<string, string>(3, 5.0);
    key1Before, key1After := DemoExpiry(cache);
    add5 := DemoFill(cache);
    code2, value2 := cache.Get("key2", 6.0);
    var unused;
    code2Later, unused := cache.Get("key2", 12.0);
  }

  /** The first part of `Demo`: `key1` is written at 0 and looked up at 0 and at 6. */
  method DemoExpiry(cache: Cache<string, string>) returns (before: bool, after: bool)
    requires cache.entries == map[] && cache.ttl == 5.0 && cache.maxSize == 3
    modifies cache
    ensures before && !after && cache.entries == map[]
  {
    var r := cache.Add("key1", "value1", 0.0);
    assert cache.entries == map["key1" := Entry("value1", 5.0)];
    before := cache.Contains("key1", 0.0);
    after := cache.Contains("key1", 6.0);
  }

  /** The second part of `Demo`: at 6, three keys fill the cache and a fourth is refused. */
  method DemoFill(cache: Cache<string, string>) returns (add5: Option<Error>)
    requires cache.entries == map[] && cache.ttl == 5.0 && cache.maxSize == 3
    modifies cache
    ensures add5 == Some(Full)
    ensures "key2" in cache.entries && cache.entries["key2"] == Entry("value2", 11.0)
  {
    var r := cache.Add("key2", "value2", 6.0);
    assert cache.entries == map["key2" := Entry("value2", 11.0)];
    r := cache.Add("key3", "value3", 6.0);
    assert cache.entries.Keys == {"key2", "key3"} && |cache.entries| == 2;
    r := cache.Add("key4", "value4", 6.0);
    assert "key5" !in cache.entries && |cache.entries| == 3;
    assert cache.entries["key2"] == Entry("value2", 11.0);
    add5 := cache.Add("key5", "value5", 6.0);
  }


}
