/**
 * Value-level specification of the chunk cache (SmartChunkCache.java).
 *
 * A cache state is the key->value map `entries` together with the recency
 * order `order` of the access-ordered LinkedHashMap, oldest key first, and the
 * four statistics counters. Each public operation of the cache is a function
 * from state to state; the class in smart_chunk_cache.dfy is proved to follow
 * these functions, and the lemmas below state what the cache promises.
 */
module CacheSpec {
  import opened Wrappers
  import opened JavaArith

  /** Heap utilisation tier sampled before an insertion. */
  datatype Pressure = Normal | High | Critical

  datatype Counters = Counters(hits: nat, misses: nat, evictions: nat, cleanups: nat)

  datatype CacheState<K, V> = CacheState(entries: map<K, V>, order: seq<K>, counters: Counters)

  /**
   * Tier of a heap reading `used / max` against the 0.8 and 0.9 thresholds,
   * with Java's double semantics for a non-positive maximum: a negative
   * maximum (undefined) gives a negative ratio, `x / 0` is +Infinity for
   * x > 0 and NaN (every comparison false) for 0 / 0.
   */
  function Classify(used: nat, max: int): (p: Pressure)
    ensures max > 0 ==> (p == Critical <==> used as real / max as real > 0.9)
    ensures max > 0 ==> (p == Normal <==> used as real / max as real <= 0.8)
    ensures max == 0 ==> (p == Critical <==> used > 0) && p != High
    ensures max < 0 ==> p == Normal
  {
    if max > 0 then
      RatioAbove(used, max, 9, 10);
      RatioAbove(used, max, 8, 10);
      if 10 * used > 9 * max then Critical
      else if 10 * used > 8 * max then High
      else Normal
    else if max == 0 && used > 0 then Critical
    else Normal
  }

  /** For positive denominators, u/m exceeds a/b exactly when b * u exceeds a * m. */
  lemma RatioAbove(u: int, m: int, a: int, b: int)
    requires m > 0 && b > 0
    ensures (u as real / m as real > a as real / b as real) <==> b * u > a * m
  {
    var r, q := u as real / m as real, a as real / b as real;
    var mb := (m * b) as real;
    assert mb > 0.0;
    assert r * mb == (b * u) as real;
    assert q * mb == (a * m) as real;
    assert r > q <==> r * mb > q * mb;
  }

  /** One reading of the heap: bytes in use and the maximum (-1 when undefined). */
  datatype HeapUsage = HeapUsage(used: nat, max: int)

  /**
   * The pressure a put acts on. shouldCleanMemory reads the heap once and
   * cleans only above the 0.8 threshold; performMemoryCleanup reads it again
   * and picks the aggressive target only above 0.9 on that second reading.
   */
  function PutPressure(first: HeapUsage, second: HeapUsage): (p: Pressure)
    ensures p == Normal <==> Classify(first.used, first.max) == Normal
    ensures p == Critical <==> Classify(first.used, first.max) != Normal && Classify(second.used, second.max) == Critical
  {
    if Classify(first.used, first.max) == Normal then Normal
    else if Classify(second.used, second.max) == Critical then Critical
    else High
  }

  /** True when the sequence holds no key twice. */
  predicate Distinct<K(==)>(s: seq<K>)
  {
    forall i, j :: 0 <= i < j < |s| ==> s[i] != s[j]
  }

  function Keys<K(==)>(s: seq<K>): set<K>
  {
    set k | k in s
  }

  /** `after` is `before` with the given amounts added to each counter. */
  predicate Bumped(after: Counters, before: Counters, hits: nat, misses: nat, evictions: nat, cleanups: nat)
  {
    && after.hits == before.hits + hits
    && after.misses == before.misses + misses
    && after.evictions == before.evictions + evictions
    && after.cleanups == before.cleanups + cleanups
  }

  /** The map and the recency order hold the same keys, each key once in the order. */
  predicate Consistent<K(==), V>(st: CacheState<K, V>)
  {
    st.entries.Keys == Keys(st.order) && Distinct(st.order)
  }

  /** Consistent and never above the configured capacity (an empty cache when it is not positive). */
  predicate Valid<K(==), V>(st: CacheState<K, V>, maxSize: int)
  {
    Consistent(st) && |st.order| <= Max(0, maxSize)
  }

  /** `lowWaterMark = max(1, maxSize / 2)`. For a negative size Java's truncated quotient and
      Dafny's Euclidean one differ, but both are at most 0, so the result is 1 either way. */
  function LowWaterMark(maxSize: int): int
  {
    Max(1, maxSize / 2)
  }

  /** The size a cleanup pass reduces the cache to, computed from the size before the pass. */
  function CleanupTarget(maxSize: int, size: nat, p: Pressure): (t: int)
    ensures t >= 1
  {
    if p == Critical then Max(1, size / 4) else LowWaterMark(maxSize)
  }

  /** `s` without `k`, every other key in its old relative order. */
  function Without<K(==)>(s: seq<K>, k: K): seq<K>
  {
    if s == [] then []
    else if s[0] == k then Without(s[1..], k)
    else [s[0]] + Without(s[1..], k)
  }

  /** Move (or add) `k` to the most-recent end of the order. */
  function Touch<K(==)>(s: seq<K>, k: K): seq<K>
  {
    Without(s, k) + [k]
  }

  function Lookup<K(==), V>(st: CacheState<K, V>, k: K): Option<V>
  {
    if k in st.entries then Some(st.entries[k]) else None
  }

  /** State after `get(k)`: a hit refreshes k and counts a hit, a miss only counts a miss. */
  function AfterGet<K(==), V>(st: CacheState<K, V>, k: K): CacheState<K, V>
  {
    if k in st.entries then
      st.(order := Touch(st.order, k), counters := st.counters.(hits := st.counters.hits + 1))
    else
      st.(counters := st.counters.(misses := st.counters.misses + 1))
  }

  /** Number of entries a cleanup pass with target `t` evicts. */
  function Excess(size: nat, t: int): nat
  {
    if size > t then size - t else 0
  }

  /** The `d` oldest keys leave the cache and are counted as evictions. */
  function EvictOldest<K(==), V>(st: CacheState<K, V>, d: nat): CacheState<K, V>
    requires d <= |st.order|
  {
    CacheState(st.entries - Keys(st.order[..d]), st.order[d..],
               st.counters.(evictions := st.counters.evictions + d))
  }

  /** One pressure-driven cleanup pass (performMemoryCleanup). */
  function Cleanup<K(==), V>(st: CacheState<K, V>, maxSize: int, p: Pressure): CacheState<K, V>
  {
    var d := Excess(|st.order|, CleanupTarget(maxSize, |st.entries|, p));
    var ev := EvictOldest(st, d);
    ev.(counters := ev.counters.(cleanups := ev.counters.cleanups + 1))
  }

  /** `cache.put` followed by `accessOrder.put` and its removeEldestEntry callback. */
  function Insert<K(==), V>(st: CacheState<K, V>, maxSize: int, k: K, v: V): CacheState<K, V>
  {
    if k in st.order then
      st.(entries := st.entries[k := v], order := Touch(st.order, k))
    else
      var grown := st.(entries := st.entries[k := v], order := st.order + [k]);
      if |grown.order| > maxSize then EvictOldest(grown, 1) else grown
  }

  /** `put(k, v)`: nothing for a null value; otherwise an optional cleanup, then the insertion. */
  function Put<K(==), V>(st: CacheState<K, V>, maxSize: int, k: K, v: Option<V>, p: Pressure): CacheState<K, V>
  {
    if v.None? then st
    else
      var cleaned := if p != Normal then Cleanup(st, maxSize, p) else st;
      Insert(cleaned, maxSize, k, v.value)
  }

  function Remove<K(==), V>(st: CacheState<K, V>, k: K): CacheState<K, V>
  {
    st.(entries := st.entries - {k}, order := Without(st.order, k))
  }

  function Clear<K(==), V>(st: CacheState<K, V>): CacheState<K, V>
  {
    st.(entries := map[], order := [])
  }

  /** `getHitRatio`: hits / (hits + misses), or 0 before any lookup. */
  function HitRatio(c: Counters): (r: real)
    ensures 0.0 <= r <= 1.0
    ensures c.hits + c.misses == 0 ==> r == 0.0
    ensures r * (c.hits + c.misses) as real == c.hits as real
  {
    if c.hits + c.misses == 0 then 0.0 else c.hits as real / (c.hits + c.misses) as real
  }

  // ---------------------------------------------------------------------
  // Sequence facts

  lemma {:induction false} DistinctCard<K>(s: seq<K>)
    requires Distinct(s)
    ensures |Keys(s)| == |s|
  {
    if s != [] {
      DistinctCard(s[1..]);
      assert Keys(s) == {s[0]} + Keys(s[1..]);
      assert s[0] !in Keys(s[1..]);
    }
  }

  lemma {:induction false} WithoutKeys<K>(s: seq<K>, k: K)
    ensures Keys(Without(s, k)) == Keys(s) - {k}
    ensures Distinct(s) ==> Distinct(Without(s, k))
  {
    if s != [] {
      WithoutKeys(s[1..], k);
      assert Keys(s) == {s[0]} + Keys(s[1..]);
      if s[0] != k {
        var w := Without(s, k);
        assert Keys(w) == {s[0]} + Keys(Without(s[1..], k));
        if Distinct(s) {
          forall i, j | 0 <= i < j < |w| ensures w[i] != w[j] {
            if i == 0 {
              assert w[j] in Keys(Without(s[1..], k));
            } else {
              assert w[i] == Without(s[1..], k)[i - 1];
            }
          }
        }
      }
    }
  }

  lemma {:induction false} WithoutAbsent<K>(s: seq<K>, k: K)
    requires k !in s
    ensures Without(s, k) == s
  {
    if s != [] {
      WithoutAbsent(s[1..], k);
    }
  }

  lemma {:induction false} WithoutLength<K>(s: seq<K>, k: K)
    requires Distinct(s)
    ensures |Without(s, k)| == if k in s then |s| - 1 else |s|
  {
    if s != [] {
      WithoutLength(s[1..], k);
      if s[0] == k {
        WithoutAbsent(s[1..], k);
      }
    }
  }

  /** Touching a key keeps the order free of repeats and makes the key the newest. */
  lemma TouchFacts<K>(s: seq<K>, k: K)
    requires Distinct(s)
    ensures var t := Touch(s, k);
            && Distinct(t)
            && Keys(t) == Keys(s) + {k}
            && |t| == (if k in s then |s| else |s| + 1)
            && t[|t| - 1] == k
  {
    WithoutKeys(s, k);
    WithoutLength(s, k);
    var w := Without(s, k);
    var t := Touch(s, k);
    assert Keys(t) == Keys(w) + {k};
    forall i, j | 0 <= i < j < |t| ensures t[i] != t[j] {
      if j == |t| - 1 {
        assert t[i] in Keys(w);
      } else {
        assert t[i] == w[i] && t[j] == w[j];
      }
    }
  }

  lemma KeysAppend<K>(a: seq<K>, b: seq<K>)
    ensures Keys(a + b) == Keys(a) + Keys(b)
  {
  }

  lemma KeysSplit<K>(s: seq<K>, d: nat)
    requires d <= |s|
    ensures Keys(s) == Keys(s[..d]) + Keys(s[d..])
  {
    assert s == s[..d] + s[d..];
    KeysAppend(s[..d], s[d..]);
  }

  lemma KeysStep<K>(s: seq<K>, n: nat)
    requires n < |s|
    ensures Keys(s[..n + 1]) == Keys(s[..n]) + {s[n]}
  {
    assert s[..n + 1] == s[..n] + [s[n]];
    KeysAppend(s[..n], [s[n]]);
  }

  lemma DistinctSplit<K>(s: seq<K>, d: nat)
    requires Distinct(s) && d <= |s|
    ensures Distinct(s[d..]) && Keys(s[..d]) !! Keys(s[d..])
  {
    forall x | x in Keys(s[..d])
      ensures x !in Keys(s[d..])
    {
      var i :| 0 <= i < d && s[i] == x;
      forall j | 0 <= j < |s| - d
        ensures s[d..][j] != x
      {
        assert s[d..][j] == s[d + j];
      }
    }
  }

  // ---------------------------------------------------------------------
  // Invariant preservation

  /** In a consistent state the map holds exactly as many entries as the order. */
  lemma ConsistentSize<K, V>(st: CacheState<K, V>)
    requires Consistent(st)
    ensures |st.entries| == |st.order|
  {
    DistinctCard(st.order);
    assert |st.entries| == |st.entries.Keys|;
  }

  /** A lookup never breaks the map/order agreement, and a hit makes k the most recent key. */
  lemma GetKeepsValid<K, V>(st: CacheState<K, V>, maxSize: int, k: K)
    requires Valid(st, maxSize)
    ensures Valid(AfterGet(st, k), maxSize)
    ensures AfterGet(st, k).entries == st.entries
    ensures |AfterGet(st, k).order| == |st.order|
    ensures k in st.entries ==> AfterGet(st, k).order[|st.order| - 1] == k
  {
    if k in st.entries {
      TouchFacts(st.order, k);
    }
  }

  /** Evicting the d oldest keys leaves exactly the newer keys, with their values. */
  lemma EvictOldestFacts<K, V>(st: CacheState<K, V>, d: nat)
    requires Consistent(st) && d <= |st.order|
    ensures var r := EvictOldest(st, d);
            && Consistent(r)
            && r.order == st.order[d..]
            && |r.entries| == |st.entries| - d
            && r.entries.Keys == Keys(st.order[d..])
            && (forall x :: x in r.entries ==> x in st.entries && r.entries[x] == st.entries[x])
  {
    KeysSplit(st.order, d);
    DistinctSplit(st.order, d);
    ConsistentSize(st);
    ConsistentSize(EvictOldest(st, d));
  }

  /** Evicting the d oldest keys of a consistent state leaves |order| - d entries. */
  lemma EvictedCount<K, V>(st: CacheState<K, V>, d: nat)
    requires Consistent(st) && d <= |st.order|
    ensures |st.entries - Keys(st.order[..d])| == |st.order| - d
  {
    EvictOldestFacts(st, d);
    ConsistentSize(st);
  }

  /** One more eviction: dropping the n-th oldest key from what the first n evictions left. */
  lemma EvictStep<K, V>(entries: map<K, V>, lru: seq<K>, n: nat, m: map<K, V>)
    requires entries.Keys == Keys(lru) && Distinct(lru) && n < |lru|
    requires m == entries - Keys(lru[..n])
    ensures m - {lru[n]} == entries - Keys(lru[..n + 1])
    ensures |m - {lru[n]}| == |lru| - (n + 1)
  {
    var st := CacheState(entries, lru, Counters(0, 0, 0, 0));
    KeysStep(lru, n);
    EvictedCount(st, n + 1);
  }

  /** A cleanup pass keeps the invariant and brings the size down to its target (or leaves it if already below). */
  lemma CleanupKeepsValid<K, V>(st: CacheState<K, V>, maxSize: int, p: Pressure)
    requires Valid(st, maxSize)
    ensures Valid(Cleanup(st, maxSize, p), maxSize)
    ensures var t := CleanupTarget(maxSize, |st.entries|, p);
            |Cleanup(st, maxSize, p).entries| == (if |st.entries| <= t then |st.entries| else t)
  {
    ConsistentSize(st);
    var d := Excess(|st.order|, CleanupTarget(maxSize, |st.entries|, p));
    EvictOldestFacts(st, d);
  }

  /**
   * A cleanup pass evicts exactly the d oldest keys, where d is the excess over
   * the target; it adds d to the eviction counter and 1 to the cleanup counter.
   */
  lemma CleanupEvictsOldest<K, V>(st: CacheState<K, V>, maxSize: int, p: Pressure)
    requires Valid(st, maxSize)
    ensures var d := Excess(|st.order|, CleanupTarget(maxSize, |st.entries|, p));
            var r := Cleanup(st, maxSize, p);
            && d == |st.entries| - |r.entries|
            && r.order == st.order[d..]
            && r.entries.Keys == st.entries.Keys - Keys(st.order[..d])
            && (forall x :: x in r.entries ==> r.entries[x] == st.entries[x])
            && Bumped(r.counters, st.counters, 0, 0, d, 1)
  {
    ConsistentSize(st);
    var d := Excess(|st.order|, CleanupTarget(maxSize, |st.entries|, p));
    EvictOldestFacts(st, d);
    KeysSplit(st.order, d);
    DistinctSplit(st.order, d);
  }

  /** A state is the result of a cleanup pass when its three parts are. */
  lemma CleanupByParts<K, V>(st: CacheState<K, V>, maxSize: int, p: Pressure, r: CacheState<K, V>)
    requires Consistent(st)
    requires var d := Excess(|st.order|, CleanupTarget(maxSize, |st.entries|, p));
             && r.entries == st.entries - Keys(st.order[..d])
             && r.order == st.order[d..]
             && Bumped(r.counters, st.counters, 0, 0, d, 1)
    ensures r == Cleanup(st, maxSize, p)
  {
  }

  /** Appending a key that is not yet in the order keeps the state consistent. */
  lemma AppendKeepsConsistent<K, V>(st: CacheState<K, V>, k: K, v: V)
    requires Consistent(st) && k !in st.order
    ensures Consistent(st.(entries := st.entries[k := v], order := st.order + [k]))
  {
    var o := st.order + [k];
    KeysAppend(st.order, [k]);
    forall i, j | 0 <= i < j < |o| ensures o[i] != o[j] {
      if j == |st.order| {
        assert o[i] in st.order;
      }
    }
  }

  /** The insertion step of put keeps the invariant. */
  lemma InsertKeepsValid<K, V>(st: CacheState<K, V>, maxSize: int, k: K, v: V)
    requires Valid(st, maxSize)
    ensures Valid(Insert(st, maxSize, k, v), maxSize)
  {
    ConsistentSize(st);
    if k in st.order {
      TouchFacts(st.order, k);
    } else {
      var grown := st.(entries := st.entries[k := v], order := st.order + [k]);
      AppendKeepsConsistent(st, k, v);
      if |grown.order| > maxSize {
        EvictOldestFacts(grown, 1);
      }
    }
  }

  /** With a positive capacity, the inserted key is present with its new value and is the newest key. */
  lemma InsertMakesNewest<K, V>(st: CacheState<K, V>, maxSize: int, k: K, v: V)
    requires Valid(st, maxSize) && maxSize >= 1
    ensures var r := Insert(st, maxSize, k, v);
            && Lookup(r, k) == Some(v)
            && |r.order| > 0 && r.order[|r.order| - 1] == k
  {
    if k in st.order {
      TouchFacts(st.order, k);
    } else {
      var grown := st.(entries := st.entries[k := v], order := st.order + [k]);
      AppendKeepsConsistent(st, k, v);
      if |grown.order| > maxSize {
        EvictOldestFacts(grown, 1);
        assert grown.order[0] in st.order;
        assert k in Keys(grown.order[1..]) by {
          assert grown.order[1..][|grown.order| - 2] == k;
        }
      }
    }
  }

  /** Every put keeps the map and the recency order in agreement and within capacity. */
  lemma PutKeepsValid<K, V>(st: CacheState<K, V>, maxSize: int, k: K, v: Option<V>, p: Pressure)
    requires Valid(st, maxSize)
    ensures Valid(Put(st, maxSize, k, v, p), maxSize)
    ensures maxSize >= 1 ==> |Put(st, maxSize, k, v, p).entries| <= maxSize
  {
    if v.Some? {
      var cleaned := if p != Normal then Cleanup(st, maxSize, p) else st;
      if p != Normal {
        CleanupKeepsValid(st, maxSize, p);
      }
      InsertKeepsValid(cleaned, maxSize, k, v.value);
    }
    ConsistentSize(Put(st, maxSize, k, v, p));
  }

  /** remove(k) deletes k from both structures, keeps every other entry and every counter, and is a no-op for an absent key. */
  lemma RemoveKeepsValid<K, V>(st: CacheState<K, V>, maxSize: int, k: K)
    requires Valid(st, maxSize)
    ensures Valid(Remove(st, k), maxSize)
    ensures k !in Remove(st, k).entries
    ensures forall x :: x in st.entries && x != k ==> x in Remove(st, k).entries && Remove(st, k).entries[x] == st.entries[x]
    ensures Remove(st, k).counters == st.counters
    ensures k !in st.entries ==> Remove(st, k) == st
  {
    WithoutKeys(st.order, k);
    WithoutLength(st.order, k);
    if k !in st.entries {
      WithoutAbsent(st.order, k);
    }
  }

  lemma ClearKeepsValid<K, V>(st: CacheState<K, V>, maxSize: int)
    ensures Valid(Clear(st), maxSize) && |Clear(st).entries| == 0 && Clear(st).counters == st.counters
  {
  }

  // ---------------------------------------------------------------------
  // What get and put promise

  /** get(k): a hit returns the value, makes k the newest key and counts only a hit; a miss counts only a miss. */
  lemma GetCountsHitOrMiss<K, V>(st: CacheState<K, V>, maxSize: int, k: K)
    requires Valid(st, maxSize)
    ensures var r := AfterGet(st, k);
            && r.entries == st.entries
            && (k in st.entries ==> Lookup(st, k) == Some(st.entries[k])
                                    && r.order[|r.order| - 1] == k
                                    && Keys(r.order) == Keys(st.order)
                                    && Bumped(r.counters, st.counters, 1, 0, 0, 0))
            && (k !in st.entries ==> Lookup(st, k) == None && r.order == st.order
                                     && Bumped(r.counters, st.counters, 0, 1, 0, 0))
  {
    if k in st.entries {
      TouchFacts(st.order, k);
    }
  }

  /** put(k, null) changes nothing at all. */
  lemma NullPutIsNoOp<K, V>(st: CacheState<K, V>, maxSize: int, k: K, p: Pressure)
    ensures Put(st, maxSize, k, None, p) == st
  {
  }

  /** put(k, v) then get(k) returns v, counts a hit and leaves k the most recent key (for a positive capacity). */
  lemma PutThenGet<K, V>(st: CacheState<K, V>, maxSize: int, k: K, v: V, p: Pressure)
    requires Valid(st, maxSize) && maxSize >= 1
    ensures var r := Put(st, maxSize, k, Some(v), p);
            && Lookup(r, k) == Some(v)
            && r.order[|r.order| - 1] == k
            && Bumped(AfterGet(r, k).counters, r.counters, 1, 0, 0, 0)
  {
    var cleaned := if p != Normal then Cleanup(st, maxSize, p) else st;
    if p != Normal {
      CleanupKeepsValid(st, maxSize, p);
    }
    InsertMakesNewest(cleaned, maxSize, k, v);
  }

  /** Without pressure, putting a key that is already cached replaces its value and nothing else. */
  lemma PutExistingKey<K, V>(st: CacheState<K, V>, maxSize: int, k: K, v: V)
    requires Valid(st, maxSize) && k in st.entries
    ensures var r := Put(st, maxSize, k, Some(v), Normal);
            && r.entries == st.entries[k := v]
            && |r.entries| == |st.entries|
            && r.counters == st.counters
  {
  }

  /** Below capacity and without pressure, a new key is added and nothing is evicted. */
  lemma PutNewKeyBelowCapacity<K, V>(st: CacheState<K, V>, maxSize: int, k: K, v: V)
    requires Valid(st, maxSize) && |st.entries| < maxSize && k !in st.entries
    ensures var r := Put(st, maxSize, k, Some(v), Normal);
            && r.entries == st.entries[k := v]
            && |r.entries| == |st.entries| + 1
            && r.counters == st.counters
  {
    ConsistentSize(st);
  }

  /** A new key put at capacity, without pressure, evicts exactly the least recently used entry. */
  lemma OverflowEvictsEldest<K, V>(st: CacheState<K, V>, maxSize: int, k: K, v: V)
    requires Valid(st, maxSize) && maxSize >= 1 && |st.entries| == maxSize && k !in st.entries
    ensures var r := Put(st, maxSize, k, Some(v), Normal);
            && r.entries == (st.entries - {st.order[0]})[k := v]
            && r.order == st.order[1..] + [k]
            && |r.entries| == maxSize
            && Bumped(r.counters, st.counters, 0, 0, 1, 0)
  {
    assert |st.order| > 0 by {
      ConsistentSize(st);
    }
    var eldest := st.order[0];
    var grown := st.(entries := st.entries[k := v], order := st.order + [k]);
    var r := Put(st, maxSize, k, Some(v), Normal);
    assert |st.order| == maxSize && k !in st.order && eldest != k by {
      ConsistentSize(st);
    }
    assert r == EvictOldest(grown, 1);
    assert Keys(grown.order[..1]) == {eldest} by {
      assert grown.order[..1] == [eldest];
    }
    assert r.order == st.order[1..] + [k];
    UpdateThenRemove(st.entries, eldest, k, v);
    assert |r.entries| == maxSize by {
      AppendKeepsConsistent(st, k, v);
      EvictOldestFacts(grown, 1);
    }
  }

  lemma UpdateThenRemove<K, V>(m: map<K, V>, a: K, k: K, v: V)
    requires a != k
    ensures m[k := v] - {a} == (m - {a})[k := v]
  {
  }

  /** The insertion step adds at most the key itself and evicts at most the oldest other key. */
  lemma InsertRemovesOnlyHead<K, V>(st: CacheState<K, V>, maxSize: int, k: K, v: V)
    requires Valid(st, maxSize)
    ensures forall x :: x in Insert(st, maxSize, k, v).entries ==> x in st.entries || x == k
    ensures forall x :: x in st.entries && x != k && x !in Insert(st, maxSize, k, v).entries ==>
              k !in st.entries && |st.order| > 0 && x == st.order[0]
  {
    if k !in st.order {
      var grown := st.(entries := st.entries[k := v], order := st.order + [k]);
      AppendKeepsConsistent(st, k, v);
      if |grown.order| > maxSize {
        EvictOldestFacts(grown, 1);
        forall m | 1 <= m < |grown.order|
          ensures grown.order[m] in Insert(st, maxSize, k, v).entries
        {
          assert grown.order[1..][m - 1] == grown.order[m];
        }
        forall x | x in st.entries && x != k && x !in Insert(st, maxSize, k, v).entries
          ensures |st.order| > 0 && x == st.order[0]
        {
          assert x in Keys(grown.order);
          var i :| 0 <= i < |grown.order| && grown.order[i] == x;
        }
      }
    }
  }

  /** The insertion step never evicts a key while keeping an older one. */
  lemma InsertEvictsOldestFirst<K, V>(st: CacheState<K, V>, maxSize: int, k: K, v: V, i: nat, j: nat)
    requires Valid(st, maxSize) && i < j < |st.order|
    requires st.order[i] != k && st.order[j] != k
    ensures st.order[i] in Insert(st, maxSize, k, v).entries ==> st.order[j] in Insert(st, maxSize, k, v).entries
  {
    InsertRemovesOnlyHead(st, maxSize, k, v);
    assert st.order[j] in st.entries;
  }

  /** A cleanup pass never evicts a key while keeping an older one, and a key newer than a survivor is not the new oldest key. */
  lemma CleanupEvictsOldestFirst<K, V>(st: CacheState<K, V>, maxSize: int, p: Pressure, i: nat, j: nat)
    requires Valid(st, maxSize) && i < j < |st.order|
    requires st.order[i] in Cleanup(st, maxSize, p).entries
    ensures st.order[j] in Cleanup(st, maxSize, p).entries
    ensures |Cleanup(st, maxSize, p).order| > 0 && Cleanup(st, maxSize, p).order[0] != st.order[j]
  {
    var c := Excess(|st.order|, CleanupTarget(maxSize, |st.entries|, p));
    var r := Cleanup(st, maxSize, p);
    assert c <= i && r.order == st.order[c..] by {
      CleanupEvictsOldest(st, maxSize, p);
      assert st.order[i] !in Keys(st.order[..c]);
      assert forall m :: 0 <= m < c ==> st.order[..c][m] == st.order[m];
    }
    assert r.order[j - c] == st.order[j];
    assert r.order[0] == st.order[c];
  }

  /**
   * Least-recently-used first: if a key survives a put, every key that was
   * newer than it survives too (the key being put aside). So evictions always
   * take the oldest keys first.
   */
  lemma PutEvictsOldestFirst<K, V>(st: CacheState<K, V>, maxSize: int, k: K, v: V, p: Pressure, i: nat, j: nat)
    requires Valid(st, maxSize) && i < j < |st.order|
    requires st.order[i] != k && st.order[j] != k
    ensures st.order[i] in Put(st, maxSize, k, Some(v), p).entries ==> st.order[j] in Put(st, maxSize, k, Some(v), p).entries
  {
    if p == Normal {
      InsertEvictsOldestFirst(st, maxSize, k, v, i, j);
    } else {
      var cleaned := Cleanup(st, maxSize, p);
      CleanupKeepsValid(st, maxSize, p);
      InsertRemovesOnlyHead(cleaned, maxSize, k, v);
      if st.order[i] in Insert(cleaned, maxSize, k, v).entries {
        CleanupEvictsOldestFirst(st, maxSize, p, i, j);
      }
    }
  }

  /**
   * A lookup protects an entry: with the cache full, reading the oldest entry
   * and then putting a new key evicts the second-oldest entry and keeps the
   * one just read.
   */
  lemma RefreshedEntrySurvives<K, V>(st: CacheState<K, V>, maxSize: int, k: K, v: V)
    requires Valid(st, maxSize) && maxSize >= 2 && |st.entries| == maxSize && k !in st.entries
    ensures |st.order| >= 2
    ensures var r := Put(AfterGet(st, st.order[0]), maxSize, k, Some(v), Normal);
            && Lookup(r, st.order[0]) == Some(st.entries[st.order[0]])
            && st.order[1] !in r.entries
  {
    ConsistentSize(st);
    var oldest := st.order[0];
    var g := AfterGet(st, oldest);
    GetKeepsValid(st, maxSize, oldest);
    assert g.order[0] == st.order[1] by {
      assert st.order == [oldest] + st.order[1..];
      assert oldest !in st.order[1..];
      WithoutAbsent(st.order[1..], oldest);
      assert Without(st.order, oldest) == st.order[1..];
    }
    OverflowEvictsEldest(g, maxSize, k, v);
    assert st.order[1] != oldest;
  }

  /**
   * Under critical pressure the cleanup target max(1, size / 4) is computed
   * before the insertion, so the size after a put is at most that target plus one.
   */
  lemma CriticalPutBound<K, V>(st: CacheState<K, V>, maxSize: int, k: K, v: V)
    requires Valid(st, maxSize)
    ensures |Put(st, maxSize, k, Some(v), Critical).entries| <= Max(1, |st.entries| / 4) + 1
  {
    var cleaned := Cleanup(st, maxSize, Critical);
    CleanupKeepsValid(st, maxSize, Critical);
    InsertRemovesOnlyHead(cleaned, maxSize, k, v);
    var r := Insert(cleaned, maxSize, k, v);
    assert r.entries.Keys <= cleaned.entries.Keys + {k};
    SubsetCard(r.entries.Keys, cleaned.entries.Keys + {k});
  }

  lemma SubsetCard<K>(a: set<K>, b: set<K>)
    requires a <= b
    ensures |a| <= |b|
  {
    assert b == a + (b - a);
  }

  /** The bound above is reached: a full cache of four under critical pressure ends with two entries, one above its target. */
  lemma CriticalPutCanExceedTarget(st: CacheState<int, int>)
    requires st == CacheState(map[1 := 10, 2 := 20, 3 := 30, 4 := 40], [1, 2, 3, 4], Counters(0, 0, 0, 0))
    ensures Valid(st, 4)
    ensures CleanupTarget(4, |st.entries|, Critical) == 1
    ensures Put(st, 4, 5, Some(50), Critical).entries == map[4 := 40, 5 := 50]
  {
    FullCacheOfFour(st);
    var c := Cleanup(st, 4, Critical);
    CriticalCleanupOfFour(st, c);
    InsertIntoSingleton(c);
    PutUnderPressure(st, 4, 5, 50, Critical);
  }

  lemma FullCacheOfFour(st: CacheState<int, int>)
    requires st == CacheState(map[1 := 10, 2 := 20, 3 := 30, 4 := 40], [1, 2, 3, 4], Counters(0, 0, 0, 0))
    ensures Valid(st, 4) && |st.entries| == 4
  {
    assert st.entries.Keys == {1, 2, 3, 4};
    assert Keys(st.order) == {1, 2, 3, 4};
  }

  lemma PutUnderPressure<K, V>(st: CacheState<K, V>, maxSize: int, k: K, v: V, p: Pressure)
    requires p != Normal
    ensures Put(st, maxSize, k, Some(v), p) == Insert(Cleanup(st, maxSize, p), maxSize, k, v)
  {
  }

  lemma CriticalCleanupOfFour(st: CacheState<int, int>, c: CacheState<int, int>)
    requires st == CacheState(map[1 := 10, 2 := 20, 3 := 30, 4 := 40], [1, 2, 3, 4], Counters(0, 0, 0, 0))
    requires c == Cleanup(st, 4, Critical)
    ensures c.entries == map[4 := 40] && c.order == [4]
  {
    FullCacheOfFour(st);
    assert CleanupTarget(4, |st.entries|, Critical) == 1;
    CleanupShape(st, 4, Critical, 3, c);
    FirstThreeKeys(st.order);
    SingletonLeft(st.entries, Keys(st.order[..3]), c.entries);
  }

  lemma CleanupShape<K, V>(st: CacheState<K, V>, maxSize: int, p: Pressure, d: nat, c: CacheState<K, V>)
    requires d == Excess(|st.order|, CleanupTarget(maxSize, |st.entries|, p))
    requires c == Cleanup(st, maxSize, p)
    ensures d <= |st.order|
    ensures c.entries == st.entries - Keys(st.order[..d]) && c.order == st.order[d..]
  {
  }

  lemma FirstThreeKeys(s: seq<int>)
    requires s == [1, 2, 3, 4]
    ensures Keys(s[..3]) == {1, 2, 3} && s[3..] == [4]
  {
    assert s[..3] == [1, 2, 3];
  }

  lemma SingletonLeft(e: map<int, int>, gone: set<int>, r: map<int, int>)
    requires e == map[1 := 10, 2 := 20, 3 := 30, 4 := 40] && gone == {1, 2, 3}
    requires r == e - gone
    ensures r == map[4 := 40]
  {
    assert r.Keys == {4};
  }

  lemma InsertIntoSingleton(c: CacheState<int, int>)
    requires c.entries == map[4 := 40] && c.order == [4]
    ensures Insert(c, 4, 5, 50).entries == map[4 := 40, 5 := 50]
  {
    assert 5 !in c.order;
  }
}
