/**
 * LimitedSizeDict of neo/api/utils.py: an insertion-ordered dictionary that, after every write,
 * pops entries from the front until it holds at most `size_limit` of them.
 *
 * OrderedMap is the value-level view (keys in insertion order plus the key/value mapping);
 * SetItem is the specification of one `d[key] = value`, and the class LimitedSizeDict performs
 * that write in place with the source's eviction loop.
 */
module LimitedDict {
  import opened Wrappers

  /** The state of an OrderedDict: its keys in insertion order and what each maps to. */
  datatype OrderedMap<K(==), V> = OrderedMap(keys: seq<K>, values: map<K, V>)

  predicate Distinct<K(==)>(s: seq<K>) {
    forall i, j :: 0 <= i < j < |s| ==> s[i] != s[j]
  }

  /** Every key appears once in the order, and the order holds exactly the mapped keys. */
  predicate WellFormed<K(==), V>(m: OrderedMap<K, V>) {
    && Distinct(m.keys)
    && (forall i :: 0 <= i < |m.keys| ==> m.keys[i] in m.values)
    && (forall k :: k in m.values ==> k in m.keys)
  }

  /** len(d). */
  function Size<K(==), V>(m: OrderedMap<K, V>): nat {
    |m.keys|
  }

  /**
   * OrderedDict.__setitem__: a key already present keeps its place and takes the new value;
   * a new key goes to the back.
   */
  function Put<K(==), V>(m: OrderedMap<K, V>, key: K, value: V): (r: OrderedMap<K, V>)
    requires WellFormed(m)
    ensures WellFormed(r)
    ensures r.values == m.values[key := value]
    ensures key in m.values ==> r.keys == m.keys
    ensures key !in m.values ==> r.keys == m.keys + [key]
  {
    if key in m.values then OrderedMap(m.keys, m.values[key := value])
    else OrderedMap(m.keys + [key], m.values[key := value])
  }

  /** popitem(last=False), without its result: the front entry is dropped. */
  function PopFront<K(==), V>(m: OrderedMap<K, V>): (r: OrderedMap<K, V>)
    requires |m.keys| > 0
    ensures WellFormed(m) ==> WellFormed(r) && Size(r) == Size(m) - 1
  {
    OrderedMap(m.keys[1..], m.values - {m.keys[0]})
  }

  /** The loop `while len(self) > limit: self.popitem(last=False)`. */
  function Evict<K(==), V>(m: OrderedMap<K, V>, limit: nat): (r: OrderedMap<K, V>)
    ensures WellFormed(m) ==> WellFormed(r)
    ensures |r.keys| <= limit
    ensures |m.keys| <= limit ==> r == m
    decreases |m.keys|
  {
    if |m.keys| > limit then Evict(PopFront(m), limit) else m
  }

  /** _check_size_limit: no eviction at all when size_limit is None. */
  function CheckSizeLimit<K(==), V>(m: OrderedMap<K, V>, limit: Option<nat>): (r: OrderedMap<K, V>)
    requires WellFormed(m)
    ensures WellFormed(r)
    ensures limit.Some? ==> Size(r) <= limit.value
    ensures limit.None? ==> r == m
  {
    if limit.None? then m else Evict(m, limit.value)
  }

  /** LimitedSizeDict.__setitem__. */
  function SetItem<K(==), V>(m: OrderedMap<K, V>, limit: Option<nat>, key: K, value: V): (r: OrderedMap<K, V>)
    requires WellFormed(m)
    ensures WellFormed(r)
    ensures limit.Some? ==> Size(r) <= limit.value
  {
    CheckSizeLimit(Put(m, key, value), limit)
  }

  /** The number of front entries the eviction loop pops. */
  function Excess(size: nat, limit: nat): nat {
    if size > limit then size - limit else 0
  }

  /** The eviction loop keeps exactly the last `limit` keys, in their order. */
  lemma {:induction false} EvictKeepsLastKeys<K, V>(m: OrderedMap<K, V>, limit: nat)
    ensures Evict(m, limit).keys == m.keys[Excess(|m.keys|, limit)..]
    decreases |m.keys|
  {
    if |m.keys| > limit {
      var p := PopFront(m);
      EvictKeepsLastKeys(p, limit);
      DropDrop(m.keys, Excess(|p.keys|, limit));
    }
  }

  /** The eviction loop changes no value: whatever it keeps maps to what it mapped to before. */
  lemma {:induction false} EvictKeepsValues<K, V>(m: OrderedMap<K, V>, limit: nat)
    requires WellFormed(m)
    ensures forall k :: k in Evict(m, limit).values ==> k in m.values && Evict(m, limit).values[k] == m.values[k]
    decreases |m.keys|
  {
    if |m.keys| > limit {
      EvictKeepsValues(PopFront(m), limit);
    }
  }

  /**
   * Closed form of the eviction loop: it keeps exactly the last `limit` keys, in order, each with
   * its old value, and drops the others.
   */
  lemma EvictKeepsSuffix<K, V>(m: OrderedMap<K, V>, limit: nat)
    requires WellFormed(m)
    ensures var r := Evict(m, limit);
      && r.keys == m.keys[Excess(|m.keys|, limit)..]
      && (forall k :: k in r.values ==> k in m.values && r.values[k] == m.values[k])
  {
    EvictKeepsLastKeys(m, limit);
    EvictKeepsValues(m, limit);
  }

  lemma RemoveThenUpdate<K, V>(values: map<K, V>, gone: K, key: K, value: V)
    requires gone != key
    ensures values[key := value] - {gone} == (values - {gone})[key := value]
  {
  }

  lemma DropDrop<T>(s: seq<T>, a: nat)
    requires a < |s|
    ensures s[1..][a..] == s[a + 1..]
  {
  }

  /** Keys of a well-formed map are exactly the mapped keys, positions included. */
  lemma MappedIffListed<K, V>(m: OrderedMap<K, V>, k: K)
    requires WellFormed(m)
    ensures k in m.values <==> exists i :: 0 <= i < |m.keys| && m.keys[i] == k
  {
    if k in m.values {
      assert k in m.keys;
      var i :| 0 <= i < |m.keys| && m.keys[i] == k;
    }
  }

  /**
   * A new key written into a full map evicts exactly one entry, the first in insertion order, and
   * the new key becomes the last.
   */
  lemma NewKeyEvictsFront<K, V>(m: OrderedMap<K, V>, limit: nat, key: K, value: V)
    requires WellFormed(m) && key !in m.values
    requires limit >= 1 && Size(m) == limit
    ensures var r := SetItem(m, Some(limit), key, value);
      && r.keys == m.keys[1..] + [key]
      && r.values == (m.values - {m.keys[0]})[key := value]
  {
    var p := Put(m, key, value);
    assert Evict(PopFront(p), limit) == PopFront(p);
    assert p.keys[1..] == m.keys[1..] + [key];
    RemoveThenUpdate(m.values, m.keys[0], key, value);
  }

  /** Overwriting a present key keeps its position and the size, so nothing is evicted. */
  lemma OverwriteKeepsOrder<K, V>(m: OrderedMap<K, V>, limit: Option<nat>, key: K, value: V)
    requires WellFormed(m) && key in m.values
    requires limit.Some? ==> Size(m) <= limit.value
    ensures var r := SetItem(m, limit, key, value);
      && r.keys == m.keys
      && r.values == m.values[key := value]
      && Size(r) == Size(m)
  {
  }

  /** With no size_limit nothing is ever evicted: every old key stays, in its place. */
  lemma NoLimitNoEviction<K, V>(m: OrderedMap<K, V>, key: K, value: V)
    requires WellFormed(m)
    ensures var r := SetItem(m, None, key, value);
      && m.keys <= r.keys
      && m.values.Keys <= r.values.Keys
  {
  }

  /**
   * Frame of a write: the written key maps to the new value unless it was itself evicted, every
   * other key keeps its value, and a key that disappears was among the front entries that were
   * popped.
   */
  lemma SetItemFrame<K, V>(m: OrderedMap<K, V>, limit: Option<nat>, key: K, value: V, k: K)
    requires WellFormed(m)
    ensures var r := SetItem(m, limit, key, value);
      var p := Put(m, key, value);
      && (key in r.values ==> r.values[key] == value)
      && (k != key && k in r.values ==> k in m.values && r.values[k] == m.values[k])
      && (k != key && k in m.values && k !in r.values ==>
            limit.Some? && exists i :: 0 <= i < Excess(|p.keys|, limit.value) && p.keys[i] == k)
  {
    var p := Put(m, key, value);
    if limit.Some? {
      var d := Excess(|p.keys|, limit.value);
      EvictKeepsSuffix(p, limit.value);
      var r := Evict(p, limit.value);
      if k != key && k in m.values && k !in r.values {
        MappedIffListed(p, k);
        var i :| 0 <= i < |p.keys| && p.keys[i] == k;
      }
    }
  }

  /**
   * The written key survives the eviction iff there is room for at least one entry, provided the
   * map was within its limit before the write (which LimitedSizeDict maintains).
   */
  lemma WrittenKeySurvives<K, V>(m: OrderedMap<K, V>, limit: Option<nat>, key: K, value: V)
    requires WellFormed(m)
    requires limit.Some? ==> Size(m) <= limit.value
    ensures var r := SetItem(m, limit, key, value);
      (key in r.values <==> (limit.None? || limit.value >= 1))
  {
    var p := Put(m, key, value);
    if limit.Some? {
      EvictKeepsLastKeys(p, limit.value);
      var r := Evict(p, limit.value);
      if limit.value == 0 {
        assert r.keys == [];
      } else if key !in m.values {
        assert r.keys[|r.keys| - 1] == p.keys[|p.keys| - 1] == key;
      } else {
        assert r.keys == p.keys;
        assert key in r.keys;
      }
    }
  }

  /** An OrderedDict subclass holding at most `sizeLimit` entries (no limit when None). */
  class LimitedSizeDict<K(==), V> {
    var order: seq<K>
    var entries: map<K, V>
    const sizeLimit: Option<nat>

    function Contents(): OrderedMap<K, V>
      reads this
    {
      OrderedMap(order, entries)
    }

    ghost predicate Valid()
      reads this
    {
      WellFormed(Contents()) && (sizeLimit.Some? ==> |order| <= sizeLimit.value)
    }

    /** LimitedSizeDict(size_limit=...) with no initial items. */
    constructor (sizeLimit: Option<nat>)
      ensures Valid()
      ensures this.sizeLimit == sizeLimit && Contents() == OrderedMap([], map[])
    {
      this.sizeLimit := sizeLimit;
      order := [];
      entries := map[];
    }

    /** len(self). */
    function Len(): (n: nat)
      reads this
      requires Valid()
      ensures sizeLimit.Some? ==> n <= sizeLimit.value
    {
      |order|
    }

    /** dict.get(key): the value, or None when the key is absent. */
    function Get(key: K): (r: Option<V>)
      reads this
      ensures r.Some? <==> key in entries
      ensures r.Some? ==> r.value == entries[key]
    {
      if key in entries then Some(entries[key]) else None
    }

    /** popitem(last=False): removes and returns the front entry. */
    method PopFirst() returns (key: K, value: V)
      requires WellFormed(Contents()) && |order| > 0
      modifies this
      ensures Contents() == PopFront(old(Contents()))
      ensures key == old(order[0]) && value == old(entries[order[0]])
    {
      key := order[0];
      value := entries[key];
      order := order[1..];
      entries := entries - {key};
    }

    /** __setitem__: OrderedDict's write, then _check_size_limit's eviction loop. */
    method Set(key: K, value: V)
      requires Valid()
      modifies this
      ensures Valid()
      ensures Contents() == SetItem(old(Contents()), sizeLimit, key, value)
    {
      ghost var goal := SetItem(Contents(), sizeLimit, key, value);
      if key !in entries {
        order := order + [key];
      }
      entries := entries[key := value];
      if sizeLimit.Some? {
        while |order| > sizeLimit.value
          invariant WellFormed(Contents())
          invariant Evict(Contents(), sizeLimit.value) == goal
          decreases |order|
        {
          var _, _ := PopFirst();
        }
      }
    }
  }
}
