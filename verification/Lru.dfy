// The receiver's bounded cache (firmware/receiver/src/lru_cache.rs): an array of
// slots filled from the front, each stamped with the tick of its last touch;
// when it is full, the slot with the oldest stamp is overwritten.
module Lru {
  import opened Words

  datatype Slot<K, V> = Slot(key: K, lastTick: nat, value: V)

  datatype Entry<K, V> = Entry(key: K, value: V)

  // ---- the cache as a list, most recently touched first ----

  // The first position of a key, or the length.
  function Position<K(==), V>(es: seq<Entry<K, V>>, key: K): (p: nat)
    ensures p <= |es|
    ensures p < |es| ==> es[p].key == key
    ensures forall i :: 0 <= i < p ==> es[i].key != key
  {
    if es == [] || es[0].key == key then 0 else 1 + Position(es[1..], key)
  }

  // Entry p moves to the front with a value.
  function Touched<K, V>(es: seq<Entry<K, V>>, p: nat, value: V): (r: seq<Entry<K, V>>)
    requires p < |es|
    ensures |r| == |es|
  {
    [Entry(es[p].key, value)] + es[..p] + es[p + 1..]
  }

  function First<T>(s: seq<T>, n: nat): (r: seq<T>)
    ensures |r| <= n
  {
    if |s| <= n then s else s[..n]
  }

  function Inserted<K(==), V>(es: seq<Entry<K, V>>, key: K, value: V, n: nat): seq<Entry<K, V>> {
    var p := Position(es, key);
    if p < |es| then Touched(es, p, value) else First([Entry(key, value)] + es, n)
  }

  function Found<K(==), V>(es: seq<Entry<K, V>>, key: K): Option<V> {
    var p := Position(es, key);
    if p < |es| then Some(es[p].value) else None
  }

  function Got<K(==), V>(es: seq<Entry<K, V>>, key: K): seq<Entry<K, V>> {
    var p := Position(es, key);
    if p < |es| then Touched(es, p, es[p].value) else es
  }

  ghost predicate Distinct<K, V>(es: seq<Entry<K, V>>) {
    forall i, j :: 0 <= i < j < |es| ==> es[i].key != es[j].key
  }

  lemma {:induction false} PositionIs<K, V>(es: seq<Entry<K, V>>, p: nat)
    requires Distinct(es) && p < |es|
    ensures Position(es, es[p].key) == p
  {
  }

  // ---- the array as that list ----

  // The slots behind a list: `order` names the occupied slots, most recently
  // touched first. They fill exactly the front of the array, and their stamps
  // and keys are distinct.
  ghost predicate Shape<K, V>(slots: seq<Option<Slot<K, V>>>, len: nat, tick: nat, order: seq<nat>) {
    && |order| == len <= |slots|
    && (forall i :: 0 <= i < |slots| ==> (slots[i].Some? <==> i < len))
    && (forall r :: 0 <= r < len ==> order[r] < len)
    && (forall i :: 0 <= i < len ==> i in order)
    && (forall r, s :: 0 <= r < s < len ==> Stamp(slots, order[r]) > Stamp(slots, order[s]))
    && (forall i :: 0 <= i < len ==> slots[i].value.lastTick <= tick)
    && (forall i, j :: 0 <= i < j < len ==> slots[i].value.key != slots[j].value.key)
  }

  ghost function Stamp<K, V>(slots: seq<Option<Slot<K, V>>>, i: nat): nat {
    if i < |slots| && slots[i].Some? then slots[i].value.lastTick else 0
  }

  ghost function EntriesOf<K, V>(
    slots: seq<Option<Slot<K, V>>>, len: nat, tick: nat, order: seq<nat>): (es: seq<Entry<K, V>>)
    requires Shape(slots, len, tick, order)
    ensures |es| == len
    ensures Distinct(es)
  {
    seq(len, r requires 0 <= r < len => Entry(slots[order[r]].value.key, slots[order[r]].value.value))
  }

  ghost predicate Front<T>(s: seq<T>, p: nat, r: seq<T>)
    requires p < |s|
  {
    && |r| == |s| && r[0] == s[p]
    && (forall i :: 1 <= i <= p ==> r[i] == s[i - 1])
    && (forall i :: p < i < |s| ==> r[i] == s[i])
  }

  lemma {:induction false} FrontKeepsMembers<T>(s: seq<T>, p: nat, r: seq<T>)
    requires p < |s| && Front(s, p, r)
    ensures forall x :: x in s ==> x in r
  {
    forall x | x in s
      ensures x in r
    {
      var i :| 0 <= i < |s| && s[i] == x;
      assert r[if i == p then 0 else if i < p then i + 1 else i] == x;
    }
  }

  // Restamping slot i moves its entry to the front.
  lemma {:induction false} TouchKeepsShape<K, V>(
    slots: seq<Option<Slot<K, V>>>, len: nat, tick: nat, order: seq<nat>, r: nat, value: V)
    requires Shape(slots, len, tick, order) && r < len
    ensures var i := order[r];
            var slots' := slots[i := Some(Slot(slots[i].value.key, tick + 1, value))];
            var order' := [i] + order[..r] + order[r + 1..];
            && Shape(slots', len, tick + 1, order')
            && EntriesOf(slots', len, tick + 1, order') == Touched(EntriesOf(slots, len, tick, order), r, value)
  {
    var i := order[r];
    var slots' := slots[i := Some(Slot(slots[i].value.key, tick + 1, value))];
    var order' := [i] + order[..r] + order[r + 1..];
    RestampKeepsShape(slots, len, tick, order, r, order', value);
    var es, es' := EntriesOf(slots, len, tick, order), EntriesOf(slots', len, tick + 1, order');
    assert es'[0] == Entry(es[r].key, value);
    assert es'[1..r + 1] == es[..r] && es'[r + 1..] == es[r + 1..];
  }

  lemma {:induction false} RestampKeepsShape<K, V>(
    slots: seq<Option<Slot<K, V>>>, len: nat, tick: nat, order: seq<nat>, r: nat, order': seq<nat>, value: V)
    requires Shape(slots, len, tick, order) && r < len && order' == [order[r]] + order[..r] + order[r + 1..]
    ensures Shape(slots[order[r] := Some(Slot(slots[order[r]].value.key, tick + 1, value))], len, tick + 1, order')
  {
    hide Stamp;
    assert Front(order, r, order');
    FrontKeepsMembers(order, r, order');
    RestampKeepsOrder(slots, len, tick, order, r, order', slots[order[r]].value.key, value);
  }

  lemma {:induction false} RestampKeepsOrder<K, V>(
    slots: seq<Option<Slot<K, V>>>, len: nat, tick: nat, order: seq<nat>, r: nat, order': seq<nat>, key: K, value: V)
    requires Shape(slots, len, tick, order) && r < len && Front(order, r, order')
    ensures var slots' := slots[order[r] := Some(Slot(key, tick + 1, value))];
            forall s, t :: 0 <= s < t < len ==> Stamp(slots', order'[s]) > Stamp(slots', order'[t])
  {
    var slots' := slots[order[r] := Some(Slot(key, tick + 1, value))];
    forall s, t | 0 <= s < t < len
      ensures Stamp(slots', order'[s]) > Stamp(slots', order'[t])
    {
      var t0 := if t <= r then t - 1 else t;
      assert order'[t] == order[t0] && Stamp(slots, order[t0]) <= tick;
      assert order[t0] != order[r] by {
        assert t0 < r ==> Stamp(slots, order[t0]) > Stamp(slots, order[r]);
        assert t0 > r ==> Stamp(slots, order[r]) > Stamp(slots, order[t0]);
      }
      if s > 0 {
        var s0 := if s <= r then s - 1 else s;
        assert order'[s] == order[s0] && Stamp(slots, order[s0]) > Stamp(slots, order[t0]);
        assert order[s0] != order[r] by {
          assert s0 < r ==> Stamp(slots, order[s0]) > Stamp(slots, order[r]);
          assert s0 > r ==> Stamp(slots, order[r]) > Stamp(slots, order[s0]);
        }
      }
    }
  }

  // Filling the first free slot puts a new entry in front.
  lemma {:induction false} AppendKeepsShape<K, V>(
    slots: seq<Option<Slot<K, V>>>, len: nat, tick: nat, order: seq<nat>, key: K, value: V)
    requires Shape(slots, len, tick, order) && len < |slots|
    requires forall i :: 0 <= i < len ==> slots[i].Some? && slots[i].value.key != key
    ensures var slots' := slots[len := Some(Slot(key, tick + 1, value))];
            var order' := [len] + order;
            && Shape(slots', len + 1, tick + 1, order')
            && EntriesOf(slots', len + 1, tick + 1, order') == [Entry(key, value)] + EntriesOf(slots, len, tick, order)
  {
    var slots' := slots[len := Some(Slot(key, tick + 1, value))];
    var order' := [len] + order;
    forall k | 0 <= k < len + 1
      ensures k in order'
    {
    }
  }

  // Overwriting the slot with the oldest stamp drops the last entry.
  lemma {:induction false} EvictKeepsShape<K, V>(
    slots: seq<Option<Slot<K, V>>>, len: nat, tick: nat, order: seq<nat>, key: K, value: V)
    requires Shape(slots, len, tick, order) && len > 0
    requires forall i :: 0 <= i < len ==> slots[i].Some? && slots[i].value.key != key
    ensures var i := order[len - 1];
            var slots' := slots[i := Some(Slot(key, tick + 1, value))];
            var order' := [i] + order[..len - 1];
            && Shape(slots', len, tick + 1, order')
            && EntriesOf(slots', len, tick + 1, order')
               == [Entry(key, value)] + EntriesOf(slots, len, tick, order)[..len - 1]
  {
    var i := order[len - 1];
    var slots' := slots[i := Some(Slot(key, tick + 1, value))];
    var order' := [i] + order[..len - 1];
    assert Front(order, len - 1, order');
    FrontKeepsMembers(order, len - 1, order');
    RestampKeepsOrder(slots, len, tick, order, len - 1, order', key, value);
  }

  lemma {:induction false} LaterTick<K, V>(slots: seq<Option<Slot<K, V>>>, len: nat, tick: nat, order: seq<nat>)
    requires Shape(slots, len, tick, order)
    ensures Shape(slots, len, tick + 1, order)
    ensures EntriesOf(slots, len, tick + 1, order) == EntriesOf(slots, len, tick, order)
    ensures |order| == len <= |slots|
  {
  }

  lemma {:induction false} OldestIsLast<K, V>(
    slots: seq<Option<Slot<K, V>>>, len: nat, tick: nat, order: seq<nat>, i: nat)
    requires Shape(slots, len, tick, order) && i < len
    requires forall j :: 0 <= j < len ==> slots[i].value.lastTick <= slots[j].value.lastTick
    ensures order[len - 1] == i
  {
    assert i in order;
    var r :| 0 <= r < len && order[r] == i;
    assert r < len - 1 ==> Stamp(slots, order[r]) > Stamp(slots, order[len - 1]);
  }

  lemma {:induction false} SlotOfPosition<K, V>(
    slots: seq<Option<Slot<K, V>>>, len: nat, tick: nat, order: seq<nat>, i: nat)
    returns (r: nat)
    requires Shape(slots, len, tick, order) && i < len
    ensures |order| == len <= |slots| && slots[i].Some?
    ensures r < len && order[r] == i
    ensures var es := EntriesOf(slots, len, tick, order);
            es[r] == Entry(slots[i].value.key, slots[i].value.value) && Position(es, slots[i].value.key) == r
  {
    assert i in order;
    r :| 0 <= r < len && order[r] == i;
    PositionIs(EntriesOf(slots, len, tick, order), r);
  }

  lemma {:induction false} AbsentKey<K, V>(slots: seq<Option<Slot<K, V>>>, len: nat, tick: nat, order: seq<nat>, key: K)
    requires Shape(slots, len, tick, order)
    requires forall i :: 0 <= i < len ==> slots[i].Some? && slots[i].value.key != key
    ensures Position(EntriesOf(slots, len, tick, order), key) == len
  {
  }

  // ---- the cache ----

  class LruCache<K(==), V> {
    const cache: array<Option<Slot<K, V>>>
    var len: nat
    var tick: nat
    ghost var order: seq<nat>

    ghost predicate Valid()
      reads this, cache
    {
      Shape(cache[..], len, tick, order)
    }

    ghost function Entries(): seq<Entry<K, V>>
      requires Valid()
      reads this, cache
    {
      EntriesOf(cache[..], len, tick, order)
    }

    constructor (n: nat)
      ensures Valid() && fresh(cache) && cache.Length == n && Entries() == []
    {
      cache := new Option<Slot<K, V>>[n](_ => None);
      len, tick := 0, 0;
      order := [];
    }

    method FindItem(key: K) returns (r: Option<nat>)
      requires Valid()
      ensures r.Some? ==> r.value < len <= cache.Length && cache[r.value].Some? && cache[r.value].value.key == key
      ensures r.None? ==> forall i :: 0 <= i < len <= cache.Length ==> cache[i].Some? && cache[i].value.key != key
    {
      for i := 0 to len
        invariant forall j :: 0 <= j < i ==> cache[j].value.key != key
      {
        if cache[i].value.key == key {
          return Some(i);
        }
      }
      r := None;
    }

    // The slot with the oldest stamp.
    method Oldest() returns (index: nat)
      requires Valid() && len > 0
      ensures index < len && index == order[len - 1]
    {
      index := 0;
      for i := 1 to len
        invariant index < len
        invariant forall j :: 0 <= j < i ==> cache[index].value.lastTick <= cache[j].value.lastTick
      {
        if cache[i].value.lastTick < cache[index].value.lastTick {
          index := i;
        }
      }
      OldestIsLast(cache[..], len, tick, order, index);
    }

    // The old value, when the key was there. A new key in a full cache takes
    // the place of the one touched longest ago. A cache without slots has no
    // such place, and the index is out of bounds.
    method Insert(key: K, value: V) returns (previous: Option<V>, inBounds: bool)
      requires Valid()
      modifies this, cache
      ensures Valid() && inBounds == (cache.Length > 0)
      ensures previous == Found(old(Entries()), key)
      ensures Entries() == Inserted(old(Entries()), key, value, cache.Length)
    {
      hide Shape, EntriesOf, Position;
      ghost var slots, t := cache[..], tick;
      tick := tick + 1;
      LaterTick(slots, len, t, order);
      var found := FindItem(key);
      if found.Some? {
        ghost var r := SlotOfPosition(slots, len, t, order, found.value);
        TouchKeepsShape(slots, len, t, order, r, value);
        previous := Some(cache[found.value].value.value);
        cache[found.value] := Some(Slot(cache[found.value].value.key, tick, value));
        order := [found.value] + order[..r] + order[r + 1..];
        assert cache[..] == slots[found.value := cache[found.value]];
        return previous, true;
      }
      AbsentKey(slots, len, t, order, key);
      if len >= cache.Length {
        if len == 0 {
          assert Entries() == [];
          return None, false;
        }
        var index := Oldest();
        EvictKeepsShape(slots, len, t, order, key, value);
        cache[index] := Some(Slot(key, tick, value));
        assert cache[..] == slots[index := cache[index]];
        order := [index] + order[..len - 1];
      } else {
        AppendKeepsShape(slots, len, t, order, key, value);
        cache[len] := Some(Slot(key, tick, value));
        assert cache[..] == slots[len := cache[len]];
        order := [len] + order;
        len := len + 1;
      }
      return None, true;
    }

    // A hit moves the key to the front; a miss changes nothing but the tick.
    method Get(key: K) returns (value: Option<V>)
      requires Valid()
      modifies this, cache
      ensures Valid()
      ensures value == Found(old(Entries()), key) && Entries() == Got(old(Entries()), key)
    {
      hide Shape, EntriesOf, Position;
      ghost var slots, t := cache[..], tick;
      tick := tick + 1;
      LaterTick(slots, len, t, order);
      var found := FindItem(key);
      if found.None? {
        AbsentKey(slots, len, t, order, key);
        return None;
      }
      ghost var r := SlotOfPosition(slots, len, t, order, found.value);
      var item := cache[found.value].value;
      TouchKeepsShape(slots, len, t, order, r, item.value);
      cache[found.value] := Some(item.(lastTick := tick));
      order := [found.value] + order[..r] + order[r + 1..];
      assert cache[..] == slots[found.value := cache[found.value]];
      return Some(item.value);
    }
  }
}
