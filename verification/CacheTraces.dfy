// What the bounded cache holds after any trace of operations
// (firmware/receiver/src/lru_cache.rs).
module CacheTraces {
  import opened Words
  import opened Lru

  datatype Op<K, V> = Insert(key: K, value: V) | Get(key: K)

  function Apply<K(==), V>(es: seq<Entry<K, V>>, op: Op<K, V>, n: nat): seq<Entry<K, V>> {
    match op
    case Insert(key, value) => Inserted(es, key, value, n)
    case Get(key) => Got(es, key)
  }

  function After<K(==), V>(ops: seq<Op<K, V>>, n: nat): seq<Entry<K, V>>
    decreases |ops|
  {
    if ops == [] then [] else Apply(After(ops[..|ops| - 1], n), ops[|ops| - 1], n)
  }

  // The keys touched, in time order: every insert, and every get that hits.
  function Touches<K(==), V>(ops: seq<Op<K, V>>, n: nat): seq<K>
    decreases |ops|
  {
    if ops == [] then []
    else
      var before, op := ops[..|ops| - 1], ops[|ops| - 1];
      if op.Get? && Found(After(before, n), op.key).None? then Touches(before, n)
      else Touches(before, n) + [op.key]
  }

  // The value last inserted under a key.
  function LastInserted<K(==), V>(ops: seq<Op<K, V>>, key: K): Option<V>
    decreases |ops|
  {
    if ops == [] then None
    else
      var op := ops[|ops| - 1];
      if op.Insert? && op.key == key then Some(op.value) else LastInserted(ops[..|ops| - 1], key)
  }

  // The other keys touched since `key` last was.
  function Since<K(==)>(t: seq<K>, key: K): (s: set<K>)
    ensures key !in s
    ensures forall k :: k in s ==> k in t
    decreases |t|
  {
    if t == [] || t[|t| - 1] == key then {} else Since(t[..|t| - 1], key) + {t[|t| - 1]}
  }

  lemma {:induction false} SinceNext<K>(t: seq<K>, a: K, key: K)
    ensures Since(t + [a], key) == if a == key then {} else Since(t, key) + {a}
    ensures key in t + [a] <==> key == a || key in t
  {
    assert (t + [a])[..|t|] == t;
  }

  // Of two touched keys, the earlier one has the later one, and everything
  // since it, since.
  lemma {:induction false} SinceIsOrdered<K>(t: seq<K>, a: K, b: K)
    requires a != b && a in t && b in t
    ensures b in Since(t, a) ==> Since(t, b) + {b} <= Since(t, a)
    ensures b !in Since(t, a) ==> a in Since(t, b)
    decreases |t|
  {
    var init, last := t[..|t| - 1], t[|t| - 1];
    if last == b {
      assert Since(t, b) == {};
    } else if last != a {
      assert t == init + [last];
      SinceIsOrdered(init, a, b);
    } else {
      assert a in Since(t, b);
    }
  }

  lemma {:induction false} SinceCounts<K>(t: seq<K>, a: K, b: K)
    requires a != b && a in t && b in t
    ensures b in Since(t, a) <==> |Since(t, b)| < |Since(t, a)|
  {
    SinceIsOrdered(t, a, b);
    SinceIsOrdered(t, b, a);
    if b in Since(t, a) {
      Smaller(Since(t, b) + {b}, Since(t, a));
    } else {
      Smaller(Since(t, a) + {a}, Since(t, b));
    }
  }

  lemma {:induction false} CountWith<T>(s: set<T>, x: T)
    ensures |s + {x}| == if x in s then |s| else |s| + 1
  {
    if x in s {
      assert s + {x} == s;
    }
  }

  // ---- positions after one operation ----

  lemma {:induction false} PositionAfterTouch<K, V>(es: seq<Entry<K, V>>, p: nat, value: V, key: K)
    requires Distinct(es) && p < |es|
    ensures var r, q := Touched(es, p, value), Position(es, key);
            && Distinct(r)
            && Position(r, key) == (if q == p then 0 else if q < p then q + 1 else q)
            && (q < |es| && q != p ==> r[Position(r, key)].value == es[q].value)
            && (q == p ==> r[0].value == value)
  {
    hide Position;
    var r, q := Touched(es, p, value), Position(es, key);
    forall i | 0 <= i < |es|
      ensures r[i].key == es[if i == 0 then p else if i <= p then i - 1 else i].key
    {
    }
    if q < |es| {
      PositionIs(r, if q == p then 0 else if q < p then q + 1 else q);
    } else {
      PositionOfAbsent(r, key);
    }
  }

  lemma {:induction false} PositionOfAbsent<K, V>(es: seq<Entry<K, V>>, key: K)
    requires forall i :: 0 <= i < |es| ==> es[i].key != key
    ensures Position(es, key) == |es|
  {
  }

  lemma {:induction false} PositionAfterInsert<K, V>(es: seq<Entry<K, V>>, e: Entry<K, V>, n: nat, key: K)
    requires Distinct(es) && |es| <= n && n > 0 && Position(es, e.key) == |es|
    ensures var r, q := First([e] + es, n), Position(es, key);
            && Distinct(r) && |r| > 0
            && (key == e.key ==> Position(r, key) == 0 && r[0] == e)
            && (key != e.key && q < |es| && q + 1 < n ==> Position(r, key) == q + 1 < |r| && r[q + 1] == es[q])
            && (key != e.key && (q == |es| || q + 1 >= n) ==> Position(r, key) == |r|)
  {
    hide Position;
    var r, q := First([e] + es, n), Position(es, key);
    assert forall i :: 1 <= i < |r| ==> r[i] == es[i - 1];
    assert r[0] == e;
    if key == e.key {
      PositionIs(r, 0);
    } else if q < |es| && q + 1 < n {
      PositionIs(r, q + 1);
    } else {
      PositionOfAbsent(r, key);
    }
  }

  // ---- whole traces ----

  // What is claimed of one key after a trace: it is held exactly when it was
  // touched and fewer than n others were since; then it stands behind exactly
  // those others, with the value last inserted.
  ghost predicate Holds<K, V>(es: seq<Entry<K, V>>, t: seq<K>, last: Option<V>, n: nat, key: K) {
    var p := Position(es, key);
    && (p < |es| <==> key in t && |Since(t, key)| < n)
    && (p < |es| ==> p == |Since(t, key)| && last == Some(es[p].value))
  }

  lemma {:induction false} TouchHolds<K, V>(
    es: seq<Entry<K, V>>, t: seq<K>, n: nat, p: nat, value: V, key: K, last: Option<V>, last': Option<V>)
    requires Distinct(es) && |es| <= n && p < |es|
    requires p == |Since(t, es[p].key)| && es[p].key in t
    requires Holds(es, t, last, n, key)
    requires last' == if key == es[p].key then Some(value) else last
    ensures Distinct(Touched(es, p, value))
    ensures Holds(Touched(es, p, value), t + [es[p].key], last', n, key)
  {
    hide Touched, Position, Distinct, Since;
    var a := es[p].key;
    SinceNext(t, a, key);
    PositionAfterTouch(es, p, value, key);
    PositionIs(es, p);
    CountWith(Since(t, key), a);
    if key != a && key in t {
      SinceCounts(t, key, a);
    }
  }

  lemma {:induction false} InsertHolds<K, V>(
    es: seq<Entry<K, V>>, t: seq<K>, n: nat, e: Entry<K, V>, key: K, last: Option<V>, last': Option<V>)
    requires Distinct(es) && |es| <= n && n > 0 && Position(es, e.key) == |es|
    requires !(e.key in t && |Since(t, e.key)| < n)
    requires Holds(es, t, last, n, key)
    requires last' == if key == e.key then Some(e.value) else last
    ensures Distinct(First([e] + es, n))
    ensures Holds(First([e] + es, n), t + [e.key], last', n, key)
  {
    hide First, Position, Distinct, Since;
    SinceNext(t, e.key, key);
    PositionAfterInsert(es, e, n, key);
    CountWith(Since(t, key), e.key);
    if key != e.key && key in t && e.key in t {
      SinceCounts(t, key, e.key);
    }
  }

  // Main result: after any trace the cache holds exactly the n most recently
  // touched keys, in the order of their last touches, each with the value last
  // inserted under it.
  lemma {:induction false} CacheHoldsMostRecent<K, V>(ops: seq<Op<K, V>>, n: nat, key: K)
    ensures Distinct(After(ops, n)) && |After(ops, n)| <= n
    ensures Holds(After(ops, n), Touches(ops, n), LastInserted(ops, key), n, key)
    decreases |ops|
  {
    hide Holds;
    if ops == [] {
      NothingHeld<K, V>(n, key);
    } else {
      var before, op := ops[..|ops| - 1], ops[|ops| - 1];
      var es, t := After(before, n), Touches(before, n);
      CacheHoldsMostRecent(before, n, key);
      CacheHoldsMostRecent(before, n, op.key);
      HeldPosition(es, t, LastInserted(before, op.key), n, op.key);
      var p := Position(es, op.key);
      var last, last' := LastInserted(before, key), LastInserted(ops, key);
      if p < |es| {
        var value := if op.Insert? then op.value else es[p].value;
        if op.Get? && key == op.key {
          assert last' == last == Some(es[p].value);
        }
        TouchHolds(es, t, n, p, value, key, last, last');
      } else if op.Insert? && n == 0 {
        NothingFits(es, t + [op.key], last', key);
      } else if op.Insert? {
        InsertHolds(es, t, n, Entry(op.key, op.value), key, last, last');
      }
    }
  }

  lemma {:induction false} NothingFits<K, V>(es: seq<Entry<K, V>>, t: seq<K>, last: Option<V>, key: K)
    requires |es| == 0
    ensures Holds(es, t, last, 0, key)
  {
  }

  lemma {:induction false} NothingHeld<K, V>(n: nat, key: K)
    ensures Holds<K, V>([], [], None, n, key)
  {
  }

  lemma {:induction false} HeldPosition<K, V>(es: seq<Entry<K, V>>, t: seq<K>, last: Option<V>, n: nat, key: K)
    requires Holds(es, t, last, n, key)
    ensures var p := Position(es, key);
            && (p < |es| ==> key in t && p == |Since(t, key)| && last == Some(es[p].value))
            && (p == |es| ==> !(key in t && |Since(t, key)| < n))
  {
  }
}
