/**
 * An ordered map from int keys, as java.util.TreeMap is used by the loader:
 * `put` and `floorEntry`. Entries are kept in strictly ascending key order.
 */
module FloorMap {
  import opened Results

  datatype Entry<V> = Entry(key: int, value: V)

  ghost predicate Sorted<V>(r: seq<Entry<V>>)
  {
    forall i, j :: 0 <= i < j < |r| ==> r[i].key < r[j].key
  }

  function KeySet<V>(r: seq<Entry<V>>): set<int>
  {
    set i | 0 <= i < |r| :: r[i].key
  }

  /** The map the entries stand for. */
  function ToMap<V>(r: seq<Entry<V>>): map<int, V>
  {
    if r == [] then map[] else ToMap(r[1..])[r[0].key := r[0].value]
  }

  lemma KeySetCons<V>(e: Entry<V>, r: seq<Entry<V>>)
    ensures KeySet([e] + r) == KeySet(r) + {e.key}
    ensures ToMap([e] + r) == ToMap(r)[e.key := e.value]
  {
    var r' := [e] + r;
    assert r'[1..] == r;
    assert r'[0].key == e.key;
    forall x | x in KeySet(r') ensures x in KeySet(r) + {e.key} {
      var i :| 0 <= i < |r'| && r'[i].key == x;
      if i > 0 { assert r'[i] == r[i - 1]; }
    }
    forall x | x in KeySet(r) ensures x in KeySet(r') {
      var i :| 0 <= i < |r| && r[i].key == x;
      assert r'[i + 1] == r[i];
    }
  }

  lemma {:induction false} ToMapKeys<V>(r: seq<Entry<V>>)
    ensures ToMap(r).Keys == KeySet(r)
  {
    if r != [] {
      ToMapKeys(r[1..]);
      assert [r[0]] + r[1..] == r;
      KeySetCons(r[0], r[1..]);
    }
  }

  /** In a sorted sequence every entry is what the map holds under its key. */
  lemma {:induction false} ToMapAt<V>(r: seq<Entry<V>>, i: int)
    requires Sorted(r) && 0 <= i < |r|
    ensures r[i].key in ToMap(r) && ToMap(r)[r[i].key] == r[i].value
  {
    if i > 0 {
      ToMapAt(r[1..], i - 1);
      assert r[1..][i - 1] == r[i];
    }
  }

  /** The first key of a sorted sequence is below all the others. */
  lemma SortedHead<V>(r: seq<Entry<V>>)
    requires Sorted(r) && r != []
    ensures Sorted(r[1..])
    ensures forall x :: x in KeySet(r[1..]) ==> r[0].key < x
  {
    forall x | x in KeySet(r[1..]) ensures r[0].key < x {
      var i :| 0 <= i < |r[1..]| && r[1..][i].key == x;
      assert r[1..][i] == r[i + 1];
    }
  }

  /** Putting a sorted tail behind a smaller key keeps the sequence sorted. */
  lemma SortedCons<V>(e: Entry<V>, r: seq<Entry<V>>)
    requires Sorted(r) && forall x :: x in KeySet(r) ==> e.key < x
    ensures Sorted([e] + r)
  {
    var r' := [e] + r;
    forall i, j | 0 <= i < j < |r'| ensures r'[i].key < r'[j].key {
      assert r'[j] == r[j - 1];
      assert r[j - 1].key in KeySet(r);
      if i > 0 { assert r'[i] == r[i - 1]; }
    }
  }

  /** Put's case for a key below every key: the entry goes in front. */
  lemma PutFront<V>(r: seq<Entry<V>>, k: int, v: V)
    requires Sorted(r) && (r == [] || k < r[0].key)
    ensures Sorted([Entry(k, v)] + r)
    ensures KeySet([Entry(k, v)] + r) == KeySet(r) + {k}
    ensures ToMap([Entry(k, v)] + r) == ToMap(r)[k := v]
  {
    KeySetCons(Entry(k, v), r);
    if r != [] {
      assert [r[0]] + r[1..] == r;
      KeySetCons(r[0], r[1..]);
      SortedHead(r);
    }
    SortedCons(Entry(k, v), r);
  }

  /** Put's case for the first key: its value is replaced. */
  lemma PutHead<V>(r: seq<Entry<V>>, k: int, v: V)
    requires Sorted(r) && r != [] && k == r[0].key
    ensures Sorted([Entry(k, v)] + r[1..])
    ensures KeySet([Entry(k, v)] + r[1..]) == KeySet(r) + {k}
    ensures ToMap([Entry(k, v)] + r[1..]) == ToMap(r)[k := v]
  {
    assert [r[0]] + r[1..] == r;
    KeySetCons(r[0], r[1..]);
    KeySetCons(Entry(k, v), r[1..]);
    SortedHead(r);
    SortedCons(Entry(k, v), r[1..]);
  }

  /** Put's case for a key past the first: the first entry stays in front of the rest's put. */
  lemma PutBehind<V>(r: seq<Entry<V>>, k: int, v: V, tail: seq<Entry<V>>)
    requires Sorted(r) && r != [] && k > r[0].key
    requires Sorted(tail) && KeySet(tail) == KeySet(r[1..]) + {k}
    requires ToMap(tail) == ToMap(r[1..])[k := v]
    ensures Sorted([r[0]] + tail)
    ensures KeySet([r[0]] + tail) == KeySet(r) + {k}
    ensures ToMap([r[0]] + tail) == ToMap(r)[k := v]
  {
    var e := r[0];
    assert [e] + r[1..] == r;
    KeySetCons(e, r[1..]);
    KeySetCons(e, tail);
    SortedHead(r);
    SortedCons(e, tail);
    UpdateCommute(ToMap(r[1..]), k, v, e.key, e.value);
  }

  lemma UpdateCommute<V>(m: map<int, V>, a: int, x: V, b: int, y: V)
    requires a != b
    ensures m[a := x][b := y] == m[b := y][a := x]
  {
  }

  /** TreeMap.put: insert, or replace the value under an existing key. */
  function Put<V>(r: seq<Entry<V>>, k: int, v: V): (r': seq<Entry<V>>)
    requires Sorted(r)
    ensures Sorted(r')
    ensures KeySet(r') == KeySet(r) + {k}
    ensures ToMap(r') == ToMap(r)[k := v]
  {
    if r == [] || k < r[0].key then
      PutFront(r, k, v);
      [Entry(k, v)] + r
    else if k == r[0].key then
      PutHead(r, k, v);
      [Entry(k, v)] + r[1..]
    else
      SortedHead(r);
      var tail := Put(r[1..], k, v);
      PutBehind(r, k, v, tail);
      [r[0]] + tail
  }

  /**
   * TreeMap.floorEntry: the entry with the greatest key not above `g`, or
   * null when every key is above `g`.
   */
  function Floor<V>(r: seq<Entry<V>>, g: int): (o: Option<Entry<V>>)
    requires Sorted(r)
    ensures o.None? <==> forall i :: 0 <= i < |r| ==> r[i].key > g
    ensures o.Some? ==> o.value in r && o.value.key <= g
    ensures o.Some? ==> forall i :: 0 <= i < |r| && r[i].key <= g ==> r[i].key <= o.value.key
  {
    if r == [] then None
    else if r[|r| - 1].key <= g then Some(r[|r| - 1])
    else
      var o := Floor(r[..|r| - 1], g);
      assert forall i :: 0 <= i < |r| - 1 ==> r[..|r| - 1][i] == r[i];
      o
  }

  /** floorEntry read on the map: the greatest key `k <= g` and its value. */
  lemma FloorOfMap<V>(r: seq<Entry<V>>, g: int)
    requires Sorted(r)
    ensures Floor(r, g).None? <==> forall k :: k in ToMap(r) ==> k > g
    ensures Floor(r, g).Some? ==>
      var e := Floor(r, g).value;
      e.key in ToMap(r) && ToMap(r)[e.key] == e.value && e.key <= g
      && forall k :: k in ToMap(r) && k <= g ==> k <= e.key
  {
    ToMapKeys(r);
    if Floor(r, g).Some? {
      var e := Floor(r, g).value;
      var i :| 0 <= i < |r| && r[i] == e;
      ToMapAt(r, i);
      forall k | k in ToMap(r) && k <= g ensures k <= e.key {
        var j :| 0 <= j < |r| && r[j].key == k;
      }
    } else {
      forall k | k in ToMap(r) ensures k > g {
        var j :| 0 <= j < |r| && r[j].key == k;
      }
    }
  }
}
