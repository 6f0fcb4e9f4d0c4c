/** The generic helpers at the top of backup.js: `_groupBy`, `_mapValues`
    and `_flat`, over JavaScript plain objects seen as insertion-ordered
    dictionaries. */
module Helpers {

  /** A JavaScript value that may be `undefined`. */
  datatype Option<T> = None | Some(value: T)

  /** A plain JavaScript object used as a dictionary: `keys` is the order
      in which `Object.keys` lists the properties (insertion order) and
      `vals` holds the value of each. */
  datatype Obj<K(==,!new), V> = Obj(keys: seq<K>, vals: map<K, V>) {

    ghost predicate Valid() {
      && Distinct(keys)
      && forall k :: k in vals <==> k in keys
    }

    /** The object after the assignment `o[k] = v`: a new property is
        listed after the others, an existing one keeps its place. */
    function Put(k: K, v: V): Obj<K, V> {
      if k in vals then Obj(keys, vals[k := v]) else Obj(keys + [k], vals[k := v])
    }
  }

  /** The empty object `{}`. */
  function Empty<K(==,!new), V>(): Obj<K, V> {
    Obj([], map[])
  }

  ghost predicate Distinct<T(!new)>(s: seq<T>) {
    forall i, j :: 0 <= i < j < |s| ==> s[i] != s[j]
  }

  /** `s.map(f)`. */
  function MapSeq<T(!new), U(!new)>(f: T -> U, s: seq<T>): (r: seq<U>)
    ensures |r| == |s|
    ensures forall i :: 0 <= i < |s| ==> r[i] == f(s[i])
  {
    seq(|s|, i requires 0 <= i < |s| => f(s[i]))
  }

  lemma {:induction false} MapSeqAppend<T(!new), U(!new)>(f: T -> U, s: seq<T>, x: T)
    ensures MapSeq(f, s + [x]) == MapSeq(f, s) + [f(x)]
  {
  }

  /** `Object.values(o)`: the values in key order. */
  function Values<K(!new), V>(o: Obj<K, V>): (r: seq<V>)
    requires forall k :: k in o.keys ==> k in o.vals
    ensures |r| == |o.keys|
    ensures forall i :: 0 <= i < |r| ==> r[i] == o.vals[o.keys[i]]
  {
    seq(|o.keys|, i requires 0 <= i < |o.keys| => o.vals[o.keys[i]])
  }

  // ---------------------------------------------------------------------
  // Distinct elements in order of first appearance

  /** The elements of `s` without repeats, each where it first occurs. */
  function FirstSeen<T(==,!new)>(s: seq<T>): (r: seq<T>)
    ensures Distinct(r)
    ensures forall x :: x in r <==> x in s
  {
    if |s| == 0 then []
    else
      var p := FirstSeen(s[..|s| - 1]);
      var x := s[|s| - 1];
      assert forall y :: y in s <==> y in s[..|s| - 1] || y == x by {
        assert s == s[..|s| - 1] + [x];
      }
      if x in p then p else p + [x]
  }

  lemma {:induction false} FirstSeenAppend<T(!new)>(s: seq<T>, x: T)
    ensures FirstSeen(s + [x]) == if x in FirstSeen(s) then FirstSeen(s) else FirstSeen(s) + [x]
  {
    assert (s + [x])[..|s|] == s;
  }

  /** The index of the first occurrence of `x` in `s`. */
  function IndexOf<T(==,!new)>(s: seq<T>, x: T): (i: nat)
    requires x in s
    ensures i < |s| && s[i] == x
    ensures forall j :: 0 <= j < i ==> s[j] != x
  {
    if s[0] == x then 0 else 1 + IndexOf(s[1..], x)
  }

  lemma {:induction false} IndexOfAppend<T(!new)>(s: seq<T>, y: T, x: T)
    requires x in s
    ensures IndexOf(s + [y], x) == IndexOf(s, x)
  {
    var i := IndexOf(s, x);
    var t := s + [y];
    assert t[i] == x;
    assert forall j :: 0 <= j < i ==> t[j] == s[j];
  }

  /** `FirstSeen` lists the elements in the order of their first
      occurrences. */
  lemma {:induction false} FirstSeenOrder<T(!new)>(s: seq<T>)
    ensures forall i, j :: 0 <= i < j < |FirstSeen(s)| ==>
      IndexOf(s, FirstSeen(s)[i]) < IndexOf(s, FirstSeen(s)[j])
  {
    if |s| > 0 {
      var s' := s[..|s| - 1];
      var x := s[|s| - 1];
      assert s == s' + [x];
      FirstSeenOrder(s');
      var p := FirstSeen(s');
      forall y | y in p ensures IndexOf(s, y) == IndexOf(s', y) {
        IndexOfAppend(s', x, y);
      }
      if x !in p {
        assert IndexOf(s, x) == |s'|;
      }
    }
  }

  // ---------------------------------------------------------------------
  // _groupBy (backup.js:14-22)

  /** The items whose key is `k`, in input order. */
  function Bucket<T(!new), K(==,!new)>(items: seq<T>, key: T -> K, k: K): seq<T>
  {
    if |items| == 0 then []
    else
      var last := items[|items| - 1];
      Bucket(items[..|items| - 1], key, k) + (if key(last) == k then [last] else [])
  }

  /** The bucket of `k` holds exactly the items whose key is `k`. */
  lemma {:induction false} BucketMembers<T(!new), K(!new)>(items: seq<T>, key: T -> K, k: K)
    ensures forall x :: x in Bucket(items, key, k) <==> x in items && key(x) == k
  {
    if |items| > 0 {
      var items' := items[..|items| - 1];
      assert items == items' + [items[|items| - 1]];
      BucketMembers(items', key, k);
    }
  }

  /** Appending an item appends it to the bucket of its key only. */
  lemma {:induction false} BucketAppend<T(!new), K(!new)>(items: seq<T>, x: T, key: T -> K, k: K)
    ensures Bucket(items + [x], key, k) == Bucket(items, key, k) + (if key(x) == k then [x] else [])
  {
    assert (items + [x])[..|items|] == items;
  }

  /** A key that no item has has an empty bucket. */
  lemma {:induction false} BucketAbsent<T(!new), K(!new)>(items: seq<T>, key: T -> K, k: K)
    requires k !in MapSeq(key, items)
    ensures Bucket(items, key, k) == []
  {
    if |items| > 0 {
      var items' := items[..|items| - 1];
      assert MapSeq(key, items') == MapSeq(key, items)[..|items| - 1];
      BucketAbsent(items', key, k);
      assert key(items[|items| - 1]) == MapSeq(key, items)[|items| - 1];
    }
  }

  /** The body of the `forEach` in `_groupBy`: the item goes to the end of
      the bucket of its key, or opens a new bucket when the key is new. */
  function AddToBucket<T(!new), K(==,!new)>(g: Obj<K, seq<T>>, x: T, key: T -> K): Obj<K, seq<T>>
  {
    var k := key(x);
    if k in g.vals then g.Put(k, g.vals[k] + [x]) else g.Put(k, [x])
  }

  /** The object `_groupBy(items, key)` builds, one item after another. */
  function Grouped<T(!new), K(==,!new)>(items: seq<T>, key: T -> K): (r: Obj<K, seq<T>>)
    ensures r.Valid()
    ensures |items| > 0 ==> |r.keys| > 0
  {
    if |items| == 0 then Empty()
    else AddToBucket(Grouped(items[..|items| - 1], key), items[|items| - 1], key)
  }

  /** `_groupBy(items, keyMap)` with a function `keyMap`. */
  method GroupBy<T(!new), K(==,!new)>(items: seq<T>, key: T -> K) returns (result: Obj<K, seq<T>>)
    ensures result == Grouped(items, key)
  {
    result := Empty();
    for i := 0 to |items|
      invariant result == Grouped(items[..i], key)
    {
      var item := items[i];
      var k := key(item);
      if k in result.vals {
        result := result.Put(k, result.vals[k] + [item]);
      } else {
        result := result.Put(k, [item]);
      }
      assert items[..i + 1][..i] == items[..i];
    }
    assert items[..|items|] == items;
  }

  /** `_groupBy` has one property per distinct key, listed in order of
      first appearance, and each holds exactly the items with that key in
      input order. */
  lemma {:induction false} GroupedSpec<T(!new), K(!new)>(items: seq<T>, key: T -> K)
    ensures Grouped(items, key).keys == FirstSeen(MapSeq(key, items))
    ensures forall k :: k in Grouped(items, key).vals <==> k in MapSeq(key, items)
    ensures forall k :: k in Grouped(items, key).vals ==>
      Grouped(items, key).vals[k] == Bucket(items, key, k)
  {
    if |items| > 0 {
      var items' := items[..|items| - 1];
      var x := items[|items| - 1];
      var k := key(x);
      var g' := Grouped(items', key);
      var g := Grouped(items, key);
      assert items == items' + [x];
      GroupedSpec(items', key);
      var ks' := MapSeq(key, items');
      assert MapSeq(key, items) == ks' + [k] by {
        MapSeqAppend(key, items', x);
      }
      assert g.keys == FirstSeen(MapSeq(key, items)) by {
        FirstSeenAppend(ks', k);
      }
      assert forall k' :: k' in g.vals <==> k' in ks' || k' == k;
      forall k' | k' in g.vals ensures g.vals[k'] == Bucket(items, key, k') {
        BucketAppend(items', x, key, k');
        if k' == k && k !in g'.vals {
          BucketAbsent(items', key, k);
        }
      }
    }
  }

  /** The object `_groupBy` returns is a well-formed dictionary whose keys
      are exactly the keys of the items. */
  lemma {:induction false} GroupedKeys<T(!new), K(!new)>(items: seq<T>, key: T -> K)
    ensures Grouped(items, key).Valid()
    ensures forall k :: k in Grouped(items, key).vals <==>
      exists i :: 0 <= i < |items| && key(items[i]) == k
  {
    GroupedSpec(items, key);
    var ks := MapSeq(key, items);
    forall k ensures k in ks <==> exists i :: 0 <= i < |items| && key(items[i]) == k {
      if k in ks {
        var i :| 0 <= i < |ks| && ks[i] == k;
        assert key(items[i]) == k;
      }
    }
  }

  /** Every item sits in the bucket of its own key and in no other, and no
      bucket is empty. */
  lemma {:induction false} GroupedPartition<T(!new), K(!new)>(items: seq<T>, key: T -> K)
    ensures forall k, x :: k in Grouped(items, key).vals ==>
      (x in Grouped(items, key).vals[k] <==> x in items && key(x) == k)
    ensures forall i :: 0 <= i < |items| ==>
      key(items[i]) in Grouped(items, key).vals &&
      items[i] in Grouped(items, key).vals[key(items[i])]
    ensures forall k :: k in Grouped(items, key).vals ==> |Grouped(items, key).vals[k]| > 0
  {
    GroupedSpec(items, key);
    var g := Grouped(items, key);
    var ks := MapSeq(key, items);
    forall k | k in g.vals ensures forall x :: x in g.vals[k] <==> x in items && key(x) == k {
      BucketMembers(items, key, k);
    }
    forall k | k in g.vals ensures |g.vals[k]| > 0 {
      var i :| 0 <= i < |ks| && ks[i] == k;
      assert items[i] in g.vals[k];
    }
    forall i | 0 <= i < |items|
      ensures key(items[i]) in g.vals && items[i] in g.vals[key(items[i])]
    {
      assert ks[i] == key(items[i]);
    }
  }

  /** The keys of `_groupBy` appear in the order in which they first occur
      among the items. */
  lemma {:induction false} GroupedKeyOrder<T(!new), K(!new)>(items: seq<T>, key: T -> K)
    ensures forall k :: k in Grouped(items, key).keys <==> k in MapSeq(key, items)
    ensures forall i, j :: 0 <= i < j < |Grouped(items, key).keys| ==>
      IndexOf(MapSeq(key, items), Grouped(items, key).keys[i]) <
      IndexOf(MapSeq(key, items), Grouped(items, key).keys[j])
  {
    GroupedSpec(items, key);
    FirstSeenOrder(MapSeq(key, items));
  }

  // ---------------------------------------------------------------------
  // Reading the buckets back in key order

  /** The buckets of the keys `ks`, each mapped through `f`, one after the
      other. */
  ghost function Gather<T(!new), K(!new), U(!new)>(ks: seq<K>, items: seq<T>, key: T -> K, f: T -> U): seq<U>
  {
    if |ks| == 0 then [] else MapSeq(f, Bucket(items, key, ks[0])) + Gather(ks[1..], items, key, f)
  }

  lemma {:induction false} GatherAppendKey<T(!new), K(!new), U(!new)>(ks: seq<K>, k: K, items: seq<T>, key: T -> K, f: T -> U)
    ensures Gather(ks + [k], items, key, f) == Gather(ks, items, key, f) + MapSeq(f, Bucket(items, key, k))
  {
    if |ks| > 0 {
      assert (ks + [k])[1..] == ks[1..] + [k];
      GatherAppendKey(ks[1..], k, items, key, f);
    }
  }

  /** Adding an item adds its image exactly once if its key is among the
      distinct keys `ks`, and not at all otherwise. */
  lemma {:induction false} GatherAppendItem<T(!new), K(!new), U(!new)>(ks: seq<K>, items: seq<T>, x: T, key: T -> K, f: T -> U)
    requires Distinct(ks)
    ensures multiset(Gather(ks, items + [x], key, f)) ==
      multiset(Gather(ks, items, key, f)) + (if key(x) in ks then multiset{f(x)} else multiset{})
    decreases |ks|
  {
    if |ks| > 0 {
      var k := ks[0];
      var items' := items + [x];
      var b := MapSeq(f, Bucket(items, key, k));
      var b' := MapSeq(f, Bucket(items', key, k));
      var rest := Gather(ks[1..], items, key, f);
      var rest' := Gather(ks[1..], items', key, f);
      assert Gather(ks, items, key, f) == b + rest;
      assert Gather(ks, items', key, f) == b' + rest';
      assert Distinct(ks[1..]);
      GatherAppendItem(ks[1..], items, x, key, f);
      if key(x) == k {
        assert key(x) !in ks[1..];
        assert multiset(rest') == multiset(rest);
        assert b' == b + [f(x)] by {
          BucketAppend(items, x, key, k);
          MapSeqAppend(f, Bucket(items, key, k), x);
        }
        assert multiset(b' + rest') == multiset(b + rest) + multiset{f(x)};
      } else {
        assert key(x) in ks <==> key(x) in ks[1..];
        assert b' == b by {
          BucketAppend(items, x, key, k);
        }
        assert multiset(b' + rest') == multiset(b) + multiset(rest');
      }
    }
  }

  /** An item with a new key adds a bucket holding just that item. */
  lemma {:induction false} GatherNewKey<T(!new), K(!new), U(!new)>(ks: seq<K>, items: seq<T>, x: T, key: T -> K, f: T -> U)
    requires key(x) !in MapSeq(key, items)
    ensures Gather(ks + [key(x)], items + [x], key, f) == Gather(ks, items + [x], key, f) + [f(x)]
  {
    GatherAppendKey(ks, key(x), items + [x], key, f);
    BucketAbsent(items, key, key(x));
    BucketAppend(items, x, key, key(x));
    assert MapSeq(f, [x]) == [f(x)];
  }

  /** Reading the buckets back in the order of their keys gives every item
      once: a permutation of the items, mapped through `f`. */
  lemma {:induction false} GatherGrouped<T(!new), K(!new), U(!new)>(items: seq<T>, key: T -> K, f: T -> U)
    ensures multiset(Gather(FirstSeen(MapSeq(key, items)), items, key, f)) == multiset(MapSeq(f, items))
  {
    if |items| > 0 {
      var items' := items[..|items| - 1];
      var x := items[|items| - 1];
      assert items == items' + [x];
      var ks' := MapSeq(key, items');
      MapSeqAppend(key, items', x);
      MapSeqAppend(f, items', x);
      var p := FirstSeen(ks');
      FirstSeenAppend(ks', key(x));
      GatherGrouped(items', key, f);
      GatherAppendItem(p, items', x, key, f);
      if key(x) !in p {
        GatherNewKey(p, items', x, key, f);
      }
    }
  }

  // ---------------------------------------------------------------------
  // _mapValues (backup.js:24-30)

  /** What `_mapValues(o, f)` returns. */
  function MapObj<K(!new), V, W>(o: Obj<K, V>, f: V -> W): (r: Obj<K, W>)
    ensures o.Valid() ==> r.Valid()
  {
    Obj(o.keys, map k | k in o.vals :: f(o.vals[k]))
  }

  /** `_mapValues(obj, f)`: a new object with the same keys in the same
      order, each value replaced by its image under `f`. */
  method MapValues<K(==,!new), V, W>(obj: Obj<K, V>, f: V -> W) returns (r: Obj<K, W>)
    requires obj.Valid()
    ensures r.Valid()
    ensures r.keys == obj.keys
    ensures forall k :: k in r.vals <==> k in obj.vals
    ensures forall k :: k in obj.vals ==> r.vals[k] == f(obj.vals[k])
    ensures r == MapObj(obj, f)
  {
    r := Empty();
    for i := 0 to |obj.keys|
      invariant r.keys == obj.keys[..i]
      invariant forall k :: k in r.vals <==> k in obj.keys[..i]
      invariant forall k :: k in r.vals ==> r.vals[k] == f(obj.vals[k])
    {
      var k := obj.keys[i];
      assert obj.keys[..i + 1] == obj.keys[..i] + [k];
      assert k !in r.vals;
      r := r.Put(k, f(obj.vals[k]));
    }
    assert obj.keys[..|obj.keys|] == obj.keys;
  }

  // ---------------------------------------------------------------------
  // _flat (backup.js:32)

  /** `_flat(arrs)`, that is `[].concat.call(...arrs)`: the arrays one
      after the other. JavaScript throws when `arrs` is empty. */
  function Flat<T(!new)>(arrs: seq<seq<T>>): (r: seq<T>)
    requires |arrs| > 0
    ensures forall x :: x in r <==> exists i :: 0 <= i < |arrs| && x in arrs[i]
  {
    if |arrs| == 1 then arrs[0] else arrs[0] + Flat(arrs[1..])
  }

  /** Flattening two arrays is concatenating them. */
  lemma {:induction false} FlatPair<T(!new)>(a: seq<T>, b: seq<T>)
    ensures Flat([a, b]) == a + b
  {
    assert [a, b][1..] == [b];
  }

  /** Flattening keeps every array whole and in order: flattening a
      concatenation of array lists concatenates the results. */
  lemma {:induction false} FlatConcat<T(!new)>(a: seq<seq<T>>, b: seq<seq<T>>)
    requires |a| > 0 && |b| > 0
    ensures Flat(a + b) == Flat(a) + Flat(b)
    decreases |a|
  {
    if |a| == 1 {
      assert (a + b)[1..] == b;
    } else {
      assert (a + b)[1..] == a[1..] + b;
      FlatConcat(a[1..], b);
    }
  }

  /** Flattening the mapped buckets of the keys `ks`, listed in key order,
      is reading them back one after the other. */
  lemma {:induction false} FlatBuckets<T(!new), K(!new), U(!new)>(bs: seq<seq<U>>, ks: seq<K>, items: seq<T>, key: T -> K, f: T -> U)
    requires |bs| == |ks| > 0
    requires forall i :: 0 <= i < |ks| ==> bs[i] == MapSeq(f, Bucket(items, key, ks[i]))
    ensures Flat(bs) == Gather(ks, items, key, f)
    decreases |ks|
  {
    if |ks| > 1 {
      FlatBuckets(bs[1..], ks[1..], items, key, f);
    }
  }

  /** Flattening the buckets of `_groupBy`, read in key order and each
      mapped through `f`, gives every item's image exactly once. */
  lemma {:induction false} FlatGrouped<T(!new), K(!new), U(!new)>(items: seq<T>, key: T -> K, f: T -> U, vs: seq<seq<U>>)
    requires |items| > 0
    requires |vs| == |Grouped(items, key).keys|
    requires forall i :: 0 <= i < |vs| ==>
      vs[i] == MapSeq(f, Grouped(items, key).vals[Grouped(items, key).keys[i]])
    ensures |vs| > 0
    ensures multiset(Flat(vs)) == multiset(MapSeq(f, items))
  {
    var g := Grouped(items, key);
    GroupedSpec(items, key);
    assert MapSeq(key, items)[0] in g.keys;
    assert Flat(vs) == Gather(g.keys, items, key, f) by {
      FlatBuckets(vs, g.keys, items, key, f);
    }
    GatherGrouped(items, key, f);
  }

  /** Reading the buckets of `_groupBy` back in key order gives every item
      exactly once. */
  lemma {:induction false} GroupedSizes<T(!new), K(!new)>(items: seq<T>, key: T -> K)
    requires |items| > 0
    ensures |Grouped(items, key).keys| > 0
    ensures multiset(Flat(Values(Grouped(items, key)))) == multiset(items)
  {
    var g := Grouped(items, key);
    var id := (x: T) => x;
    var vs := Values(g);
    forall i | 0 <= i < |vs| ensures vs[i] == MapSeq(id, g.vals[g.keys[i]]) {
      assert MapSeq(id, vs[i]) == vs[i];
    }
    FlatGrouped(items, key, id, vs);
    assert MapSeq(id, items) == items;
  }

  lemma {:induction false} GroupedCount<T(!new), K(!new)>(items: seq<T>, key: T -> K)
    requires |items| > 0
    ensures |Grouped(items, key).keys| > 0
    ensures |Flat(Values(Grouped(items, key)))| == |items|
  {
    GroupedSizes(items, key);
    var s := Flat(Values(Grouped(items, key)));
    assert |s| == |multiset(s)|;
    assert |items| == |multiset(items)|;
  }
}
