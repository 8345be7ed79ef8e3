/** The bucket array of ee/erl/src/hashtab.c as a value: chains of items, one chain per bucket. */
module Buckets {
  /** A hitem: its node in the recycler, the key, what is stored with it, and the 32-bit hash of the key. */
  datatype Item<K, V> = Item(node: int, key: K, stuff: V, hval: nat)

  type Table<K, V> = seq<seq<Item<K, V>>>

  /** The bucket a hash value belongs to: `hval & mask` where the table length is mask + 1, a power of two. */
  function Home<K, V>(t: Table<K, V>, hval: nat): (b: int)
    requires |t| > 0
    ensures 0 <= b < |t|
  {
    hval % |t|
  }

  ghost predicate InHome<K, V>(t: Table<K, V>, x: Item<K, V>)
    requires |t| > 0
  {
    x in t[Home(t, x.hval)]
  }

  ghost predicate AtHome<K, V>(t: Table<K, V>, b: int, i: int)
    requires |t| > 0 && 0 <= b < |t| && 0 <= i < |t[b]|
  {
    Home(t, t[b][i].hval) == b
  }

  ghost predicate Differ<K, V>(t: Table<K, V>, b: int, i: int, j: int)
    requires 0 <= b < |t| && 0 <= i < |t[b]| && 0 <= j < |t[b]|
  {
    t[b][i] != t[b][j]
  }

  /** The table holds exactly the items `s`, each once, in the bucket of its hash. */
  ghost predicate Holds<K(!new), V(!new)>(t: Table<K, V>, s: set<Item<K, V>>) {
    && |t| > 0
    && (forall x {:trigger InHome(t, x)} {:trigger x in s} :: x in s <==> InHome(t, x))
    && (forall b, i {:trigger AtHome(t, b, i)} :: 0 <= b < |t| && 0 <= i < |t[b]| ==> AtHome(t, b, i))
    && (forall b, i, j {:trigger Differ(t, b, i, j)} :: 0 <= b < |t| && 0 <= i < j < |t[b]| ==> Differ(t, b, i, j))
  }

  lemma ItemAt<K(!new), V(!new)>(t: Table<K, V>, s: set<Item<K, V>>, b: int, i: int)
    requires Holds(t, s) && 0 <= b < |t| && 0 <= i < |t[b]|
    ensures t[b][i] in s && Home(t, t[b][i].hval) == b
  {
    assert AtHome(t, b, i);
    assert InHome(t, t[b][i]);
  }

  /** Where an item of the table is. */
  lemma ItemIndex<K(!new), V(!new)>(t: Table<K, V>, s: set<Item<K, V>>, x: Item<K, V>) returns (i: int)
    requires Holds(t, s) && x in s
    ensures 0 <= i < |t[Home(t, x.hval)]| && t[Home(t, x.hval)][i] == x
  {
    assert InHome(t, x);
    i :| 0 <= i < |t[Home(t, x.hval)]| && t[Home(t, x.hval)][i] == x;
  }

  lemma NotBefore<K(!new), V(!new)>(t: Table<K, V>, s: set<Item<K, V>>, b: int, k: int)
    requires Holds(t, s) && 0 <= b < |t| && 0 <= k < |t[b]|
    ensures t[b][k] !in t[b][..k]
  {
    forall j | 0 <= j < k ensures t[b][..k][j] != t[b][k] {
      assert Differ(t, b, j, k);
    }
  }

  function Push<K, V>(t: Table<K, V>, x: Item<K, V>): (t': Table<K, V>)
    requires |t| > 0
    ensures |t'| == |t|
  {
    t[Home(t, x.hval) := [x] + t[Home(t, x.hval)]]
  }

  lemma PushHolds<K(!new), V(!new)>(t: Table<K, V>, s: set<Item<K, V>>, x: Item<K, V>)
    requires Holds(t, s) && x !in s
    ensures Holds(Push(t, x), s + {x})
  {
    var t', h := Push(t, x), Home(t, x.hval);
    forall y ensures y in s + {x} <==> InHome(t', y) {
      assert y in s <==> InHome(t, y);
    }
    forall b, i | 0 <= b < |t'| && 0 <= i < |t'[b]| ensures AtHome(t', b, i) {
      if b != h { assert AtHome(t, b, i); } else if i > 0 { assert AtHome(t, b, i - 1); }
    }
    forall b, i, j | 0 <= b < |t'| && 0 <= i < j < |t'[b]| ensures Differ(t', b, i, j) {
      if b != h {
        assert Differ(t, b, i, j);
      } else if i > 0 {
        assert Differ(t, b, i - 1, j - 1);
      } else {
        ItemAt(t, s, b, j - 1);
      }
    }
  }

  function RemoveAt<T>(s: seq<T>, k: int): (r: seq<T>)
    requires 0 <= k < |s|
    ensures |r| == |s| - 1
    ensures forall i {:trigger r[i]} :: 0 <= i < |r| ==> r[i] == s[if i < k then i else i + 1]
  {
    s[..k] + s[k + 1..]
  }

  function Drop<K, V>(t: Table<K, V>, b: int, k: int): (t': Table<K, V>)
    requires 0 <= b < |t| && 0 <= k < |t[b]|
    ensures |t'| == |t|
  {
    t[b := RemoveAt(t[b], k)]
  }

  lemma DropHolds<K(!new), V(!new)>(t: Table<K, V>, s: set<Item<K, V>>, b: int, k: int)
    requires Holds(t, s) && 0 <= b < |t| && 0 <= k < |t[b]|
    ensures t[b][k] in s && Holds(Drop(t, b, k), s - {t[b][k]})
  {
    var t', x := Drop(t, b, k), t[b][k];
    ItemAt(t, s, b, k);
    forall y ensures y in s - {x} <==> InHome(t', y) {
      DropMember(t, s, b, k, y);
    }
    forall c, i | 0 <= c < |t'| && 0 <= i < |t'[c]| ensures AtHome(t', c, i) {
      assert AtHome(t, c, if c == b && i >= k then i + 1 else i);
    }
    forall c, i, j | 0 <= c < |t'| && 0 <= i < j < |t'[c]| ensures Differ(t', c, i, j) {
      assert Differ(t, c, if c == b && i >= k then i + 1 else i, if c == b && j >= k then j + 1 else j);
    }
  }

  lemma DropMember<K(!new), V(!new)>(t: Table<K, V>, s: set<Item<K, V>>, b: int, k: int, y: Item<K, V>)
    requires Holds(t, s) && 0 <= b < |t| && 0 <= k < |t[b]|
    ensures InHome(Drop(t, b, k), y) <==> y in s && y != t[b][k]
  {
    var t', x := Drop(t, b, k), t[b][k];
    ItemAt(t, s, b, k);
    if y in s && y != x {
      var i := ItemIndex(t, s, y);
      var h := Home(t, y.hval);
      if h == b { assert t'[b][if i < k then i else i - 1] == y; }
    }
    if InHome(t', y) {
      var h := Home(t, y.hval);
      var i :| 0 <= i < |t'[h]| && t'[h][i] == y;
      var i' := if h == b && i >= k then i + 1 else i;
      assert t[h][i'] == y;
      ItemAt(t, s, h, i');
      if h == b {
        assert Differ(t, b, if i' < k then i' else k, if i' < k then k else i');
      }
    }
  }

  // ---- Traversal order: bucket by bucket, each chain from its head ----

  ghost function Start<K, V>(t: Table<K, V>, b: int): (n: nat)
    requires 0 <= b <= |t|
  {
    if b == 0 then 0 else Start(t, b - 1) + |t[b - 1]|
  }

  ghost function Flat<K, V>(t: Table<K, V>, n: int): (r: seq<Item<K, V>>)
    requires 0 <= n <= |t|
    ensures |r| == Start(t, n)
  {
    if n == 0 then [] else Flat(t, n - 1) + t[n - 1]
  }

  ghost function Order<K, V>(t: Table<K, V>): (r: seq<Item<K, V>>)
    ensures |r| == Start(t, |t|)
  {
    Flat(t, |t|)
  }

  lemma {:induction false} FlatAt<K, V>(t: Table<K, V>, n: int, b: int, i: int)
    requires 0 <= b < n <= |t| && 0 <= i < |t[b]|
    ensures Start(t, b) + i < Start(t, b + 1) <= Start(t, n)
    ensures Flat(t, n)[Start(t, b) + i] == t[b][i]
    decreases n
  {
    if b < n - 1 { FlatAt(t, n - 1, b, i); }
  }

  /** The bucket and chain position of the k-th item. */
  lemma {:induction false} FlatIndex<K, V>(t: Table<K, V>, n: int, k: int) returns (b: int, i: int)
    requires 0 <= n <= |t| && 0 <= k < Start(t, n)
    ensures 0 <= b < n && 0 <= i < |t[b]| && k == Start(t, b) + i && Flat(t, n)[k] == t[b][i]
    decreases n
  {
    if k >= Start(t, n - 1) {
      b, i := n - 1, k - Start(t, n - 1);
    } else {
      b, i := FlatIndex(t, n - 1, k);
    }
  }

  lemma {:induction false} StartMonotone<K, V>(t: Table<K, V>, b: int, c: int)
    requires 0 <= b <= c <= |t|
    ensures Start(t, b) <= Start(t, c)
    decreases c
  {
    if b < c { StartMonotone(t, b, c - 1); }
  }

  lemma {:induction false} StartSkips<K, V>(t: Table<K, V>, b: int, c: int)
    requires 0 <= b <= c <= |t| && forall i :: b <= i < c ==> t[i] == []
    ensures Start(t, b) == Start(t, c)
    decreases c
  {
    if b < c { StartSkips(t, b, c - 1); }
  }

  lemma {:induction false} FlatSame<K, V>(t: Table<K, V>, t': Table<K, V>, n: int)
    requires 0 <= n <= |t| && n <= |t'| && forall b :: 0 <= b < n ==> t[b] == t'[b]
    ensures Start(t', n) == Start(t, n) && Flat(t', n) == Flat(t, n)
    decreases n
  {
    if n > 0 { FlatSame(t, t', n - 1); }
  }

  lemma RemoveLeft<T>(s: seq<T>, u: seq<T>, k: int)
    requires 0 <= k < |s|
    ensures RemoveAt(s, k) + u == RemoveAt(s + u, k)
  {
  }

  lemma RemoveRight<T>(s: seq<T>, u: seq<T>, k: int)
    requires 0 <= k < |u|
    ensures s + RemoveAt(u, k) == RemoveAt(s + u, |s| + k)
  {
  }

  /** Dropping an item from a chain drops it from the traversal order. */
  lemma {:induction false} FlatDrop<K, V>(t: Table<K, V>, n: int, b: int, k: int)
    requires 0 <= b < n <= |t| && 0 <= k < |t[b]|
    ensures Start(t, b) + k < Start(t, n)
    ensures Start(Drop(t, b, k), b) == Start(t, b)
    ensures Flat(Drop(t, b, k), n) == RemoveAt(Flat(t, n), Start(t, b) + k)
    decreases n
  {
    var t', p := Drop(t, b, k), Start(t, b) + k;
    if b < n - 1 {
      FlatDrop(t, n - 1, b, k);
      assert t'[n - 1] == t[n - 1];
      RemoveLeft(Flat(t, n - 1), t[n - 1], p);
    } else {
      FlatSame(t, t', b);
      RemoveRight(Flat(t, b), t[b], k);
    }
  }

  /** The traversal order lists every item of the table exactly once. */
  lemma OrderLists<K(!new), V(!new)>(t: Table<K, V>, s: set<Item<K, V>>)
    requires Holds(t, s)
    ensures forall i, j {:trigger Order(t)[i], Order(t)[j]} :: 0 <= i < j < |Order(t)| ==> Order(t)[i] != Order(t)[j]
    ensures forall x :: x in s <==> x in Order(t)
    ensures |Order(t)| == |s|
  {
    forall i, j | 0 <= i < j < |Order(t)| ensures Order(t)[i] != Order(t)[j] {
      var b, k := FlatIndex(t, |t|, i);
      var c, l := FlatIndex(t, |t|, j);
      ItemAt(t, s, b, k);
      ItemAt(t, s, c, l);
      if b == c { assert Differ(t, b, k, l); }
    }
    forall x ensures x in s <==> x in Order(t) {
      if x in s {
        var i := ItemIndex(t, s, x);
        FlatAt(t, |t|, Home(t, x.hval), i);
      }
      if x in Order(t) {
        var k :| 0 <= k < |Order(t)| && Order(t)[k] == x;
        var b, i := FlatIndex(t, |t|, k);
        ItemAt(t, s, b, i);
      }
    }
    DistinctCardinality(Order(t), s);
  }

  lemma {:induction false} DistinctCardinality<T>(q: seq<T>, s: set<T>)
    requires forall i, j {:trigger q[i], q[j]} :: 0 <= i < j < |q| ==> q[i] != q[j]
    requires forall x :: x in s <==> x in q
    ensures |q| == |s|
  {
    if q == [] {
      assert s == {};
    } else {
      var n := |q| - 1;
      assert forall x :: x in s - {q[n]} ==> x in q[..n];
      DistinctCardinality(q[..n], s - {q[n]});
    }
  }

  // ---- The finite map ----

  predicate SameKey<K(==), V>(x: Item<K, V>, y: Item<K, V>) { x.key == y.key }

  predicate SameNode<K, V>(x: Item<K, V>, y: Item<K, V>) { x.node == y.node }

  ghost predicate UniqueKeys<K(!new), V(!new)>(s: set<Item<K, V>>) {
    forall x, y {:trigger SameKey(x, y)} :: x in s && y in s && SameKey(x, y) ==> x == y
  }

  ghost predicate UniqueNodes<K(!new), V(!new)>(s: set<Item<K, V>>) {
    forall x, y {:trigger SameNode(x, y)} :: x in s && y in s && SameNode(x, y) ==> x == y
  }

  ghost function Keys<K, V>(s: set<Item<K, V>>): set<K> {
    set x | x in s :: x.key
  }

  ghost function Lookup<K, V>(s: set<Item<K, V>>, k: K): V
    requires k in Keys(s)
  {
    var x :| x in s && x.key == k; x.stuff
  }

  ghost function MapOf<K, V>(s: set<Item<K, V>>): map<K, V> {
    map k | k in Keys(s) :: Lookup(s, k)
  }

  ghost function Nodes<K, V>(s: set<Item<K, V>>): set<int> {
    set x | x in s :: x.node
  }

  lemma MapAt<K(!new), V(!new)>(s: set<Item<K, V>>, x: Item<K, V>)
    requires UniqueKeys(s) && x in s
    ensures x.key in MapOf(s) && MapOf(s)[x.key] == x.stuff
  {
    var y :| y in s && y.key == x.key && y.stuff == Lookup(s, x.key);
    assert SameKey(x, y);
  }

  lemma MapAdd<K(!new), V(!new)>(s: set<Item<K, V>>, x: Item<K, V>)
    requires UniqueKeys(s) && x.key !in MapOf(s)
    ensures UniqueKeys(s + {x}) && MapOf(s + {x}) == MapOf(s)[x.key := x.stuff]
  {
    var s' := s + {x};
    forall y, z | y in s' && z in s' && SameKey(y, z) ensures y == z {
      assert y in s ==> y.key in Keys(s);
      assert z in s ==> z.key in Keys(s);
    }
    MapAt(s', x);
    forall y | y in s ensures y.key in MapOf(s') && MapOf(s')[y.key] == MapOf(s)[y.key] {
      MapAt(s, y);
      MapAt(s', y);
    }
  }

  lemma MapRemove<K(!new), V(!new)>(s: set<Item<K, V>>, x: Item<K, V>)
    requires UniqueKeys(s) && x in s
    ensures UniqueKeys(s - {x}) && MapOf(s - {x}) == MapOf(s) - {x.key}
  {
    var s' := s - {x};
    assert UniqueKeys(s');
    forall y | y in s' ensures y.key != x.key && MapOf(s')[y.key] == MapOf(s)[y.key] {
      assert SameKey(x, y) <==> x.key == y.key;
      MapAt(s, y);
      MapAt(s', y);
    }
    assert Keys(s') == Keys(s) - {x.key};
  }

  lemma NodesAdd<K(!new), V(!new)>(s: set<Item<K, V>>, x: Item<K, V>)
    requires UniqueNodes(s) && x.node !in Nodes(s)
    ensures UniqueNodes(s + {x}) && Nodes(s + {x}) == Nodes(s) + {x.node} && x !in s
  {
    assert forall y :: y in s ==> y.node in Nodes(s);
  }

  lemma NodesRemove<K(!new), V(!new)>(s: set<Item<K, V>>, x: Item<K, V>)
    requires UniqueNodes(s) && x in s
    ensures UniqueNodes(s - {x}) && Nodes(s - {x}) == Nodes(s) - {x.node} && x.node in Nodes(s)
  {
    forall y | y in s - {x} ensures y.node != x.node {
      assert SameNode(x, y) <==> x.node == y.node;
    }
  }

  lemma RemoveFirst<T>(s: seq<T>)
    requires s != []
    ensures s == [s[0]] + RemoveAt(s, 0)
  {
  }

  lemma MoveOver<T>(s: seq<T>, x: T, u: seq<T>)
    ensures s + ([x] + u) == s + [x] + u
  {
  }

  lemma TakeNext<T>(s: seq<T>, n: int)
    requires 0 <= n < |s|
    ensures s[..n] + [s[n]] == s[..n + 1]
  {
  }
}
