/** The hash table of ee/erl/src/hashtab.c and its cursor, on top of the recycler. */
module HashTable {
  import opened BitMask
  import opened Buckets
  import opened Recycler

  class HashTable<K(==, !new), V(==, !new)> {
    const hash: K -> nat              // lookup(): any deterministic function
    const space: Recycler             // where the items live
    var table: Table<K, V>
    var logsize: nat
    var mask: int
    var count: int
    var apos: int                     // bucket of the current item
    var ipos: int                     // its place in that bucket's chain, -1 for NULL
    ghost var items: set<Item<K, V>>

    ghost predicate Hashed(x: Item<K, V>) { x.hval == hash(x.key) }

    /** Buckets, keys and hash values agree with the set of items. */
    ghost predicate Shape()
      reads this
    {
      && Holds(table, items) && |table| == Pow2(logsize) && mask == |table| - 1
      && UniqueKeys(items) && UniqueNodes(items)
      && forall x {:trigger Hashed(x)} :: x in items ==> Hashed(x)
    }

    /** The recycler's live objects are exactly the items of the table. */
    ghost predicate Backed()
      reads this, space
    {
      space.Valid() && Nodes(items) == space.live
    }

    /** The cursor is NULL exactly when the table is empty, and otherwise lies in bucket apos. */
    ghost predicate Cursor()
      reads this
    {
      if items == {} then ipos == -1 else 0 <= apos < |table| && 0 <= ipos < |table[apos]|
    }

    ghost predicate Valid()
      reads this, space
    {
      Shape() && Backed() && count == |items| <= |table| && Cursor()
    }

    ghost function Map(): map<K, V>
      requires Shape()
      reads this
    {
      MapOf(items)
    }

    /** The item under the cursor. */
    ghost function Current(): Item<K, V>
      requires Cursor() && items != {}
      reads this
    {
      table[apos][ipos]
    }

    /** The place of the cursor in the traversal order. */
    ghost function Pos(): int
      requires Cursor() && items != {}
      reads this
    {
      Start(table, apos) + ipos
    }

    /** Every item of the table is in the bucket `hval & mask`. */
    lemma MaskedHome(x: Item<K, V>)
      requires Shape() && x in items
      ensures 0 <= mask && BitAnd(x.hval, mask) < |table| && x in table[BitAnd(x.hval, mask)]
    {
      MaskIsRemainder(x.hval, logsize);
      var i := ItemIndex(table, items, x);
    }

    /** hcreate */
    constructor (logsize: nat, hash: K -> nat)
      ensures Valid() && items == {} && this.logsize == logsize && this.hash == hash && fresh(space)
    {
      this.hash := hash;
      this.logsize := logsize;
      var len := Pow2(logsize);
      table := seq(len, _ => []);
      mask, count, apos, ipos := len - 1, 0, 0, -1;
      items := {};
      space := new Recycler(20, map[]);
    }

    // ---- The cursor ----

    /** hnbucket: to the first item of the next non-empty bucket; TRUE if that did not wrap around. */
    method Hnbucket() returns (r: bool)
      requires Shape() && 0 <= apos < |table|
      modifies this`apos, this`ipos
      ensures items == {} ==> !r && apos == old(apos) && ipos == old(ipos)
      ensures items != {} ==> Cursor() && r == (Start(table, old(apos) + 1) < |Order(table)|)
      ensures items != {} ==> Pos() == if r then Start(table, old(apos) + 1) else 0
    {
      var oldapos, end := apos, |table|;
      var i := oldapos + 1;
      while i < end
        invariant oldapos + 1 <= i <= end && apos == oldapos && ipos == old(ipos)
        invariant forall b :: oldapos < b < i ==> table[b] == []
      {
        if table[i] != [] {
          Found(i);
          StartSkips(table, oldapos + 1, i);
          apos, ipos := i, 0;
          return true;
        }
        i := i + 1;
      }
      StartSkips(table, oldapos + 1, end);
      i := 0;
      while i <= oldapos
        invariant 0 <= i <= oldapos + 1 && apos == oldapos && ipos == old(ipos)
        invariant forall b :: 0 <= b < i ==> table[b] == []
      {
        if table[i] != [] {
          Found(i);
          StartSkips(table, 0, i);
          apos, ipos := i, 0;
          return false;
        }
        i := i + 1;
      }
      AllEmpty();
      r := false;
    }

    lemma Found(b: int)
      requires Shape() && 0 <= b < |table| && table[b] != []
      ensures items != {} && Start(table, b) < |Order(table)|
    {
      ItemAt(table, items, b, 0);
      FlatAt(table, |table|, b, 0);
    }

    lemma AllEmpty()
      requires Shape() && forall b :: 0 <= b < |table| ==> table[b] == []
      ensures items == {}
    {
      if x :| x in items {
        var _ := ItemIndex(table, items, x);
      }
    }

    /** hfirst */
    method Hfirst() returns (r: bool)
      requires Shape() && (items == {} ==> ipos == -1)
      modifies this`apos, this`ipos
      ensures r <==> items != {}
      ensures Cursor() && (items != {} ==> Pos() == 0)
    {
      apos := mask;
      var _ := Hnbucket();
      r := ipos != -1;
    }

    /** hnext: to the next item in traversal order; FALSE when the cursor wraps around to the first one. */
    method Hnext() returns (r: bool)
      requires Shape() && Cursor()
      modifies this`apos, this`ipos
      ensures Cursor()
      ensures items == {} ==> !r
      ensures items != {} ==> r == (old(Pos()) + 1 < |Order(table)|) && Pos() == if r then old(Pos()) + 1 else 0
    {
      if ipos == -1 {
        return false;
      }
      FlatAt(table, |table|, apos, ipos);
      if ipos + 1 < |table[apos]| {
        FlatAt(table, |table|, apos, ipos + 1);
        ipos := ipos + 1;
        r := true;
      } else {
        r := Hnbucket();
      }
    }
  
    // ---- hfind, hadd, hgrow ----

    /** Walks the chain of `key`'s bucket; -1 when the key is not in the table. */
    method Search(key: K, x: nat, y: int) returns (i: int)
      requires Shape() && x == hash(key) && y == Home(table, x)
      ensures -1 <= i < |table[y]|
      ensures i >= 0 <==> key in Map()
      ensures i >= 0 ==> table[y][i] in items && table[y][i].key == key
    {
      i := 0;
      while i < |table[y]|
        invariant 0 <= i <= |table[y]|
        invariant forall j :: 0 <= j < i ==> table[y][j].key != key
      {
        ItemAt(table, items, y, i);
        assert Hashed(table[y][i]);
        if x == table[y][i].hval && key == table[y][i].key {
          return;
        }
        i := i + 1;
      }
      NotFound(key, y);
      i := -1;
    }

    lemma NotFound(key: K, y: int)
      requires Shape() && y == Home(table, hash(key)) && forall j :: 0 <= j < |table[y]| ==> table[y][j].key != key
      ensures key !in Map()
    {
      forall x | x in items ensures x.key != key {
        assert Hashed(x);
        var i := ItemIndex(table, items, x);
      }
    }

    /** hfind */
    method Hfind(key: K) returns (found: bool)
      requires Valid()
      modifies this`apos, this`ipos
      ensures Valid() && (found <==> key in Map())
      ensures found ==> items != {} && Current().key == key && Current().stuff == Map()[key]
      ensures !found ==> apos == old(apos) && ipos == old(ipos)
    {
      var x := hash(key);
      var y := Home(table, x);
      var i := Search(key, x, y);
      found := i >= 0;
      if found {
        MapAt(items, table[y][i]);
        apos, ipos := y, i;
      }
    }

    /** hgrow: twice as many buckets, the same items. */
    method Hgrow()
      requires Shape() && items != {}
      modifies this
      ensures Shape() && items == old(items) && count == old(count) && logsize == old(logsize) + 1
      ensures Cursor() && Pos() == 0
    {
      logsize := logsize + 1;
      table := Rehash(table, Pow2(logsize));
      mask := |table| - 1;
      var _ := Hfirst();
    }

    /** The loops of hgrow: empties the old buckets, last one first, into the new ones. */
    method Rehash(oldtab: Table<K, V>, newsize: int) returns (newtab: Table<K, V>)
      requires Holds(oldtab, items) && newsize > 0
      ensures Holds(newtab, items) && |newtab| == newsize
    {
      newtab := seq(newsize, _ => []);
      ghost var done: set<Item<K, V>> := {};
      var i := |oldtab|;
      while i > 0
        invariant 0 <= i <= |oldtab| && |newtab| == newsize
        invariant Holds(newtab, done)
        invariant forall x {:trigger x in done} :: x in done <==> x in items && Home(oldtab, x.hval) >= i
      {
        i := i - 1;
        newtab, done := MoveChain(oldtab, i, newtab, done);
      }
      assert done == items;
    }

    /** The inner loop of hgrow: moves one chain, each item to the front of its new bucket. */
    method MoveChain(oldtab: Table<K, V>, b: int, newtab0: Table<K, V>, ghost done0: set<Item<K, V>>)
      returns (newtab: Table<K, V>, ghost done: set<Item<K, V>>)
      requires Holds(oldtab, items) && 0 <= b < |oldtab| && Holds(newtab0, done0)
      requires forall x {:trigger x in done0} :: x in done0 <==> x in items && Home(oldtab, x.hval) >= b + 1
      ensures |newtab| == |newtab0| && Holds(newtab, done)
      ensures forall x {:trigger x in done} :: x in done <==> x in items && Home(oldtab, x.hval) >= b
    {
      newtab, done := newtab0, done0;
      var k := 0;
      while k < |oldtab[b]|
        invariant 0 <= k <= |oldtab[b]| && |newtab| == |newtab0| && Holds(newtab, done)
        invariant forall x {:trigger x in done} :: x in done <==> x in done0 || x in oldtab[b][..k]
      {
        var that := oldtab[b][k];
        ItemAt(oldtab, items, b, k);
        NotBefore(oldtab, items, b, k);
        PushHolds(newtab, done, that);
        newtab, done := Push(newtab, that), done + {that};
        k := k + 1;
      }
      ChainDone(oldtab, b, done0, done);
    }

    lemma ChainDone(oldtab: Table<K, V>, b: int, done0: set<Item<K, V>>, done: set<Item<K, V>>)
      requires Holds(oldtab, items) && 0 <= b < |oldtab|
      requires forall x {:trigger x in done0} :: x in done0 <==> x in items && Home(oldtab, x.hval) >= b + 1
      requires forall x {:trigger x in done} :: x in done <==> x in done0 || x in oldtab[b][..|oldtab[b]|]
      ensures forall x {:trigger x in done} :: x in done <==> x in items && Home(oldtab, x.hval) >= b
    {
      forall x ensures x in done <==> x in items && Home(oldtab, x.hval) >= b {
        if x in items && Home(oldtab, x.hval) == b {
          var i := ItemIndex(oldtab, items, x);
          assert oldtab[b][..|oldtab[b]|][i] == x;
        }
        if x in oldtab[b] {
          var i :| 0 <= i < |oldtab[b]| && oldtab[b][i] == x;
          ItemAt(oldtab, items, b, i);
        }
      }
    }
  
    /** hadd; `addr` is where malloc would put a new block of items. */
    method Hadd(key: K, stuff: V, addr: int) returns (ok: bool)
      requires Valid() && (space.numleft == 0 && space.trash == [] ==> space.Mallocs(addr))
      modifies this, space
      ensures Valid() && (ok <==> key !in old(Map()))
      ensures Map() == if ok then old(Map())[key := stuff] else old(Map())
      ensures items != {} && Current().key == key
      ensures !ok ==> table == old(table) && items == old(items)
      ensures logsize == old(logsize) + if ok && old(|items|) == old(|table|) then 1 else 0
    {
      var x := hash(key);
      var y := Home(table, x);
      var i := Search(key, x, y);
      if i >= 0 {
        apos, ipos := y, i;
        return false;
      }
      AddNew(key, stuff, x, addr);
      ok := true;
    }

    /** hadd, lines 204-223: the key is new. */
    method AddNew(key: K, stuff: V, x: nat, addr: int)
      requires Valid() && key !in Map() && x == hash(key)
      requires space.numleft == 0 && space.trash == [] ==> space.Mallocs(addr)
      modifies this, space
      ensures Valid() && items != {} && Current().key == key && Map() == old(Map())[key := stuff]
      ensures logsize == old(logsize) + if old(|items|) == old(|table|) then 1 else 0
    {
      var h := space.Renew(addr);
      AddItem(Item(h, key, stuff, x));
    }

    method AddItem(item: Item<K, V>)
      requires Shape() && count == |items| <= |table|
      requires item.key !in Map() && item.node !in Nodes(items) && item.hval == hash(item.key)
      modifies this
      ensures Shape() && Cursor() && count == |items| <= |table| && items != {} && Current() == item
      ensures Nodes(items) == old(Nodes(items)) + {item.node} && Map() == old(Map())[item.key := item.stuff]
      ensures logsize == old(logsize) + if old(|items|) == old(|table|) then 1 else 0
    {
      count := count + 1;
      GrowIfFull();
      Link(item);
    }

    /** hadd, lines 208-212 */
    method GrowIfFull()
      requires Shape() && count == |items| + 1 <= |table| + 1
      modifies this
      ensures Shape() && items == old(items) && count == old(count) <= |table|
      ensures logsize == old(logsize) + if old(|items|) == old(|table|) then 1 else 0
    {
      if count > |table| {
        NotEmpty();
        Hgrow();
      }
    }

    lemma NotEmpty()
      requires |items| > 0
      ensures items != {}
    {
    }

    /** hadd, lines 214-223: the new item becomes the head of its chain and the current item. */
    method Link(item: Item<K, V>)
      requires Shape() && item.key !in Map() && item.node !in Nodes(items) && item.hval == hash(item.key)
      modifies this`table, this`apos, this`ipos, this`items
      ensures Shape() && Cursor() && items == old(items) + {item} && |items| == |old(items)| + 1 && |table| == |old(table)|
      ensures Current() == item && Nodes(items) == old(Nodes(items)) + {item.node}
      ensures Map() == old(Map())[item.key := item.stuff]
    {
      MapAdd(items, item);
      NodesAdd(items, item);
      PushHolds(table, items, item);
      apos, ipos := Home(table, item.hval), 0;
      table := Push(table, item);
      items := items + {item};
    }
  
    // ---- hdel ----

    /** hdel, lines 243-245: finds the node of the current item in its chain and unlinks it. */
    method Unlink()
      requires Shape() && Cursor() && items != {}
      modifies this`table, this`items
      ensures Shape() && items == old(items) - {old(Current())} && |items| == |old(items)| - 1
      ensures table == Drop(old(table), apos, ipos)
      ensures Nodes(items) == old(Nodes(items)) - {old(Current()).node} && old(Current()).node in old(Nodes(items))
      ensures Map() == old(Map()) - {old(Current()).key}
    {
      var h := table[apos][ipos];
      ItemAt(table, items, apos, ipos);
      var j := 0;
      while table[apos][j].node != h.node
        invariant 0 <= j <= ipos
        decreases ipos - j
      {
        j := j + 1;
      }
      SamePlace(j);
      MapRemove(items, h);
      NodesRemove(items, h);
      DropHolds(table, items, apos, ipos);
      table := Drop(table, apos, j);
      items := items - {h};
    }

    lemma SamePlace(j: int)
      requires Shape() && Cursor() && items != {} && 0 <= j <= ipos && table[apos][j].node == Current().node
      ensures j == ipos
    {
      if j < ipos { assert Differ(table, apos, j, ipos); }
      ItemAt(table, items, apos, j);
      ItemAt(table, items, apos, ipos);
      assert SameNode(table[apos][j], table[apos][ipos]);
    }

    /** hdel, line 249: the cursor moves on to the item that followed the deleted one. */
    method StepPast(ghost before: Table<K, V>, ghost p: int)
      requires Shape() && 0 <= apos < |before| && 0 <= ipos < |before[apos]| && table == Drop(before, apos, ipos)
      requires p == Start(before, apos) + ipos
      modifies this`apos, this`ipos
      ensures Cursor() && 0 <= p < |Order(before)| && Order(table) == RemoveAt(Order(before), p)
      ensures items != {} ==> Pos() == if p < |Order(table)| then p else 0
    {
      FlatDrop(before, |before|, apos, ipos);
      if ipos < |table[apos]| {
        Found(apos);
        FlatAt(table, |table|, apos, ipos);
      } else {
        ipos := -1;
        var _ := Hnbucket();
      }
    }

    /** hdel without the recycler. */
    method DeleteCurrent()
      requires Shape() && Cursor() && count == |items| <= |table| && items != {}
      modifies this
      ensures Shape() && Cursor() && count == |items| <= |table| && count == old(count) - 1
      ensures Map() == old(Map()) - {old(Current()).key} && items == old(items) - {old(Current())}
      ensures Nodes(items) == old(Nodes(items)) - {old(Current()).node} && old(Current()).node in old(Nodes(items))
      ensures old(Pos()) < |old(Order(table))| && Order(table) == RemoveAt(old(Order(table)), old(Pos()))
      ensures items != {} ==> Pos() == if old(Pos()) < |Order(table)| then old(Pos()) else 0
    {
      ghost var before, p := table, Pos();
      Unlink();
      count := count - 1;
      StepPast(before, p);
    }

    /** hdel: removes the current item; the cursor moves to its cyclic successor. */
    method Hdel() returns (ok: bool)
      requires Valid()
      modifies this, space
      ensures Valid() && (ok <==> old(items) != {})
      ensures !ok ==> items == old(items)
      ensures ok ==> count == old(count) - 1 && Map() == old(Map()) - {old(Current()).key} && items == old(items) - {old(Current())}
      ensures ok ==> old(Pos()) < |old(Order(table))| && Order(table) == RemoveAt(old(Order(table)), old(Pos()))
      ensures ok && items != {} ==> Pos() == if old(Pos()) < |Order(table)| then old(Pos()) else 0
    {
      if ipos == -1 {
        return false;
      }
      var h := table[apos][ipos];
      DeleteCurrent();
      space.Redel(h.node);
      ok := true;
    }
  
    // ---- Loops over the whole table ----

    /** hkey and hstuff: the current item is the one at the cursor's place in the traversal order. */
    method CurrentItem() returns (x: Item<K, V>)
      requires Shape() && Cursor() && items != {}
      ensures 0 <= Pos() < |Order(table)| && x == Current() == Order(table)[Pos()]
    {
      FlatAt(table, |table|, apos, ipos);
      x := table[apos][ipos];
    }

    method WalkOrder() returns (seen: seq<Item<K, V>>)
      requires Shape() && Cursor()
      modifies this`apos, this`ipos
      ensures Cursor() && seen == Order(table)
    {
      seen := [];
      var more := Hfirst();
      if !more {
        OrderLists(table, items);
        return;
      }
      ghost var order := Order(table);
      while more
        invariant Cursor() && items != {} && |seen| <= |order| && seen == order[..|seen|]
        invariant if more then Pos() == |seen| else |seen| == |order|
        decreases |order| - |seen|, more
      {
        var x := CurrentItem();
        TakeNext(order, |seen|);
        seen := seen + [x];
        more := Hnext();
      }
    }

    /** The loop of hashtab.h lines 176-181, `if (hfirst(t)) do ... while (hnext(t))`, sees every item exactly once. */
    method VisitAll() returns (seen: seq<Item<K, V>>)
      requires Shape() && Cursor()
      modifies this`apos, this`ipos
      ensures Cursor() && seen == Order(table)
      ensures |seen| == |items| && forall x :: x in items <==> x in seen
      ensures forall i, j {:trigger seen[i], seen[j]} :: 0 <= i < j < |seen| ==> seen[i] != seen[j]
    {
      seen := WalkOrder();
      OrderLists(table, items);
    }

    method DeleteFirst() returns (x: Item<K, V>)
      requires Valid() && items != {} && Pos() == 0
      modifies this, space
      ensures Valid() && count == old(count) - 1 && (items != {} ==> Pos() == 0)
      ensures old(Order(table)) == [x] + Order(table)
    {
      x := CurrentItem();
      RemoveFirst(Order(table));
      var _ := Hdel();
    }

    /** The loop of erl_flush_symbols: deletes from the first item on until the count is 0. */
    method Flush() returns (deleted: seq<Item<K, V>>)
      requires Valid()
      modifies this, space
      ensures Valid() && items == {} && count == 0 && space.live == {}
      ensures deleted == old(Order(table))
    {
      deleted := [];
      var more := Hfirst();
      if more {
        while count != 0
          invariant Valid() && (items != {} ==> Pos() == 0)
          invariant old(Order(table)) == deleted + Order(table)
          decreases count
        {
          var x := DeleteFirst();
          MoveOver(deleted, x, Order(table));
          deleted := deleted + [x];
        }
      }
      OrderLists(table, items);
    }
  }
}
