/** The block recycler of ee/erl/src/recycle.c and ee/erl/include/recycle.h. */
module Recycler {
  import opened Arithmetic
  import opened Basics
  import opened BitMask
  import opened SparseMemory

  const REMAX: int := 32000
  const LINK: int := 4    // sizeof(recycle): the link in front of every block

  /** n * size as a repeated sum, which keeps the slot arithmetic linear. */
  ghost function Times(n: int, size: int): int {
    if n <= 0 then 0 else Times(n - 1, size) + size
  }

  lemma {:induction false} TimesIsProduct(n: int, size: int)
    requires 0 <= n
    ensures Times(n, size) == n * size
    decreases n
  {
    if n > 0 { TimesIsProduct(n - 1, size); }
  }

  lemma {:induction false} TimesStep(k: int, l: int, size: int)
    requires 0 < size && 0 <= k < l
    ensures Times(k, size) + size <= Times(l, size) && 0 <= Times(k, size)
    decreases l
  {
    if k < l - 1 {
      TimesStep(k, l - 1, size);
    } else if k > 0 {
      TimesStep(k - 1, k, size);
    }
  }

  lemma {:induction false} TimesSum(m: int, n: int, size: int)
    requires 0 <= m && 0 <= n
    ensures Times(m + n, size) == Times(m, size) + Times(n, size)
    decreases n
  {
    if n > 0 { TimesSum(m, n - 1, size); }
  }

  /** A malloced block: its address and the number of item slots behind its link. */
  datatype Block = Block(addr: int, slots: int)

  ghost function Slot(b: Block, size: int, k: int): int { b.addr + LINK + Times(k, size) }

  ghost function End(b: Block, size: int): int { b.addr + LINK + Times(b.slots, size) }

  ghost function Slots(b: Block, size: int, n: int): set<int> {
    if n <= 0 then {} else Slots(b, size, n - 1) + {Slot(b, size, n - 1)}
  }

  ghost function AllSlots(bs: seq<Block>, size: int): set<int> {
    if bs == [] then {} else Slots(bs[0], size, bs[0].slots) + AllSlots(bs[1..], size)
  }

  ghost function Total(bs: seq<Block>): int {
    if bs == [] then 0 else bs[0].slots + Total(bs[1..])
  }

  /** Blocks as malloc hands them out: positive addresses, non-empty, pairwise disjoint. */
  ghost predicate Separate(bs: seq<Block>, size: int) {
    && (forall i {:trigger bs[i]} :: 0 <= i < |bs| ==> 0 < bs[i].addr && 0 < bs[i].slots)
    && (forall i, j {:trigger Apart(bs[i], bs[j], size)} :: 0 <= i < |bs| && 0 <= j < |bs| && i != j ==> Apart(bs[i], bs[j], size))
  }

  ghost predicate Apart(b: Block, c: Block, size: int) {
    End(b, size) <= c.addr || End(c, size) <= b.addr
  }

  // ---- Slots never overlap ----

  lemma SlotStep(b: Block, size: int, k: int, l: int)
    requires size > 0 && 0 <= k < l
    ensures Slot(b, size, k) + size <= Slot(b, size, l)
  {
    TimesStep(k, l, size);
  }

  lemma SlotInside(b: Block, size: int, k: int)
    requires size > 0 && 0 <= k < b.slots
    ensures b.addr + LINK <= Slot(b, size, k) && Slot(b, size, k) + size <= End(b, size)
  {
    SlotStep(b, size, k, b.slots);
    TimesStep(k, b.slots, size);
  }

  lemma {:induction false} SlotIndex(b: Block, size: int, n: int, a: int) returns (k: int)
    requires a in Slots(b, size, n)
    ensures 0 <= k < n && a == Slot(b, size, k)
    decreases n
  {
    if a == Slot(b, size, n - 1) { k := n - 1; } else { k := SlotIndex(b, size, n - 1, a); }
  }

  /** The block and position of a slot. */
  lemma {:induction false} FindSlot(bs: seq<Block>, size: int, a: int) returns (i: int, k: int)
    requires a in AllSlots(bs, size)
    ensures 0 <= i < |bs| && 0 <= k < bs[i].slots && a == Slot(bs[i], size, k)
  {
    if a in Slots(bs[0], size, bs[0].slots) {
      i := 0;
      k := SlotIndex(bs[0], size, bs[0].slots, a);
    } else {
      i, k := FindSlot(bs[1..], size, a);
      i := i + 1;
    }
  }

  /** Two different slots of separate blocks are at least one item apart. */
  lemma SlotsApart(bs: seq<Block>, size: int, a: int, a': int)
    requires size > 0 && Separate(bs, size) && a in AllSlots(bs, size) && a' in AllSlots(bs, size) && a != a'
    ensures a + size <= a' || a' + size <= a
  {
    var i, k := FindSlot(bs, size, a);
    var i', k' := FindSlot(bs, size, a');
    SlotInside(bs[i], size, k);
    SlotInside(bs[i'], size, k');
    if i == i' {
      if k < k' { SlotStep(bs[i], size, k, k'); } else { SlotStep(bs[i], size, k', k); }
    } else {
      assert Apart(bs[i], bs[i'], size);
    }
  }

  lemma SlotIsNew(b: Block, size: int, n: int)
    requires size > 0 && 0 <= n
    ensures Slot(b, size, n) !in Slots(b, size, n)
  {
    if Slot(b, size, n) in Slots(b, size, n) {
      var k := SlotIndex(b, size, n, Slot(b, size, n));
      SlotStep(b, size, k, n);
    }
  }

  /** A block disjoint from all others brings only new slots. */
  lemma FreshSlots(b: Block, bs: seq<Block>, size: int)
    requires size > 0 && Separate([b] + bs, size)
    ensures Slots(b, size, b.slots) !! AllSlots(bs, size)
  {
    forall a | a in Slots(b, size, b.slots) && a in AllSlots(bs, size) ensures false {
      var k := SlotIndex(b, size, b.slots, a);
      var i, l := FindSlot(bs, size, a);
      var all := [b] + bs;
      assert Apart(all[0], all[i + 1], size);
      SlotInside(b, size, k);
      SlotInside(bs[i], size, l);
    }
  }

  ghost predicate Distinct(s: seq<int>) {
    forall i, j {:trigger s[i], s[j]} :: 0 <= i < j < |s| ==> s[i] != s[j]
  }

  ghost function Elements(s: seq<int>): set<int> {
    if s == [] then {} else {s[0]} + Elements(s[1..])
  }

  lemma {:induction false} ElementsIndex(s: seq<int>, x: int)
    ensures x in Elements(s) <==> x in s
  {
    if s != [] {
      ElementsIndex(s[1..], x);
      assert s == [s[0]] + s[1..];
    }
  }

  lemma DistinctPush(x: int, s: seq<int>)
    requires Distinct(s) && x !in Elements(s)
    ensures Distinct([x] + s) && Elements([x] + s) == Elements(s) + {x}
  {
    ElementsIndex(s, x);
    assert ([x] + s)[1..] == s;
  }

  lemma DistinctPop(s: seq<int>)
    requires Distinct(s) && s != []
    ensures Distinct(s[1..]) && s[0] in Elements(s) && Elements(s[1..]) == Elements(s) - {s[0]}
  {
    ElementsIndex(s[1..], s[0]);
  }

  /** Three disjoint sets that make up `all`. */
  ghost predicate Split(all: set<int>, a: set<int>, b: set<int>, c: set<int>) {
    forall x {:trigger InOne(all, a, b, c, x)} :: InOne(all, a, b, c, x)
  }

  ghost predicate InOne(all: set<int>, a: set<int>, b: set<int>, c: set<int>, x: int) {
    && (x in all <==> x in a || x in b || x in c)
    && !(x in a && x in b) && !(x in a && x in c) && !(x in b && x in c)
  }

  lemma SplitCarve(all: set<int>, a: set<int>, b: set<int>, c: set<int>, c': set<int>, x: int)
    requires Split(all, a, b, c) && c == c' + {x} && x !in c'
    ensures x !in a && Split(all, a + {x}, b, c') && |a + {x}| == |a| + 1
  {
    assert InOne(all, a, b, c, x);
    forall y ensures InOne(all, a + {x}, b, c', y) { assert InOne(all, a, b, c, y); }
  }

  lemma SplitReuse(all: set<int>, a: set<int>, b: set<int>, b': set<int>, c: set<int>, x: int)
    requires Split(all, a, b, c) && x in b && b' == b - {x}
    ensures x !in a && Split(all, a + {x}, b', c) && |a + {x}| == |a| + 1
  {
    assert InOne(all, a, b, c, x);
    forall y ensures InOne(all, a + {x}, b', c, y) { assert InOne(all, a, b, c, y); }
  }

  lemma SplitAdd(all: set<int>, added: set<int>, a: set<int>, b: set<int>)
    requires Split(all, a, b, {}) && added !! all
    ensures Split(added + all, a, b, added)
  {
    forall y ensures InOne(added + all, a, b, added, y) { assert InOne(all, a, b, {}, y); }
  }

  lemma SplitDelete(all: set<int>, a: set<int>, b: set<int>, b': set<int>, c: set<int>, x: int)
    requires Split(all, a, b, c) && x in a && b' == b + {x}
    ensures x !in b && Split(all, a - {x}, b', c) && |a - {x}| == |a| - 1
  {
    assert InOne(all, a, b, c, x);
    forall y ensures InOne(all, a - {x}, b', c, y) { assert InOne(all, a, b, c, y); }
  }

  lemma AddressesDistinct(bs: seq<Block>, size: int, addrs: seq<int>)
    requires size > 0 && Separate(bs, size) && |addrs| == |bs| && forall i :: 0 <= i < |bs| ==> addrs[i] == bs[i].addr
    ensures Distinct(addrs)
  {
    forall i, j | 0 <= i < j < |addrs| ensures addrs[i] != addrs[j] {
      assert Apart(bs[i], bs[j], size);
      TimesStep(0, bs[i].slots, size);
      TimesStep(0, bs[j].slots, size);
    }
  }

  /** No block is larger than one item or twice REMAX, whichever is more. */
  ghost predicate Bounded(b: Block, size: int) {
    Times(b.slots, size) <= (if size < 2 * REMAX then 2 * REMAX else size)
  }

  lemma NextBlockBounded(addr: int, size: int, logsize: nat)
    requires 0 < size && SmallSoFar(size, logsize)
    ensures Bounded(Block(addr, Pow2(logsize)), size)
  {
    if logsize == 0 {
      assert Times(1, size) == size;
    } else {
      TimesSum(Pow2(logsize - 1), Pow2(logsize - 1), size);
    }
  }

  /** logsize only grows past a block of less than REMAX bytes. */
  ghost predicate SmallSoFar(size: int, logsize: nat) {
    logsize == 0 || Times(Pow2(logsize - 1), size) < REMAX
  }

  lemma BlocksBounded(bs: seq<Block>, b: Block, size: int)
    requires (forall i {:trigger Bounded(bs[i], size)} :: 0 <= i < |bs| ==> Bounded(bs[i], size)) && Bounded(b, size)
    ensures forall i {:trigger Bounded(([b] + bs)[i], size)} :: 0 <= i < |[b] + bs| ==> Bounded(([b] + bs)[i], size)
  {
    forall i | 0 <= i < |[b] + bs| ensures Bounded(([b] + bs)[i], size) {
      if i > 0 { assert Bounded(bs[i - 1], size); }
    }
  }

  lemma AddedBlock(b: Block, bs: seq<Block>, size: int)
    ensures AllSlots([b] + bs, size) == Slots(b, size, b.slots) + AllSlots(bs, size)
    ensures Total([b] + bs) == b.slots + Total(bs)
  {
    assert ([b] + bs)[1..] == bs;
  }

  /** The size of a block of `n` items. */
  method BlockBytes(size: int, n: int) returns (bytes: int)
    requires 0 <= n
    ensures bytes == Times(n, size)
  {
    TimesIsProduct(n, size);
    bytes := size * n;
  }

  // ---- Contents of items ----

  function Zeros(n: nat): (bs: seq<byte>)
    ensures |bs| == n && forall i :: 0 <= i < n ==> bs[i] == 0
  {
    seq(n, _ => 0)
  }

  /** Every byte of the item is zero. */
  ghost predicate Cleared(m: Bytes, item: int, size: nat) { ReadBytes(m, item, size) == Zeros(size) }

  /** The bytes of a link to `next`. */
  function Link(next: int): (bs: seq<byte>)
    ensures |bs| == LINK
  {
    Digits(next, 4)
  }

  /** The link is read back from memory. */
  lemma {:induction false} LinkReads(m: Bytes, a: int, next: word)
    ensures Read(WriteBytes(m, a, Link(next)), a) == next
  {
    ReadWritten(m, a, next);
  }

  lemma {:induction false} MemsetClears(m: Bytes, item: int, size: nat)
    ensures Cleared(WriteBytes(m, item, Zeros(size)), item, size)
  {
    ReadBytesWritten(m, item, Zeros(size));
  }

  class Recycler {
    const size: int            // size of an item
    var list: seq<Block>       // malloced blocks, newest first
    var trash: seq<int>        // deleted items, last one first
    var logsize: nat           // log2 of the number of items in the next block
    var numleft: int           // bytes of the newest block not yet handed out
    var mem: Bytes             // the memory blocks and items lie in
    ghost var left: int        // the same in slots
    ghost var live: set<int>   // items handed out and not deleted

    ghost function Uncarved(): set<int>
      reads this
    {
      if list == [] then {} else Slots(list[0], size, left)
    }

    /**
     * Every slot of every block is live, in the trash or not yet carved, and only one of these;
     * so slots = live + trash + uncarved also by number.
     */
    ghost predicate Partitioned()
      reads this
    {
      && Split(AllSlots(list, size), live, Elements(trash), Uncarved())
      && Distinct(trash)
      && |live| + |trash| + left == Total(list)
    }

    ghost predicate Valid()
      reads this
    {
      && 0 < size && numleft == Times(left, size) && 0 <= left
      && (if list == [] then left == 0 else left <= list[0].slots)
      && Separate(list, size)
      && Partitioned()
      && SmallSoFar(size, logsize)
      && forall i {:trigger Bounded(list[i], size)} :: 0 <= i < |list| ==> Bounded(list[i], size)
    }

    /** remkroot; `size` is the item size rounded up to a pointer multiple. */
    constructor (itemSize: int, memory: Bytes)
      requires 0 < itemSize
      ensures Valid() && live == {} && list == [] && trash == [] && numleft == 0 && logsize == 0
      ensures size == RoundUp(itemSize, 4) && mem == memory
    {
      size := RoundUp(itemSize, 4);
      list, trash, logsize, numleft := [], [], 0, 0;
      mem := memory;
      left, live := 0, {};
    }

    /** `addr` is where malloc puts the next block, away from all others. */
    ghost predicate Mallocs(addr: int)
      reads this
    {
      0 < addr && Separate([Block(addr, Pow2(logsize))] + list, size)
    }

    /** The item renew hands out next: the last slot not yet carved, else the item deleted last, else the last of a new block. */
    ghost function NextItem(addr: int): int
      requires Valid()
      reads this
    {
      if numleft != 0 then (assert list != []; list[0].addr + LINK + numleft - size)
      else if trash != [] then trash[0]
      else addr + LINK + Times(Pow2(logsize), size) - size
    }

    /** The next item comes from the trash. */
    predicate Reuses()
      reads this
    {
      numleft == 0 && trash != []
    }

    /**
     * renew: carve the newest block, else reuse trash, else get a new block. The item is cleared if and only if it comes from
     * the trash or its bytes were zero already.
     */
    method Renew(addr: int) returns (item: int)
      requires Valid() && (numleft == 0 && trash == [] ==> Mallocs(addr))
      modifies this
      ensures Valid() && item == old(NextItem(addr)) && item !in old(live) && live == old(live) + {item}
      ensures list == if old(numleft) == 0 && old(trash) == [] then [Block(addr, Pow2(old(logsize)))] + old(list) else old(list)
      ensures Cleared(mem, item, size) <==> old(Reuses()) || Cleared(old(mem), item, size)
      ensures item == if old(numleft) != 0 && old(list) != [] then old(list)[0].addr + 4 + old(numleft) - size
                      else if old(trash) != [] then old(trash)[0] else addr + 4 + Times(Pow2(old(logsize)), size) - size
      ensures logsize == old(logsize) + if list != old(list) && Times(Pow2(old(logsize)), size) < 32000 then 1 else 0
    {
      if numleft != 0 {
        item := Carve();
      } else {
        item := Renewx(addr);
      }
    }

    method Carve() returns (item: int)
      requires Valid() && numleft != 0
      modifies this
      ensures Valid() && item == old(NextItem(0)) && item !in old(live) && live == old(live) + {item}
      ensures list == old(list) && mem == old(mem) && logsize == old(logsize)
    {
      numleft := numleft - size;
      item := list[0].addr + LINK + numleft;
      SlotIsNew(list[0], size, left - 1);
      SplitCarve(AllSlots(list, size), live, Elements(trash), Uncarved(), Slots(list[0], size, left - 1), item);
      left := left - 1;
      live := live + {item};
    }

    /** renewx */
    method Renewx(addr: int) returns (item: int)
      requires Valid() && numleft == 0 && (trash == [] ==> Mallocs(addr))
      modifies this
      ensures Valid() && item == old(NextItem(addr)) && item !in old(live) && live == old(live) + {item}
      ensures list == if old(trash) == [] then [Block(addr, Pow2(old(logsize)))] + old(list) else old(list)
      ensures Cleared(mem, item, size) <==> old(trash) != [] || Cleared(old(mem), item, size)
      ensures logsize == old(logsize) + if old(trash) == [] && Times(Pow2(old(logsize)), size) < 32000 then 1 else 0
    {
      if trash != [] {
        item := PopTrash();
      } else {
        AddBlock(addr);
        item := Carve();
        LinkOutside(item, addr, old(mem), if old(list) == [] then 0 else old(list)[0].addr);
      }
    }

    /** renewx, lines 57-61: the item deleted last is cleared and handed out again. */
    method PopTrash() returns (item: int)
      requires Valid() && trash != []
      modifies this
      ensures Valid() && item == old(trash)[0] && item !in old(live) && live == old(live) + {item} && list == old(list)
      ensures logsize == old(logsize)
      ensures mem == WriteBytes(old(mem), item, Zeros(size)) && Cleared(mem, item, size)
    {
      DistinctPop(trash);
      item := trash[0];
      SplitReuse(AllSlots(list, size), live, Elements(trash), Elements(trash[1..]), Uncarved(), item);
      trash := trash[1..];
      live := live + {item};
      MemsetClears(mem, item, size);
      mem := WriteBytes(mem, item, Zeros(size));
    }

    /** The link of the newest block lies outside its items. */
    lemma LinkOutside(item: int, addr: int, m: Bytes, next: int)
      requires 0 < size && addr + LINK <= item
      ensures ReadBytes(WriteBytes(m, addr, Link(next)), item, size) == ReadBytes(m, item, size)
    {
      ReadBytesOutside(m, addr, Link(next), item, size);
    }

    /** renewx, lines 64-68: a new block, twice as long as the last one while that was below REMAX. */
    method AddBlock(addr: int)
      requires Valid() && numleft == 0 && trash == [] && Mallocs(addr)
      modifies this
      ensures Valid() && live == old(live) && numleft == Times(Pow2(old(logsize)), size) >= size
      ensures list == [Block(addr, Pow2(old(logsize)))] + old(list)
      ensures logsize == old(logsize) + if Times(Pow2(old(logsize)), size) < 32000 then 1 else 0
      ensures mem == WriteBytes(old(mem), addr, Link(if old(list) == [] then 0 else old(list)[0].addr))
    {
      var link := Link(if list == [] then 0 else list[0].addr);
      GrowList(addr);
      mem := WriteBytes(mem, addr, link);
    }

    method GrowList(addr: int)
      requires Valid() && numleft == 0 && trash == [] && Mallocs(addr)
      modifies this`list, this`logsize, this`numleft, this`left
      ensures Valid() && numleft == Times(Pow2(old(logsize)), size) >= size
      ensures list == [Block(addr, Pow2(old(logsize)))] + old(list)
      ensures logsize == old(logsize) + if Times(Pow2(old(logsize)), size) < 32000 then 1 else 0
    {
      var n := Pow2(logsize);
      ghost var b := Block(addr, n);
      NothingLeft();
      NextBlockBounded(addr, size, logsize);
      FreshSlots(b, list, size);
      SplitAdd(AllSlots(list, size), Slots(b, size, n), live, Elements(trash));
      BlocksBounded(list, b, size);
      AddedBlock(b, list, size);
      TimesStep(0, n, size);
      numleft := BlockBytes(size, n);
      if numleft < REMAX {
        logsize := logsize + 1;
      }
      list := [Block(addr, n)] + list;
      left := n;
    }

    lemma NothingLeft()
      requires Valid() && numleft == 0
      ensures left == 0 && Uncarved() == {}
    {
      if left > 0 { TimesStep(0, left, size); }
    }

    /** redel: only live items may be deleted; the link to the rest of the trash is stored in the item. */
    method Redel(item: int)
      requires Valid() && item in live
      modifies this
      ensures Valid() && live == old(live) - {item} && trash == [item] + old(trash) && list == old(list)
      ensures mem == WriteBytes(old(mem), item, Link(if old(trash) == [] then 0 else old(trash)[0]))
    {
      var link := Link(if trash == [] then 0 else trash[0]);
      PushTrash(item);
      mem := WriteBytes(mem, item, link);
    }

    method PushTrash(item: int)
      requires Valid() && item in live
      modifies this`trash, this`live
      ensures Valid() && live == old(live) - {item} && trash == [item] + old(trash)
    {
      assert InOne(AllSlots(list, size), live, Elements(trash), Uncarved(), item);
      DistinctPush(item, trash);
      SplitDelete(AllSlots(list, size), live, Elements(trash), Elements([item] + trash), Uncarved(), item);
      trash := [item] + trash;
      live := live - {item};
    }

    /** Clearing an item, or storing a link in it, changes no byte of another live item. */
    lemma OthersKept(x: int, item: int, m: Bytes, bs: seq<byte>)
      requires Valid() && x in live && item in live && x != item && |bs| <= size
      ensures ReadBytes(WriteBytes(m, item, bs), x, size) == ReadBytes(m, x, size)
    {
      LiveItemsApart(x, item);
      ReadBytesOutside(m, item, bs, x, size);
    }
  
    /** A live item lies inside one of the malloced blocks, behind its link. */
    lemma LiveItem(x: int) returns (i: int)
      requires Valid() && x in live
      ensures 0 <= i < |list| && list[i].addr + 4 <= x && x + size <= End(list[i], size)
      ensures x in AllSlots(list, size)
    {
      assert InOne(AllSlots(list, size), live, Elements(trash), Uncarved(), x);
      var k;
      i, k := FindSlot(list, size, x);
      SlotInside(list[i], size, k);
    }

    /** Two live items never overlap. */
    lemma LiveItemsApart(x: int, y: int)
      requires Valid() && x in live && y in live && x != y
      ensures x + size <= y || y + size <= x
    {
      var _ := LiveItem(x);
      var _ := LiveItem(y);
      SlotsApart(list, size, x, y);
    }

    /** Slots malloced = live + trash + bytes left over the item size, and no block is out of bounds. */
    lemma SlotsConserved()
      requires Valid()
      ensures numleft % size == 0 && Total(list) == |live| + |trash| + numleft / size
      ensures forall i :: 0 <= i < |list| ==> Bounded(list[i], size)
    {
      TimesIsProduct(left, size);
      Quotient(numleft, size, left, 0);
    }

    /** refree: walks the block list and frees every block once. */
    method Refree() returns (freed: seq<int>)
      requires Valid()
      modifies this
      ensures list == [] && |freed| == |old(list)|
      ensures forall i :: 0 <= i < |freed| ==> freed[i] == old(list)[i].addr
      ensures Distinct(freed)
    {
      freed := [];
      while list != []
        invariant |freed| <= |old(list)| && list == old(list)[|freed|..]
        invariant forall i :: 0 <= i < |freed| ==> freed[i] == old(list)[i].addr
        decreases |list|
      {
        freed := freed + [list[0].addr];
        list := list[1..];
      }
      AddressesDistinct(old(list), size, freed);
    }
  }

  /** A root that has handed out nothing, on memory that is not zero: the first item it hands out is not cleared. */
  method FirstItemUncleared(addr: int, b: byte) returns (r: Recycler, item: int)
    requires 0 < addr && b != 0
    ensures r.Valid() && item in r.live && !Cleared(r.mem, item, r.size)
  {
    r := new Recycler(4, map[addr + LINK := b]);
    FirstBlock(addr, r.size);
    item := r.Renew(addr);
    NotZero(map[addr + LINK := b], item, r.size, b);
  }

  lemma {:induction false} FirstBlock(addr: int, size: int)
    requires 0 < addr && 0 < size
    ensures Pow2(0) == 1 && Times(1, size) == size && Separate([Block(addr, 1)] + [], size)
  {
    assert Times(0, size) == 0;
  }

  lemma {:induction false} NotZero(m: Bytes, item: int, size: nat, b: byte)
    requires size > 0 && ByteAt(m, item) == b && b != 0
    ensures !Cleared(m, item, size)
  {
    ReadBytesAt(m, item, size, 0);
    assert ReadBytes(m, item, size)[0] == b && Zeros(size)[0] == 0;
  }
}
