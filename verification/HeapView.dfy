/** What a client of the heap sees: its live pointers and the bytes behind each. */
module HeapView {
  import opened Basics
  import opened BlockList
  import opened FirstFitSpec

  /** `p` is a live pointer. */
  ghost predicate Live(bs: seq<Block>, p: int) {
    IndexOf(bs, p, 0) < |bs|
  }

  ghost function Ptrs(bs: seq<Block>): set<int> {
    set i | 0 <= i < |bs| :: bs[i].Ptr()
  }

  ghost function View(bs: seq<Block>): map<int, seq<byte>> {
    map p | p in Ptrs(bs) && Live(bs, p) :: bs[IndexOf(bs, p, 0)].data
  }

  lemma ViewHas(bs: seq<Block>, p: int)
    ensures p in View(bs) <==> Live(bs, p)
    ensures Live(bs, p) ==> View(bs)[p] == bs[IndexOf(bs, p, 0)].data
  {
    if Live(bs, p) {
      assert bs[IndexOf(bs, p, 0)].Ptr() in Ptrs(bs);
    }
  }

  lemma ViewAt(bs: seq<Block>, k: int, lo: int, hi: int)
    requires Ordered(bs, lo, hi) && 0 <= k < |bs|
    ensures IndexOf(bs, bs[k].Ptr(), 0) == k
    ensures bs[k].Ptr() in View(bs) && View(bs)[bs[k].Ptr()] == bs[k].data
  {
    var j := IndexOf(bs, bs[k].Ptr(), 0);
    if j < k { Apart(bs, j, k, lo, hi); }
    ViewHas(bs, bs[k].Ptr());
  }

  /** A block keeps its pointer and bytes when another is inserted. */
  lemma InsertKeepsPtr(bs: seq<Block>, k: int, b: Block, lo: int, hi: int, i: int)
    requires 0 <= k <= |bs| && Ordered(Insert(bs, k, b), lo, hi) && 0 <= i < |bs|
    ensures var v := View(Insert(bs, k, b)); bs[i].Ptr() != b.Ptr() && bs[i].Ptr() in v && v[bs[i].Ptr()] == bs[i].data
  {
    var bs' := Insert(bs, k, b);
    var i' := if i < k then i else i + 1;
    assert bs'[i'] == bs[i] && bs'[k] == b;
    ViewAt(bs', i', lo, hi);
    ViewAt(bs', k, lo, hi);
  }

  /** Every block after an insertion is the inserted one or was there before. */
  lemma InsertedFrom(bs: seq<Block>, k: int, b: Block, p: int)
    requires 0 <= k <= |bs| && Live(Insert(bs, k, b), p) && p != b.Ptr()
    ensures Live(bs, p)
  {
    var bs' := Insert(bs, k, b);
    var j := IndexOf(bs', p, 0);
    assert bs'[k] == b;
    assert bs[if j < k then j else j - 1] == bs'[j];
  }

  lemma ViewInsertAt(bs: seq<Block>, k: int, b: Block, lo: int, hi: int, p: int)
    requires 0 <= k <= |bs| && Ordered(bs, lo, hi) && Ordered(Insert(bs, k, b), lo, hi)
    ensures p in View(Insert(bs, k, b)) <==> p in View(bs) || p == b.Ptr()
    ensures p in View(bs) ==> p != b.Ptr() && p in View(Insert(bs, k, b)) && View(Insert(bs, k, b))[p] == View(bs)[p]
  {
    ViewHas(bs, p);
    ViewHas(Insert(bs, k, b), p);
    if Live(bs, p) {
      InsertKeepsPtr(bs, k, b, lo, hi, IndexOf(bs, p, 0));
    } else if p == b.Ptr() {
      assert Insert(bs, k, b)[k] == b;
      ViewAt(Insert(bs, k, b), k, lo, hi);
    } else if Live(Insert(bs, k, b), p) {
      InsertedFrom(bs, k, b, p);
    }
  }

  lemma ViewInsert(bs: seq<Block>, k: int, b: Block, lo: int, hi: int)
    requires 0 <= k <= |bs| && Ordered(bs, lo, hi) && Ordered(Insert(bs, k, b), lo, hi)
    ensures b.Ptr() !in View(bs)
    ensures View(Insert(bs, k, b)) == View(bs)[b.Ptr() := b.data]
  {
    ViewInsertAt(bs, k, b, lo, hi, b.Ptr());
    ViewAt(Insert(bs, k, b), k, lo, hi);
    var v, v' := View(bs), View(Insert(bs, k, b));
    forall p ensures p in v' <==> p in v[b.Ptr() := b.data] {
      ViewInsertAt(bs, k, b, lo, hi, p);
    }
    forall p | p in v' ensures v'[p] == v[b.Ptr() := b.data][p] {
      ViewInsertAt(bs, k, b, lo, hi, p);
    }
  }

  lemma InsertRemoved(bs: seq<Block>, k: int)
    requires 0 <= k < |bs|
    ensures Insert(Remove(bs, k), k, bs[k]) == bs
  {
  }

  lemma ViewRemove(bs: seq<Block>, k: int, lo: int, hi: int)
    requires 0 <= k < |bs| && Ordered(bs, lo, hi)
    ensures bs[k].Ptr() in View(bs)
    ensures View(Remove(bs, k)) == View(bs) - {bs[k].Ptr()}
  {
    RemoveOrdered(bs, k, lo, hi);
    InsertRemoved(bs, k);
    ViewInsert(Remove(bs, k), k, bs[k], lo, hi);
    UndoUpdate(View(Remove(bs, k)), bs[k].Ptr(), bs[k].data);
  }

  lemma UndoUpdate(v: map<int, seq<byte>>, p: int, d: seq<byte>)
    requires p !in v
    ensures v[p := d] - {p} == v && p in v[p := d]
  {
  }

  lemma ViewReplace(bs: seq<Block>, k: int, b: Block, lo: int, hi: int, hi': int)
    requires 0 <= k < |bs| && Ordered(bs, lo, hi) && Ordered(bs[k := b], lo, hi')
    ensures bs[k].Ptr() in View(bs) && b.Ptr() in View(bs[k := b])
    ensures b.Ptr() != bs[k].Ptr() ==> b.Ptr() !in View(bs)
    ensures View(bs[k := b]) == (View(bs) - {bs[k].Ptr()})[b.Ptr() := b.data]
  {
    ViewRemove(bs, k, lo, hi);
    var rest := Remove(bs, k);
    assert bs[k := b] == Insert(rest, k, b) && rest == Remove(bs[k := b], k);
    RemoveOrdered(bs[k := b], k, lo, hi');
    ViewInsert(rest, k, b, lo, hi');
  }

  /** `p` is a fresh 16-aligned pointer to at least `size` bytes; every other block is untouched. */
  ghost predicate Allocated(v: map<int, seq<byte>>, v': map<int, seq<byte>>, p: int, size: int) {
    p !in v && p in v' && v' == v[p := v'[p]] && size <= |v'[p]| && p % 16 == 0
  }

  /** Two byte strings agree on the length of the shorter one. */
  ghost predicate SamePrefix(d: seq<byte>, d': seq<byte>) {
    forall i {:trigger d'[i]} :: 0 <= i < |d| && i < |d'| ==> d'[i] == d[i]
  }

  /** Block `k` has a new size; its header, its surviving bytes and every other block are as before. */
  ghost predicate Resized(bs: seq<Block>, bs': seq<Block>, k: int, size: int)
    requires 0 <= k < |bs|
  {
    && |bs'| == |bs| && bs' == bs[k := bs'[k]]
    && bs'[k].hdr == bs[k].hdr && bs'[k].Size() == size && SamePrefix(bs[k].data, bs'[k].data)
  }

  lemma PrefixKept(m: seq<byte>, o: Block, b: Block)
    requires o.Shown(m) && b.Shown(m) && o.hdr == b.hdr
    ensures SamePrefix(o.data, b.data)
  {
    forall i | 0 <= i < |o.data| && i < |b.data| ensures b.data[i] == o.data[i] {
      assert b.data[i] == m[b.Ptr() + i];
    }
  }

  /** The block at `p` became the block at `r`: at least `size` bytes, same contents up to the shorter length. */
  ghost predicate Reallocated(v: map<int, seq<byte>>, v': map<int, seq<byte>>, p: int, r: int, size: int) {
    && p in v && (r == p || r !in v) && r in v'
    && v' == (v - {p})[r := v'[r]]
    && size <= |v'[r]| && SamePrefix(v[p], v'[r]) && r % 16 == 0
  }

  /** A fresh block whose pointer is then moved inside its own bytes is still a fresh block. */
  lemma MovedAllocated(v: map<int, seq<byte>>, v1: map<int, seq<byte>>, v2: map<int, seq<byte>>,
                       p1: int, p2: int, size1: int, size2: int)
    requires Allocated(v, v1, p1, size1)
    requires p2 !in v1 && p2 in v2 && v2 == (v1 - {p1})[p2 := v2[p2]] && size2 <= |v2[p2]| && p2 % 16 == 0
    ensures Allocated(v, v2, p2, size2)
  {
    UndoUpdate(v, p1, v1[p1]);
  }

  /** malloc seen by the client: a fresh pointer with at least the bytes asked for, all else untouched. */
  lemma FirstFitView(bs: seq<Block>, base: int, brk: int, limit: int, size: int, p: int, bs': seq<Block>, brk': int)
    requires FirstFit(bs, base, brk, limit, MemSize(size), p, bs', brk')
    requires Ordered(bs, base, brk') && Ordered(bs', base, brk')
    ensures p == 0 ==> View(bs') == View(bs)
    ensures p != 0 ==> Allocated(View(bs), View(bs'), p, size) && |View(bs')[p]| == MemSize(size) - HEADER
  {
    if p != 0 {
      var k := PlaceIndex(bs, base, MemSize(size));
      ViewInsert(bs, k, bs'[k], base, brk');
      Apart(bs', k, k, base, brk');
    }
  }

  /** A block resized in place is a reallocation. */
  lemma ResizeView(bs: seq<Block>, k: int, b: Block, lo: int, hi: int, hi': int)
    requires 0 <= k < |bs| && Ordered(bs, lo, hi) && Ordered(bs[k := b], lo, hi')
    requires b.hdr == bs[k].hdr && SamePrefix(bs[k].data, b.data)
    ensures Reallocated(View(bs), View(bs[k := b]), b.Ptr(), b.Ptr(), b.Size())
  {
    Apart(bs, k, k, lo, hi);
    PtrAligned(b.Ptr());
    ViewAt(bs, k, lo, hi);
    ViewAt(bs[k := b], k, lo, hi');
    ViewReplace(bs, k, b, lo, hi, hi');
  }

  /** Bytes written into a block show up in the view of that block only. */
  lemma PokedView(bs: seq<Block>, k: int, b: Block, lo: int, hi: int)
    requires 0 <= k < |bs| && Ordered(bs, lo, hi) && b.hdr == bs[k].hdr && b.Size() == bs[k].Size()
    ensures b.Ptr() in View(bs) && View(bs)[b.Ptr()] == bs[k].data
    ensures View(bs[k := b]) == View(bs)[b.Ptr() := b.data]
  {
    PokeShape(bs, k, b, lo, hi);
    ViewAt(bs, k, lo, hi);
    ViewReplace(bs, k, b, lo, hi, hi);
    Overwrite(View(bs), b.Ptr(), b.data);
  }

  lemma Overwrite(v: map<int, seq<byte>>, p: int, d: seq<byte>)
    requires p in v
    ensures (v - {p})[p := d] == v[p := d]
  {
  }

  /** A fresh block that takes over the bytes of `p`, after which `p` is freed, is a reallocation. */
  lemma MoveView(v: map<int, seq<byte>>, v1: map<int, seq<byte>>, v2: map<int, seq<byte>>, p: int, r: int, size: int)
    requires p in v && Allocated(v, v1, r, size) && |v[p]| <= size
    requires v2 == v1[r := v[p] + v1[r][|v[p]|..]] - {p}
    ensures Reallocated(v, v2, p, r, size)
  {
    var d := v[p] + v1[r][|v[p]|..];
    assert v2[r] == d;
    assert v2 == (v - {p})[r := d];
  }

  ghost function Zeroed(d: seq<byte>, n: int): (r: seq<byte>)
    requires 0 <= n <= |d|
    ensures |r| == |d| && forall i :: 0 <= i < n ==> r[i] == 0
  {
    seq(n, _ => 0) + d[n..]
  }

  lemma ZeroedView(v: map<int, seq<byte>>, v1: map<int, seq<byte>>, v2: map<int, seq<byte>>, p: int, size: int)
    requires 0 <= size && Allocated(v, v1, p, size) && v2 == v1[p := Zeroed(v1[p], size)]
    ensures Allocated(v, v2, p, size) && forall i :: 0 <= i < size ==> v2[p][i] == 0
  {
  }

  lemma ZeroedNone(d: seq<byte>)
    ensures Zeroed(d, 0) == d
  {
  }

  lemma ZeroedStep(d: seq<byte>, i: int)
    requires 0 <= i < |d|
    ensures Zeroed(d, i)[i := 0] == Zeroed(d, i + 1)
  {
  }

  lemma CopiedNone(from: seq<byte>, to: seq<byte>)
    ensures from[..0] + to[0..] == to
  {
  }

  lemma CopiedStep(from: seq<byte>, to: seq<byte>, i: int)
    requires 0 <= i < |from| && i < |to|
    ensures (from[..i] + to[i..])[i := from[i]] == from[..i + 1] + to[i + 1..]
  {
  }
}
