/**
 * The list of allocated blocks that alloc.c keeps inside the memory it hands out.
 * Each block is a 16-byte header (ptr, size, prev, next) followed by its payload.
 */
module BlockList {
  import opened Arithmetic
  import opened Basics

  const HEADER: int := 16

  /** An allocated block: its header address and the bytes of its payload. */
  datatype Block = Block(hdr: int, data: seq<byte>) {
    function Size(): int { |data| }
    function Ptr(): int { hdr + HEADER }
    function End(): int { hdr + HEADER + Size() }

    ghost predicate Within(lo: int, hi: int) {
      lo <= hdr && End() <= hi && hdr % 16 == 0 && Size() % 16 == 0
    }

    /** The payload as it stands in memory. */
    ghost predicate Shown(m: seq<byte>) {
      0 <= Ptr() && End() <= |m| && m[Ptr()..End()] == data
    }
  }

  ghost function BlockAt(m: seq<byte>, h: int, size: int): (b: Block)
    requires 0 <= h && 0 <= size && h + HEADER + size <= |m|
    ensures b.hdr == h && b.Size() == size && b.Shown(m)
  {
    Block(h, m[h + HEADER..h + HEADER + size])
  }

  /** Memory holds the payload of every block. */
  ghost predicate Shows(m: seq<byte>, bs: seq<Block>) {
    forall i {:trigger bs[i].Shown(m)} :: 0 <= i < |bs| ==> bs[i].Shown(m)
  }

  lemma PtrAligned(p: int)
    ensures (p - HEADER) % 16 == 0 <==> p % 16 == 0
  {
  }

  /** A block's payload address, and any multiple of 16 above it, is a multiple of 16. */
  lemma TopAligned(b: Block, lo: int, hi: int, p: int, size: int)
    requires b.Within(lo, hi) && p == b.Ptr() && size % 16 == 0
    ensures p % 16 == 0 && (p + size) % 16 == 0
  {
    PtrAligned(p);
    SumAligned(p, size);
  }

  lemma EndAligned(b: Block, lo: int, hi: int)
    requires b.Within(lo, hi)
    ensures b.End() % 16 == 0
  {
    SumAligned(b.hdr, b.Size());
  }

  /** Address-sorted blocks of whole 16-byte units, pairwise disjoint, all inside `lo..hi`. */
  ghost predicate Ordered(bs: seq<Block>, lo: int, hi: int) {
    && (forall i {:trigger bs[i].Within(lo, hi)} :: 0 <= i < |bs| ==> bs[i].Within(lo, hi))
    && forall i, j {:trigger bs[i].End(), bs[j].hdr} :: 0 <= i < j < |bs| ==> bs[i].End() <= bs[j].hdr
  }

  /** Order and bounds of two blocks of the list. */
  lemma Apart(bs: seq<Block>, i: int, j: int, lo: int, hi: int)
    requires Ordered(bs, lo, hi) && 0 <= i <= j < |bs|
    ensures bs[i].Within(lo, hi) && bs[j].Within(lo, hi)
    ensures i < j ==> bs[i].End() <= bs[j].hdr
  {
  }

  lemma Disjoint(bs: seq<Block>, i: int, j: int, lo: int, hi: int)
    requires Ordered(bs, lo, hi) && 0 <= i < |bs| && 0 <= j < |bs| && i != j
    ensures bs[i].Within(lo, hi) && bs[j].Within(lo, hi)
    ensures bs[i].End() <= bs[j].hdr || bs[j].End() <= bs[i].hdr
  {
    if i < j { Apart(bs, i, j, lo, hi); } else { Apart(bs, j, i, lo, hi); }
  }

  ghost function PrevOf(bs: seq<Block>, i: int): int
    requires 0 <= i < |bs|
  {
    if i == 0 then 0 else bs[i - 1].hdr
  }

  ghost function NextOf(bs: seq<Block>, i: int): int
    requires 0 <= i < |bs|
  {
    if i == |bs| - 1 then 0 else bs[i + 1].hdr
  }

  lemma NullLinks(bs: seq<Block>, i: int, lo: int, hi: int)
    requires Ordered(bs, lo, hi) && 0 < lo && 0 <= i < |bs|
    ensures (PrevOf(bs, i) == 0 <==> i == 0) && (NextOf(bs, i) == 0 <==> i == |bs| - 1)
  {
    if i > 0 { assert bs[i - 1].Within(lo, hi); }
    if i < |bs| - 1 { assert bs[i + 1].Within(lo, hi); }
  }

  ghost predicate Holds(w: map<int, word>, a: int, v: int) {
    a in w && w[a] == v
  }

  /** The four header words at `h`. */
  ghost predicate HeaderIs(w: map<int, word>, h: int, ptr: int, size: int, prev: int, next: int) {
    Holds(w, h, ptr) && Holds(w, h + 4, size) && Holds(w, h + 8, prev) && Holds(w, h + 12, next)
  }

  /** Header `i` in memory describes block `i` and its neighbours. */
  ghost predicate HeaderOf(w: map<int, word>, bs: seq<Block>, i: int)
    requires 0 <= i < |bs|
  {
    HeaderIs(w, bs[i].hdr, bs[i].Ptr(), bs[i].Size(), PrevOf(bs, i), NextOf(bs, i))
  }

  /** The doubly linked list in memory is exactly `bs`. */
  ghost predicate Linked(w: map<int, word>, bs: seq<Block>) {
    forall i {:trigger HeaderOf(w, bs, i)} :: 0 <= i < |bs| ==> HeaderOf(w, bs, i)
  }

  // ---- Insertion ----

  function Insert(bs: seq<Block>, k: int, b: Block): (r: seq<Block>)
    requires 0 <= k <= |bs|
    ensures |r| == |bs| + 1 && r[k] == b
    ensures forall i :: 0 <= i < k ==> r[i] == bs[i]
    ensures forall i :: k < i < |r| ==> r[i] == bs[i - 1]
  {
    bs[..k] + [b] + bs[k..]
  }

  /** Block `b` lies between its neighbours at position `k`. */
  ghost predicate FitsAt(bs: seq<Block>, k: int, b: Block, lo: int, hi: int) {
    && 0 <= k <= |bs|
    && b.Within(lo, hi)
    && (k > 0 ==> bs[k - 1].End() <= b.hdr)
    && (k < |bs| ==> b.End() <= bs[k].hdr)
  }

  lemma InsertOrdered(bs: seq<Block>, k: int, b: Block, lo: int, hi: int, hi': int)
    requires Ordered(bs, lo, hi) && hi <= hi' && FitsAt(bs, k, b, lo, hi')
    ensures Ordered(Insert(bs, k, b), lo, hi')
  {
    var bs' := Insert(bs, k, b);
    forall i | 0 <= i < |bs'| ensures bs'[i].Within(lo, hi') {
      if i < k { assert bs[i].Within(lo, hi); } else if i > k { assert bs[i - 1].Within(lo, hi); }
    }
    forall i, j | 0 <= i < j < |bs'| ensures bs'[i].End() <= bs'[j].hdr {
      if i < k { Apart(bs, i, k - 1, lo, hi); }
      if j > k { Apart(bs, k, j - 1, lo, hi); }
      if i < k < j { Apart(bs, i, j - 1, lo, hi); }
      if j < k { Apart(bs, i, j, lo, hi); }
      if i > k { Apart(bs, i - 1, j - 1, lo, hi); }
    }
  }

  /** `w'` is `w` after writing at most the addresses that inserting `b` at `k` touches. */
  ghost predicate InsertWrites(w: map<int, word>, w': map<int, word>, bs: seq<Block>, k: int, b: Block)
    requires 0 <= k <= |bs|
  {
    && HeaderIs(w', b.hdr, b.Ptr(), b.Size(), if k == 0 then 0 else bs[k - 1].hdr, if k == |bs| then 0 else bs[k].hdr)
    && (k > 0 ==> Holds(w', bs[k - 1].hdr + 12, b.hdr))
    && (k < |bs| ==> Holds(w', bs[k].hdr + 8, b.hdr))
    && forall a :: a in w && !(b.hdr <= a < b.Ptr()) && !(k > 0 && a == bs[k - 1].hdr + 12) && !(k < |bs| && a == bs[k].hdr + 8)
                   ==> Holds(w', a, w[a])
  }

  /** The words after the header of `b` is written and its neighbours' links are redirected to it. */
  ghost function InsertWords(w: map<int, word>, b: Block, prev: int, next: int): map<int, word>
    requires 0 <= b.hdr && b.End() < WORD_RANGE && 0 <= prev < WORD_RANGE && 0 <= next < WORD_RANGE
  {
    var w1 := w[b.hdr := b.Ptr()][b.hdr + 4 := b.Size()][b.hdr + 8 := prev][b.hdr + 12 := next];
    var w2 := if next != 0 then w1[next + 8 := b.hdr] else w1;
    if prev != 0 then w2[prev + 12 := b.hdr] else w2
  }

  lemma InsertWordsAt(w: map<int, word>, b: Block, prev: int, next: int)
    requires 0 < b.hdr && b.End() < WORD_RANGE && 0 <= prev < WORD_RANGE && 0 <= next < WORD_RANGE
    requires (prev != 0 ==> prev + HEADER <= b.hdr) && (next != 0 ==> b.Ptr() <= next)
    ensures var w' := InsertWords(w, b, prev, next);
            && HeaderIs(w', b.hdr, b.Ptr(), b.Size(), prev, next)
            && (prev != 0 ==> Holds(w', prev + 12, b.hdr))
            && (next != 0 ==> Holds(w', next + 8, b.hdr))
            && forall a :: a in w && !(b.hdr <= a < b.Ptr()) && !(prev != 0 && a == prev + 12) && !(next != 0 && a == next + 8)
                           ==> Holds(w', a, w[a])
  {
  }

  lemma InsertWordsWrites(w: map<int, word>, bs: seq<Block>, k: int, b: Block, lo: int, hi: int)
    requires 0 < lo && hi < WORD_RANGE
    requires Ordered(bs, lo, hi) && FitsAt(bs, k, b, lo, hi)
    ensures var prev := if k == 0 then 0 else bs[k - 1].hdr;
            var next := if k == |bs| then 0 else bs[k].hdr;
            && 0 <= prev < WORD_RANGE && 0 <= next < WORD_RANGE
            && InsertWrites(w, InsertWords(w, b, prev, next), bs, k, b)
  {
    if k > 0 { Apart(bs, k - 1, k - 1, lo, hi); }
    if k < |bs| { Apart(bs, k, k, lo, hi); }
    InsertWordsAt(w, b, if k == 0 then 0 else bs[k - 1].hdr, if k == |bs| then 0 else bs[k].hdr);
  }

  lemma InsertLinked(w: map<int, word>, w': map<int, word>, bs: seq<Block>, k: int, b: Block, lo: int, hi: int, hi': int)
    requires Ordered(bs, lo, hi) && Linked(w, bs) && FitsAt(bs, k, b, lo, hi') && InsertWrites(w, w', bs, k, b)
    ensures Linked(w', Insert(bs, k, b))
  {
    var bs' := Insert(bs, k, b);
    forall i | 0 <= i < |bs'| ensures HeaderOf(w', bs', i) {
      if i < k {
        InsertBelow(w, w', bs, k, b, lo, hi, hi', i);
      } else if i > k {
        InsertAbove(w, w', bs, k, b, lo, hi, hi', i - 1);
      }
    }
  }

  lemma InsertBelow(w: map<int, word>, w': map<int, word>, bs: seq<Block>, k: int, b: Block, lo: int, hi: int, hi': int, i: int)
    requires Ordered(bs, lo, hi) && Linked(w, bs) && FitsAt(bs, k, b, lo, hi') && InsertWrites(w, w', bs, k, b)
    requires 0 <= i < k
    ensures HeaderOf(w', Insert(bs, k, b), i)
  {
    assert HeaderOf(w, bs, i);
    Apart(bs, i, k - 1, lo, hi);
    if k < |bs| { Apart(bs, i, k, lo, hi); }
    assert bs[i].End() <= b.hdr;
  }

  lemma InsertAbove(w: map<int, word>, w': map<int, word>, bs: seq<Block>, k: int, b: Block, lo: int, hi: int, hi': int, i: int)
    requires Ordered(bs, lo, hi) && Linked(w, bs) && FitsAt(bs, k, b, lo, hi') && InsertWrites(w, w', bs, k, b)
    requires k <= i < |bs|
    ensures HeaderOf(w', Insert(bs, k, b), i + 1)
  {
    assert HeaderOf(w, bs, i);
    Apart(bs, k, i, lo, hi);
    if k > 0 { Apart(bs, k - 1, i, lo, hi); }
    assert b.End() <= bs[i].hdr;
  }

  // ---- Removal ----

  function Remove(bs: seq<Block>, k: int): (r: seq<Block>)
    requires 0 <= k < |bs|
    ensures |r| == |bs| - 1
    ensures forall i :: 0 <= i < k ==> r[i] == bs[i]
    ensures forall i :: k <= i < |r| ==> r[i] == bs[i + 1]
  {
    bs[..k] + bs[k + 1..]
  }

  ghost predicate RemoveWrites(w: map<int, word>, w': map<int, word>, bs: seq<Block>, k: int)
    requires 0 <= k < |bs|
  {
    && (k > 0 ==> Holds(w', bs[k - 1].hdr + 12, NextOf(bs, k)))
    && (k < |bs| - 1 ==> Holds(w', bs[k + 1].hdr + 8, PrevOf(bs, k)))
    && forall a :: a in w && !(k > 0 && a == bs[k - 1].hdr + 12) && !(k < |bs| - 1 && a == bs[k + 1].hdr + 8)
                   ==> Holds(w', a, w[a])
  }

  /** The words after the links of the neighbours `prev` and `next` are joined. */
  ghost function RemoveWords(w: map<int, word>, prev: int, next: int): map<int, word>
    requires 0 <= prev < WORD_RANGE && 0 <= next < WORD_RANGE
  {
    var w1 := if next != 0 then w[next + 8 := prev] else w;
    if prev != 0 then w1[prev + 12 := next] else w1
  }

  lemma RemoveWordsWrites(w: map<int, word>, bs: seq<Block>, k: int, lo: int, hi: int)
    requires 0 < lo && hi < WORD_RANGE && Ordered(bs, lo, hi) && 0 <= k < |bs|
    ensures 0 <= PrevOf(bs, k) < WORD_RANGE && 0 <= NextOf(bs, k) < WORD_RANGE
    ensures RemoveWrites(w, RemoveWords(w, PrevOf(bs, k), NextOf(bs, k)), bs, k)
  {
    if k > 0 { Apart(bs, k - 1, k, lo, hi); }
    if k < |bs| - 1 { Apart(bs, k, k + 1, lo, hi); }
    if 0 < k < |bs| - 1 { Apart(bs, k - 1, k + 1, lo, hi); }
  }

  lemma RemoveOrdered(bs: seq<Block>, k: int, lo: int, hi: int)
    requires Ordered(bs, lo, hi) && 0 <= k < |bs|
    ensures Ordered(Remove(bs, k), lo, hi)
  {
    var bs' := Remove(bs, k);
    forall i | 0 <= i < |bs'| ensures bs'[i].Within(lo, hi) {
      assert bs[if i < k then i else i + 1].Within(lo, hi);
    }
    forall i, j | 0 <= i < j < |bs'| ensures bs'[i].End() <= bs'[j].hdr {
      Apart(bs, if i < k then i else i + 1, if j < k then j else j + 1, lo, hi);
    }
  }

  lemma RemoveLinked(w: map<int, word>, w': map<int, word>, bs: seq<Block>, k: int, lo: int, hi: int)
    requires Ordered(bs, lo, hi) && Linked(w, bs) && 0 <= k < |bs| && RemoveWrites(w, w', bs, k)
    ensures Linked(w', Remove(bs, k))
  {
    var bs' := Remove(bs, k);
    forall i | 0 <= i < |bs'| ensures HeaderOf(w', bs', i) {
      if i < k {
        RemoveBelow(w, w', bs, k, lo, hi, i);
      } else {
        RemoveAbove(w, w', bs, k, lo, hi, i + 1);
      }
    }
  }

  lemma RemoveBelow(w: map<int, word>, w': map<int, word>, bs: seq<Block>, k: int, lo: int, hi: int, i: int)
    requires Ordered(bs, lo, hi) && Linked(w, bs) && 0 <= k < |bs| && RemoveWrites(w, w', bs, k)
    requires 0 <= i < k
    ensures HeaderOf(w', Remove(bs, k), i)
  {
    assert HeaderOf(w, bs, i);
    Apart(bs, i, k - 1, lo, hi);
    if k < |bs| - 1 { Apart(bs, i, k + 1, lo, hi); }
  }

  lemma RemoveAbove(w: map<int, word>, w': map<int, word>, bs: seq<Block>, k: int, lo: int, hi: int, i: int)
    requires Ordered(bs, lo, hi) && Linked(w, bs) && 0 <= k < |bs| && RemoveWrites(w, w', bs, k)
    requires k < i < |bs|
    ensures HeaderOf(w', Remove(bs, k), i - 1)
  {
    assert HeaderOf(w, bs, i);
    Apart(bs, k + 1, i, lo, hi);
    if k > 0 { Apart(bs, k - 1, i, lo, hi); }
  }

  // ---- Replacement: a block is resized in place or its header is moved up ----

  ghost predicate ReplaceWrites(w: map<int, word>, w': map<int, word>, bs: seq<Block>, k: int, b: Block)
    requires 0 <= k < |bs|
  {
    && HeaderIs(w', b.hdr, b.Ptr(), b.Size(), PrevOf(bs, k), NextOf(bs, k))
    && (k > 0 ==> Holds(w', bs[k - 1].hdr + 12, b.hdr))
    && (k < |bs| - 1 ==> Holds(w', bs[k + 1].hdr + 8, b.hdr))
    && forall a :: a in w && !(bs[k].hdr <= a < bs[k].End()) && !(b.hdr <= a < b.Ptr())
                   && !(k > 0 && a == bs[k - 1].hdr + 12) && !(k < |bs| - 1 && a == bs[k + 1].hdr + 8)
                   ==> Holds(w', a, w[a])
  }

  lemma ResizeWrites(w: map<int, word>, bs: seq<Block>, k: int, b: Block, lo: int, hi: int)
    requires Ordered(bs, lo, hi) && Linked(w, bs) && 0 <= k < |bs| && b.hdr == bs[k].hdr && b.Size() < WORD_RANGE
    ensures ReplaceWrites(w, w[b.hdr + 4 := b.Size()], bs, k, b)
  {
    assert HeaderOf(w, bs, k);
    if k > 0 {
      assert HeaderOf(w, bs, k - 1);
      Apart(bs, k - 1, k, lo, hi);
    }
    if k < |bs| - 1 {
      assert HeaderOf(w, bs, k + 1);
      Apart(bs, k, k + 1, lo, hi);
    }
  }

  lemma MoveWrites(w: map<int, word>, bs: seq<Block>, k: int, b: Block, lo: int, hi: int)
    requires 0 < lo && hi < WORD_RANGE
    requires Ordered(bs, lo, hi) && 0 <= k < |bs|
    requires b.Within(bs[k].Ptr(), bs[k].End())
    ensures 0 <= PrevOf(bs, k) < WORD_RANGE && 0 <= NextOf(bs, k) < WORD_RANGE && 0 <= b.hdr && b.End() < WORD_RANGE
    ensures ReplaceWrites(w, InsertWords(w[bs[k].hdr + 4 := b.Size()], b, PrevOf(bs, k), NextOf(bs, k)), bs, k, b)
  {
    NullLinks(bs, k, lo, hi);
    Apart(bs, k, k, lo, hi);
    if k > 0 { Apart(bs, k - 1, k, lo, hi); }
    if k < |bs| - 1 { Apart(bs, k, k + 1, lo, hi); }
    InsertWordsAt(w[bs[k].hdr + 4 := b.Size()], b, PrevOf(bs, k), NextOf(bs, k));
  }

  lemma ResizeLinked(w: map<int, word>, w': map<int, word>, bs: seq<Block>, k: int, b: Block, lo: int, hi: int, hi': int)
    requires Ordered(bs, lo, hi) && Linked(w, bs) && 0 <= k < |bs| && b.hdr == bs[k].hdr && b.Size() < WORD_RANGE
    requires FitsAt(Remove(bs, k), k, b, lo, hi') && w' == w[b.hdr + 4 := b.Size()]
    ensures Linked(w', bs[k := b])
  {
    ResizeWrites(w, bs, k, b, lo, hi);
    ReplaceLinked(w, w', bs, k, b, lo, hi, hi');
  }

  lemma MoveLinked(w: map<int, word>, w': map<int, word>, bs: seq<Block>, k: int, b: Block,
                   prev: word, next: word, lo: int, hi: int)
    requires 0 < lo && hi < WORD_RANGE && Ordered(bs, lo, hi) && Linked(w, bs) && 0 <= k < |bs|
    requires b.Within(bs[k].Ptr(), bs[k].End()) && FitsAt(Remove(bs, k), k, b, lo, hi)
    requires prev == PrevOf(bs, k) && next == NextOf(bs, k) && 0 <= b.hdr && b.End() < WORD_RANGE
    requires w' == InsertWords(w[bs[k].hdr + 4 := b.Size()], b, prev, next)
    ensures Linked(w', bs[k := b])
  {
    MoveWrites(w, bs, k, b, lo, hi);
    ReplaceLinked(w, w', bs, k, b, lo, hi, hi);
  }

  lemma ReplaceOrdered(bs: seq<Block>, k: int, b: Block, lo: int, hi: int, hi': int)
    requires Ordered(bs, lo, hi) && 0 <= k < |bs|
    requires FitsAt(Remove(bs, k), k, b, lo, hi')
    requires hi' < hi ==> k == |bs| - 1
    ensures Ordered(bs[k := b], lo, hi')
  {
    var bs' := bs[k := b];
    forall i | 0 <= i < |bs'| ensures bs'[i].Within(lo, hi') {
      if i < k { Apart(bs, i, k - 1, lo, hi); } else if i > k { Apart(bs, k, i, lo, hi); }
    }
    forall i, j | 0 <= i < j < |bs'| ensures bs'[i].End() <= bs'[j].hdr {
      Apart(bs, i, j, lo, hi);
      if j == k { Apart(bs, i, k - 1, lo, hi); }
      if i == k { Apart(bs, k + 1, j, lo, hi); }
    }
  }

  lemma ReplaceLinked(w: map<int, word>, w': map<int, word>, bs: seq<Block>, k: int, b: Block, lo: int, hi: int, hi': int)
    requires Ordered(bs, lo, hi) && Linked(w, bs) && 0 <= k < |bs|
    requires FitsAt(Remove(bs, k), k, b, lo, hi') && ReplaceWrites(w, w', bs, k, b)
    ensures Linked(w', bs[k := b])
  {
    var bs' := bs[k := b];
    forall i | 0 <= i < |bs'| ensures HeaderOf(w', bs', i) {
      if i != k {
        ReplaceKeeps(w, w', bs, k, b, lo, hi, hi', i);
      }
    }
  }

  lemma ReplaceKeepsBelow(w: map<int, word>, w': map<int, word>, bs: seq<Block>, k: int, b: Block,
                          lo: int, hi: int, hi': int, i: int)
    requires Ordered(bs, lo, hi) && Linked(w, bs) && 0 <= i < k < |bs|
    requires FitsAt(Remove(bs, k), k, b, lo, hi') && ReplaceWrites(w, w', bs, k, b)
    ensures HeaderOf(w', bs[k := b], i)
  {
    assert HeaderOf(w, bs, i);
    Apart(bs, i, k - 1, lo, hi);
    Apart(bs, i, k, lo, hi);
    if k < |bs| - 1 { Apart(bs, i, k + 1, lo, hi); }
    assert bs[i].End() <= b.hdr;
  }

  lemma ReplaceKeepsAbove(w: map<int, word>, w': map<int, word>, bs: seq<Block>, k: int, b: Block,
                          lo: int, hi: int, hi': int, i: int)
    requires Ordered(bs, lo, hi) && Linked(w, bs) && 0 <= k < i < |bs|
    requires FitsAt(Remove(bs, k), k, b, lo, hi') && ReplaceWrites(w, w', bs, k, b)
    ensures HeaderOf(w', bs[k := b], i)
  {
    assert HeaderOf(w, bs, i);
    Apart(bs, k + 1, i, lo, hi);
    Apart(bs, k, i, lo, hi);
    if k > 0 { Apart(bs, k - 1, i, lo, hi); }
    assert b.End() <= bs[i].hdr;
  }

  lemma ReplaceKeeps(w: map<int, word>, w': map<int, word>, bs: seq<Block>, k: int, b: Block, lo: int, hi: int, hi': int, i: int)
    requires Ordered(bs, lo, hi) && Linked(w, bs) && 0 <= k < |bs|
    requires FitsAt(Remove(bs, k), k, b, lo, hi') && ReplaceWrites(w, w', bs, k, b)
    requires 0 <= i < |bs| && i != k
    ensures HeaderOf(w', bs[k := b], i)
  {
    if i < k {
      ReplaceKeepsBelow(w, w', bs, k, b, lo, hi, hi', i);
    } else {
      ReplaceKeepsAbove(w, w', bs, k, b, lo, hi, hi', i);
    }
  }
}
