/** Geometry of the block list: what overlaps what, and where first fit puts a block. */
module FirstFitSpec {
  import opened Arithmetic
  import opened Basics
  import opened ByteMemory
  import opened BlockList

  /** The 32-bit sum of two words. */
  function Wrap(x: int): (r: int)
    requires 0 <= x < 2 * WORD_RANGE
    ensures r == x % WORD_RANGE
  {
    if x < WORD_RANGE then x else x - WORD_RANGE
  }

  lemma WrapAligned(x: int, y: int)
    requires 0 <= x < WORD_RANGE && 0 <= y < WORD_RANGE
    ensures x % 16 == 0 && y % 16 == 0 ==> Wrap(x + y) % 16 == 0
  {
    if x % 16 == 0 && y % 16 == 0 {
      SumAligned(x, y);
      SumAligned(x + y, WORD_RANGE);
    }
  }

  /** The word passed to `ps2_sbrk` for a negative increment. */
  function Neg(x: int): word
    requires 0 <= x < WORD_RANGE
  {
    if x == 0 then 0 else WORD_RANGE - x
  }

  /** Bytes taken from the heap by a request: header plus payload rounded up to 16. */
  function MemSize(size: int): (r: int)
    ensures r % 16 == 0 && size + HEADER <= r < size + HEADER + 16
  {
    var n := size + HEADER;
    if n % 16 != 0 then RoundUp(n, 16) else n
  }

  /** The size do_realloc works with: the request rounded up to the alignment, hence to 16. */
  function RequestSize(size: int, align: int): (r: int)
    requires align == 16 || align == 64
    ensures size <= r < size + align && r % align == 0 && r % 16 == 0
  {
    if size % align != 0 then MultipleOfMultiple(RoundUp(size, align), align); RoundUp(size, align)
    else MultipleOfMultiple(size, align); size
  }

  /** The bytes, header included, that memalign asks malloc for. */
  function MovedSize(size: int, align: int): int { MemSize(if align <= 16 then size else size + align) }

  /** malloc adds the break's own residue to align the heap base: right exactly for residues 0 and 8. */
  lemma BaseAligned(end: int)
    ensures (end + end % 16) % 16 == 0 <==> end % 8 == 0
  {
    var q, r := end / 16, end % 16;
    assert end + r == 16 * q + 2 * r && end == 8 * (2 * q) + r;
  }

  /** A break of 20 is raised to 24, which is no multiple of 16. */
  lemma BaseMisaligned()
    ensures 20 + 20 % 16 == 24 && 24 % 16 != 0
  {
  }

  // ---- Overlap ----

  /** The bytes `lo..hi` overlap no payload. */
  ghost predicate Outside(bs: seq<Block>, lo: int, hi: int) {
    forall i {:trigger bs[i].Ptr()} :: 0 <= i < |bs| ==> hi <= bs[i].Ptr() || bs[i].End() <= lo
  }

  lemma OutsideField(bs: seq<Block>, h: int, f: int)
    requires Outside(bs, h, h + HEADER) && 0 <= f <= 12
    ensures Outside(bs, h + f, h + f + 4)
  {
  }

  lemma FieldsAddressable(h: int, size: int)
    requires 0 <= h && h % 16 == 0 && h + HEADER <= size
    ensures Addressable(size, h) && Addressable(size, h + 4) && Addressable(size, h + 8) && Addressable(size, h + 12)
  {
    var q := h / 16;
    assert h == 4 * (4 * q) && h + 4 == 4 * (4 * q + 1) && h + 8 == 4 * (4 * q + 2) && h + 12 == 4 * (4 * q + 3);
  }

  lemma ShowsKept(m: seq<byte>, m': seq<byte>, bs: seq<Block>, lo: int, hi: int)
    requires Agree(m, m', 0, lo) && Agree(m, m', hi, |m|)
    requires Shows(m, bs) && Outside(bs, lo, hi)
    ensures Shows(m', bs)
  {
    forall i | 0 <= i < |bs| ensures bs[i].Shown(m') {
      assert bs[i].Shown(m);
      assert hi <= bs[i].Ptr() || bs[i].End() <= lo;
    }
  }

  lemma HeaderOutside(bs: seq<Block>, k: int, lo: int, hi: int)
    requires Ordered(bs, lo, hi) && 0 <= k < |bs|
    ensures Outside(bs, bs[k].hdr, bs[k].Ptr()) && bs[k].Within(lo, hi)
  {
    forall i | 0 <= i < |bs| ensures bs[k].Ptr() <= bs[i].Ptr() || bs[i].End() <= bs[k].hdr {
      if i < k { Apart(bs, i, k, lo, hi); } else { Apart(bs, k, i, lo, hi); }
    }
  }

  lemma InsertShows(m: seq<byte>, bs: seq<Block>, k: int, b: Block)
    requires Shows(m, bs) && 0 <= k <= |bs| && b.Shown(m)
    ensures Shows(m, Insert(bs, k, b))
  {
    var bs' := Insert(bs, k, b);
    forall i | 0 <= i < |bs'| ensures bs'[i].Shown(m) {
      if i < k { assert bs[i].Shown(m); } else if i > k { assert bs[i - 1].Shown(m); }
    }
  }

  lemma ReplaceShows(m: seq<byte>, bs: seq<Block>, k: int, b: Block)
    requires Shows(m, bs) && 0 <= k < |bs| && b.Shown(m)
    ensures Shows(m, bs[k := b])
  {
    var bs' := bs[k := b];
    forall i | 0 <= i < |bs'| ensures bs'[i].Shown(m) {
      if i != k { assert bs[i].Shown(m); }
    }
  }

  lemma RemoveShows(m: seq<byte>, bs: seq<Block>, k: int)
    requires Shows(m, bs) && 0 <= k < |bs|
    ensures Shows(m, Remove(bs, k))
  {
    var bs' := Remove(bs, k);
    forall i | 0 <= i < |bs'| ensures bs'[i].Shown(m) {
      assert bs[if i < k then i else i + 1].Shown(m);
    }
  }

  lemma OrderedUpTo(bs: seq<Block>, lo: int, hi: int, hi': int)
    requires Ordered(bs, lo, hi) && (bs != [] ==> bs[|bs| - 1].End() <= hi')
    ensures Ordered(bs, lo, hi')
  {
    forall i | 0 <= i < |bs| ensures bs[i].Within(lo, hi') {
      Apart(bs, i, |bs| - 1, lo, hi);
    }
  }

  /** A neighbour header (0: none) whose words may be written without touching a payload. */
  ghost predicate Writable(bs: seq<Block>, h: int, size: int) {
    h == 0 || (0 < h && h % 16 == 0 && h + HEADER <= size && Outside(bs, h, h + HEADER))
  }

  lemma NeighboursWritable(bs: seq<Block>, k: int, lo: int, hi: int, size: int)
    requires Ordered(bs, lo, hi) && 0 <= k < |bs| && 0 < lo && hi <= size
    ensures Writable(bs, PrevOf(bs, k), size) && Writable(bs, bs[k].hdr, size) && Writable(bs, NextOf(bs, k), size)
  {
    HeaderOutside(bs, k, lo, hi);
    if k > 0 { HeaderOutside(bs, k - 1, lo, hi); }
    if k < |bs| - 1 { HeaderOutside(bs, k + 1, lo, hi); }
  }

  // ---- Replacing a block ----

  /** Moving the header of block `k` up inside the block keeps the list ordered. */
  lemma MoveOrdered(bs: seq<Block>, k: int, b: Block, lo: int, hi: int)
    requires Ordered(bs, lo, hi) && 0 <= k < |bs| && b.Within(bs[k].Ptr(), bs[k].End())
    ensures FitsAt(Remove(bs, k), k, b, lo, hi) && Ordered(bs[k := b], lo, hi)
    ensures Outside(bs[k := b], bs[k].hdr, bs[k].Ptr())
  {
    Apart(bs, k, k, lo, hi);
    if k > 0 { Apart(bs, k - 1, k, lo, hi); }
    if k < |bs| - 1 { Apart(bs, k, k + 1, lo, hi); }
    ReplaceOrdered(bs, k, b, lo, hi, hi);
    HeaderOutside(bs, k, lo, hi);
  }

  /** Resizing block `k` between its neighbours keeps the list ordered. */
  lemma ResizeOrdered(bs: seq<Block>, k: int, b: Block, lo: int, hi: int, hi': int)
    requires Ordered(bs, lo, hi) && 0 <= k < |bs| && b.hdr == bs[k].hdr && b.Size() % 16 == 0
    requires if k == |bs| - 1 then b.End() <= hi' else b.End() <= bs[k + 1].hdr && hi' == hi
    ensures FitsAt(Remove(bs, k), k, b, lo, hi') && Ordered(bs[k := b], lo, hi')
  {
    Apart(bs, k, k, lo, hi);
    if k > 0 { Apart(bs, k - 1, k, lo, hi); }
    if k < |bs| - 1 { Apart(bs, k, k + 1, lo, hi); }
    ReplaceOrdered(bs, k, b, lo, hi, hi');
  }

  /**
   * do_realloc compares with the next payload, not the next header. Because everything is a multiple of 16
   * the test is still exact: it succeeds if and only if the grown block ends at or below the next header.
   */
  lemma GapCompare(bs: seq<Block>, k: int, size: int, lo: int, hi: int)
    requires Ordered(bs, lo, hi) && 0 <= k < |bs| - 1 && size % 16 == 0
    ensures bs[k + 1].Ptr() - bs[k].Ptr() > size <==> bs[k].Ptr() + size <= bs[k + 1].hdr
  {
    Apart(bs, k, k + 1, lo, hi);
    SumAligned(bs[k + 1].hdr, bs[k].hdr);
    SumAligned(bs[k + 1].hdr - bs[k].hdr, size);
  }

  /** Rounding a 16-aligned address that is not `align`-aligned moves it by 16..align-16. */
  lemma AlignStep(p: int, align: int)
    requires align > 16 && align % 16 == 0 && p % 16 == 0 && p % align != 0
    ensures var r := RoundUp(p, align); r % 16 == 0 && p + 16 <= r <= p + align - 16
  {
    var r := RoundUp(p, align);
    MultipleOfMultiple(r, align);
    SumAligned(r, p);
    SumAligned(align, r - p);
  }

  /** The part of block `o` that memalign keeps: `align` bytes shorter, payload rounded up. */
  lemma AlignedPart(o: Block, align: int, lo: int, hi: int)
    requires o.Within(lo, hi) && align > 16 && align % 16 == 0 && o.Size() >= align && o.Ptr() % align != 0
    ensures var p, size := RoundUp(o.Ptr(), align), o.Size() - align;
            && o.Ptr() <= p - HEADER && p + size <= o.End() && (p - HEADER) % 16 == 0 && size % 16 == 0
  {
    PtrAligned(o.Ptr());
    AlignStep(o.Ptr(), align);
    PtrAligned(RoundUp(o.Ptr(), align));
    SumAligned(o.Size(), align);
  }

  /** Writing one payload byte changes no header. */
  lemma PokeShape(bs: seq<Block>, k: int, b: Block, lo: int, hi: int)
    requires Ordered(bs, lo, hi) && 0 <= k < |bs| && b.hdr == bs[k].hdr && b.Size() == bs[k].Size()
    ensures Ordered(bs[k := b], lo, hi)
  {
    var bs' := bs[k := b];
    forall i | 0 <= i < |bs'| ensures bs'[i].Within(lo, hi) {
      Apart(bs, i, i, lo, hi);
    }
    forall i, j | 0 <= i < j < |bs'| ensures bs'[i].End() <= bs'[j].hdr {
      Apart(bs, i, j, lo, hi);
    }
  }

  lemma PokeHeader(m: seq<byte>, m': seq<byte>, w: map<int, word>, w': map<int, word>, h: int, a: int,
                   ptr: int, size: int, prev: int, next: int)
    requires HeaderIs(w, h, ptr, size, prev, next)
    requires WordsOf(w, m) && WordsOf(w', m') && Agree(m, m', 0, a) && Agree(m, m', a + 1, |m|)
    requires 0 <= h && h % 16 == 0 && h + HEADER <= |m| && (h + HEADER <= a || a < h)
    ensures HeaderIs(w', h, ptr, size, prev, next)
  {
    FieldsAddressable(h, |m|);
    assert Word(m, h) == Word(m', h) && Word(m, h + 4) == Word(m', h + 4);
    assert Word(m, h + 8) == Word(m', h + 8) && Word(m, h + 12) == Word(m', h + 12);
  }

  lemma PokeLinked(m: seq<byte>, m': seq<byte>, w: map<int, word>, w': map<int, word>, bs: seq<Block>, k: int, b: Block,
                   a: int, lo: int, hi: int)
    requires WordsOf(w, m) && WordsOf(w', m') && Agree(m, m', 0, a) && Agree(m, m', a + 1, |m|)
    requires Ordered(bs, lo, hi) && Linked(w, bs) && 0 <= lo && hi <= |m|
    requires 0 <= k < |bs| && b.hdr == bs[k].hdr && b.Size() == bs[k].Size() && bs[k].Ptr() <= a < bs[k].End()
    ensures Linked(w', bs[k := b])
  {
    var bs' := bs[k := b];
    forall i | 0 <= i < |bs'| ensures HeaderOf(w', bs', i) {
      HeaderOutside(bs, i, lo, hi);
      assert bs[i].Ptr() <= bs[k].Ptr() || bs[k].End() <= bs[i].hdr;
      assert HeaderOf(w, bs, i);
      PokeHeader(m, m', w, w', bs[i].hdr, a, bs[i].Ptr(), bs[i].Size(), PrevOf(bs, i), NextOf(bs, i));
      assert PrevOf(bs', i) == PrevOf(bs, i) && NextOf(bs', i) == NextOf(bs, i);
    }
  }

  lemma PokeShows(m: seq<byte>, m': seq<byte>, bs: seq<Block>, k: int, b: Block, a: int, lo: int, hi: int)
    requires Agree(m, m', 0, a) && Agree(m, m', a + 1, |m|)
    requires Ordered(bs, lo, hi) && Shows(m, bs) && 0 <= k < |bs| && bs[k].Ptr() <= a < bs[k].End()
    requires b.Shown(m')
    ensures Shows(m', bs[k := b])
  {
    var bs' := bs[k := b];
    forall i | 0 <= i < |bs'| ensures bs'[i].Shown(m') {
      if i != k {
        assert bs[i].Shown(m);
        if i < k { Apart(bs, i, k, lo, hi); } else { Apart(bs, k, i, lo, hi); }
      }
    }
  }

  // ---- First fit ----

  /** A header at `h` with `size` payload bytes lies between its neighbours at position `k`. */
  ghost predicate FitsBetween(bs: seq<Block>, k: int, h: int, size: int, lo: int, hi: int)
    requires 0 <= k <= |bs|
  {
    && lo <= h && h + HEADER + size <= hi && h % 16 == 0 && size % 16 == 0 && 0 <= size
    && (k > 0 ==> bs[k - 1].End() <= h)
    && (k < |bs| ==> h + HEADER + size <= bs[k].hdr)
  }

  predicate BottomFits(bs: seq<Block>, base: int, need: int) {
    bs != [] && base + need < bs[0].hdr
  }

  predicate GapFits(bs: seq<Block>, i: int, need: int) {
    0 < i < |bs| && bs[i].hdr - bs[i - 1].End() >= need
  }

  /** Index of the first block at or after `i` with enough room below it, or the list length. */
  function FirstGap(bs: seq<Block>, i: int, need: int): (k: int)
    requires 0 < i <= |bs|
    ensures i <= k <= |bs|
    ensures forall j {:trigger GapFits(bs, j, need)} :: i <= j < k ==> !GapFits(bs, j, need)
    ensures k < |bs| ==> GapFits(bs, k, need)
    decreases |bs| - i
  {
    if i == |bs| || GapFits(bs, i, need) then i else FirstGap(bs, i + 1, need)
  }

  function PlaceIndex(bs: seq<Block>, base: int, need: int): (k: int)
    ensures 0 <= k <= |bs|
  {
    if bs == [] || BottomFits(bs, base, need) then 0 else FirstGap(bs, 1, need)
  }

  function PlaceAddr(bs: seq<Block>, base: int, brk: int, k: int): int
    requires 0 <= k <= |bs|
  {
    if k == |bs| then brk else if k == 0 then base else bs[k - 1].End()
  }

  /** What malloc does to the list and the break: `p` is 0 exactly when nothing fits. */
  ghost predicate FirstFit(bs: seq<Block>, base: int, brk: int, limit: int, need: int, p: int, bs': seq<Block>, brk': int) {
    var k := PlaceIndex(bs, base, need);
    && (p == 0 <==> k == |bs| && brk + need > limit)
    && (p == 0 ==> bs' == bs)
    && (p != 0 ==>
          && p - HEADER == PlaceAddr(bs, base, brk, k)
          && |bs'| == |bs| + 1 && bs' == Insert(bs, k, bs'[k])
          && bs'[k].Ptr() == p && bs'[k].Size() == need - HEADER)
    && brk' == brk + (if p != 0 && k == |bs| then need else 0)
  }

  /** realloc of block `k` to `size` bytes needs no new block: it is big enough, last, or has room behind it. */
  predicate StaysPut(bs: seq<Block>, k: int, size: int)
    requires 0 <= k < |bs|
  {
    size <= bs[k].Size() || k == |bs| - 1 || bs[k].Ptr() + size <= bs[k + 1].hdr
  }

  /** The break once block `k` has `size` bytes where it is: it follows the last block, down to its end or up by the growth. */
  function BrkAfter(bs: seq<Block>, k: int, size: int, brk: int): int
    requires 0 <= k < |bs|
  {
    if k < |bs| - 1 then brk else if size <= bs[k].Size() then bs[k].Ptr() + size else brk + size - bs[k].Size()
  }

  /** Neither the room below the first block, nor a gap between two, nor the memory above the break takes `need` bytes. */
  ghost predicate NoRoom(bs: seq<Block>, base: int, brk: int, limit: int, need: int) {
    && (bs != [] ==> bs[0].hdr <= base + need)
    && (forall i {:trigger bs[i].Ptr()} :: 0 < i < |bs| ==> bs[i].hdr < bs[i - 1].End() + need)
    && brk + need > limit
  }

  /** malloc fails if and only if there is no room. */
  lemma FirstFitFails(bs: seq<Block>, base: int, brk: int, limit: int, need: int, p: int, bs': seq<Block>, brk': int)
    requires FirstFit(bs, base, brk, limit, need, p, bs', brk')
    ensures p == 0 <==> NoRoom(bs, base, brk, limit, need)
  {
    var k := PlaceIndex(bs, base, need);
    if k == |bs| {
      forall i | 0 < i < |bs| ensures bs[i].hdr < bs[i - 1].End() + need {
        assert !GapFits(bs, i, need);
      }
    } else if 0 < k {
      assert bs[k].Ptr() == bs[k].hdr + HEADER && GapFits(bs, k, need);
    }
  }

  /** Index of the block whose payload starts at `p`, searching from `i`, or the list length. */
  function IndexOf(bs: seq<Block>, p: int, i: int): (k: int)
    requires 0 <= i <= |bs|
    ensures i <= k <= |bs|
    ensures forall j {:trigger bs[j].Ptr()} :: i <= j < k ==> bs[j].Ptr() != p
    ensures k < |bs| ==> bs[k].Ptr() == p
    decreases |bs| - i
  {
    if i == |bs| || bs[i].Ptr() == p then i else IndexOf(bs, p, i + 1)
  }

  /** Only the first block is at the head and only the last one at the tail. */
  lemma EndsAt(bs: seq<Block>, k: int, lo: int, hi: int)
    requires Ordered(bs, lo, hi) && 0 <= k < |bs|
    ensures (bs[0].hdr == bs[k].hdr <==> k == 0) && (bs[|bs| - 1].hdr == bs[k].hdr <==> k == |bs| - 1)
  {
    Apart(bs, 0, k, lo, hi);
    Apart(bs, k, |bs| - 1, lo, hi);
  }

  lemma NullNotLive(bs: seq<Block>, lo: int, hi: int)
    requires Ordered(bs, lo, hi) && 0 <= lo
    ensures IndexOf(bs, 0, 0) == |bs|
  {
    forall i | 0 <= i < |bs| ensures bs[i].Ptr() != 0 {
      Apart(bs, i, i, lo, hi);
    }
  }

  /** `h` starts a free run of `need` bytes below the last block. */
  ghost predicate FreeRun(bs: seq<Block>, base: int, need: int, h: int) {
    && bs != [] && base <= h && h + need <= bs[|bs| - 1].hdr
    && forall i {:trigger bs[i].Ptr()} :: 0 <= i < |bs| ==> h + need <= bs[i].hdr || bs[i].End() <= h
  }

  /** A free run lies below some block and, unless that is the first one, above the block before it. */
  lemma RunBelow(bs: seq<Block>, base: int, brk: int, need: int, h: int) returns (i: int)
    requires Ordered(bs, base, brk) && need > 0 && FreeRun(bs, base, need, h)
    ensures 0 <= i < |bs| && h + need <= bs[i].hdr && (i > 0 ==> bs[i - 1].End() <= h)
  {
    i := 0;
    while bs[i].hdr <= h
      invariant 0 <= i < |bs|
      invariant i > 0 ==> bs[i - 1].hdr <= h
      decreases |bs| - i
    {
      i := i + 1;
    }
    assert bs[i].Ptr() == bs[i].hdr + HEADER;
    if i > 0 { assert bs[i - 1].Ptr() == bs[i - 1].hdr + HEADER; }
  }

  /** A block goes at or below any free run, unless the run is one the request fills exactly below the first block. */
  lemma PlaceLow(bs: seq<Block>, base: int, brk: int, need: int, h: int)
    requires Ordered(bs, base, brk) && need > 0 && FreeRun(bs, base, need, h) && !(h == base && base + need == bs[0].hdr)
    ensures PlaceAddr(bs, base, brk, PlaceIndex(bs, base, need)) <= h
  {
    var i := RunBelow(bs, base, brk, need, h);
    if i > 0 {
      assert GapFits(bs, i, need);
      var k := PlaceIndex(bs, base, need);
      if 0 < k { Apart(bs, k - 1, i - 1, base, brk); }
    }
  }

  /** The request that fills the room below the first block exactly goes above that block. */
  lemma PlaceHigh(bs: seq<Block>, base: int, brk: int, need: int)
    requires Ordered(bs, base, brk) && bs != [] && need > 0 && base + need == bs[0].hdr
    ensures PlaceAddr(bs, base, brk, PlaceIndex(bs, base, need)) > base
  {
    var k := PlaceIndex(bs, base, need);
    Apart(bs, 0, k - 1, base, brk);
  }

  /**
   * First fit goes at or below every free run that is big enough if and only if the run is not one that the request fills
   * exactly below the first block, because that comparison alone is strict.
   */
  lemma FirstFitLowest(bs: seq<Block>, base: int, brk: int, limit: int, need: int, p: int, bs': seq<Block>, brk': int, h: int)
    requires Ordered(bs, base, brk) && need > 0 && p != 0 && FirstFit(bs, base, brk, limit, need, p, bs', brk')
    requires FreeRun(bs, base, need, h)
    ensures p - HEADER <= h <==> !(h == base && base + need == bs[0].hdr)
  {
    if h == base && base + need == bs[0].hdr {
      PlaceHigh(bs, base, brk, need);
    } else {
      PlaceLow(bs, base, brk, need, h);
    }
  }

  /** Two blocks of 16 bytes above 32 free ones: a request of 32 bytes, header included, goes to the break. */
  lemma ExactFitPassedOver(base: int, d: seq<byte>)
    requires base % 16 == 0 && |d| == 16
    ensures var bs := [Block(base + 32, d), Block(base + 64, d)];
            && Ordered(bs, base, base + 96) && FreeRun(bs, base, 32, base)
            && PlaceAddr(bs, base, base + 96, PlaceIndex(bs, base, 32)) == base + 96
  {
    var bs := [Block(base + 32, d), Block(base + 64, d)];
    SumAligned(base, 32);
    SumAligned(base, 64);
    assert bs[0].Within(base, base + 96) && bs[1].Within(base, base + 96);
    assert !GapFits(bs, 1, 32);
    assert FirstGap(bs, 2, 32) == 2;
  }
}
