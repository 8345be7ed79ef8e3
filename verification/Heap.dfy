/** The libc heap: ee/libc/src/alloc.c on top of ee/libc/src/sbrk.c, without DEBUG_ALLOC. */
module Heap {
  import opened Arithmetic
  import opened Basics
  import opened ByteMemory
  import opened BlockList
  import opened FirstFitSpec
  import opened HeapView

  class Heap {
    const mem: array<byte>            // addresses 0..EndOfHeap()
    var brk: int                      // _heap_ptr of ps2_sbrk
    var base: int                     // __alloc_heap_base
    var head: int                     // __alloc_heap_head
    var tail: int                     // __alloc_heap_tail
    ghost var blocks: seq<Block>      // the list, with the payload bytes
    ghost var words: map<int, word>   // the aligned words of `mem`

    /** The list in memory is `blocks`: ordered, linked both ways, payloads in place. */
    ghost predicate Listed()
      reads this, mem
    {
      && 0 <= base <= brk <= mem.Length && 0 < brk && mem.Length + 31 < WORD_RANGE
      && (base == 0 ==> blocks == [])
      && WordsOf(words, mem[..])
      && Ordered(blocks, base, brk) && Linked(words, blocks) && Shows(mem[..], blocks)
    }

    ghost predicate Valid()
      reads this, mem
    {
      && Listed()
      && (base == 0 ==> brk % 8 == 0)
      && (base != 0 ==> (base % 16 == 0 && brk % 16 == 0) || (blocks == [] && brk + 8 > mem.Length))
      && head == (if blocks == [] then 0 else blocks[0].hdr)
      && tail == (if blocks == [] then 0 else blocks[|blocks| - 1].hdr)
    }

    /** The break starts at `_end`, which must be 0 or 8 modulo 16: see BaseAligned. */
    constructor (end: int, endOfHeap: int)
      requires 0 < end <= endOfHeap && endOfHeap + 31 < WORD_RANGE && end % 8 == 0
      ensures Valid() && fresh(mem) && blocks == [] && brk == end && mem.Length == endOfHeap
    {
      mem := new byte[endOfHeap];
      brk, base, head, tail := end, 0, 0, 0;
      blocks := [];
      new;
      words := AllWords(mem[..]);
    }

    // ---- sbrk.c ----

    method Sbrk(increment: word) returns (r: word)
      requires 0 < brk <= mem.Length < WORD_RANGE
      modifies this`brk
      ensures var mp := Wrap(old(brk) + increment);
              if mp <= mem.Length then r == old(brk) && brk == mp else r == WORD_RANGE - 1 && brk == old(brk)
      ensures old(brk) % 16 == 0 && increment % 16 == 0 ==> brk % 16 == 0
    {
      WrapAligned(brk, increment);
      if increment == 0 {
        return brk;
      }
      var mp := Wrap(brk + increment);
      r := WORD_RANGE - 1;
      if mp <= mem.Length {
        r := brk;
        brk := mp;
      }
    }

    /** Moves the break down to `top` by a negative increment. */
    method GiveBack(top: int)
      requires 0 < top <= brk <= mem.Length < WORD_RANGE
      modifies this`brk
      ensures brk == top && (top % 16 == 0 ==> brk % 16 == 0)
    {
      var size := brk - top;
      var _ := Sbrk(Neg(size));
    }

    // ---- Header words in memory ----

    /** Writes a word that belongs to no payload of `bs`. */
    method Store(a: int, v: word, ghost bs: seq<Block>)
      requires WordsOf(words, mem[..]) && Addressable(mem.Length, a)
      requires Shows(mem[..], bs) && Outside(bs, a, a + 4)
      modifies mem, this`words
      ensures WordsOf(words, mem[..]) && words == old(words)[a := v]
      ensures Shows(mem[..], bs)
    {
      StoreWord(mem, a, v, words);
      words := words[a := v];
      ShowsKept(old(mem[..]), mem[..], bs, a, a + 4);
    }

    method WriteHeader(h: word, size: word, prev: word, next: word, ghost bs: seq<Block>)
      requires WordsOf(words, mem[..]) && Shows(mem[..], bs)
      requires h % 16 == 0 && h + HEADER <= mem.Length < WORD_RANGE && Outside(bs, h, h + HEADER)
      modifies mem, this`words
      ensures WordsOf(words, mem[..]) && words == old(words)[h := h + HEADER][h + 4 := size][h + 8 := prev][h + 12 := next]
      ensures Shows(mem[..], bs)
    {
      FieldsAddressable(h, mem.Length);
      OutsideField(bs, h, 0);
      Store(h, h + HEADER, bs);
      OutsideField(bs, h, 4);
      Store(h + 4, size, bs);
      OutsideField(bs, h, 8);
      Store(h + 8, prev, bs);
      OutsideField(bs, h, 12);
      Store(h + 12, next, bs);
    }

    /** The stores that enter a block into the list between headers `prev` and `next` (0: none). */
    method WriteLinks(h: word, size: word, prev: word, next: word, ghost b: Block, ghost bs: seq<Block>)
      requires WordsOf(words, mem[..]) && Shows(mem[..], bs)
      requires 0 < h == b.hdr && size == b.Size() && b.End() <= mem.Length < WORD_RANGE
      requires Writable(bs, h, mem.Length) && Writable(bs, prev, mem.Length) && Writable(bs, next, mem.Length)
      modifies mem, this`words
      ensures WordsOf(words, mem[..]) && words == InsertWords(old(words), b, prev, next)
      ensures Shows(mem[..], bs)
    {
      WriteHeader(h, size, prev, next, bs);
      if next != 0 {
        FieldsAddressable(next, mem.Length);
        OutsideField(bs, next, 8);
        Store(next + 8, h, bs);
      }
      if prev != 0 {
        FieldsAddressable(prev, mem.Length);
        OutsideField(bs, prev, 12);
        Store(prev + 12, h, bs);
      }
    }

    /** Reads the header of block `i`. */
    method ReadHeader(h: int, ghost i: int) returns (ptr: word, size: word, prev: word, next: word)
      requires Listed() && 0 <= i < |blocks| && h == blocks[i].hdr
      ensures ptr == blocks[i].Ptr() && size == blocks[i].Size()
      ensures prev == PrevOf(blocks, i) && next == NextOf(blocks, i)
      ensures (prev == 0 <==> i == 0) && (next == 0 <==> i == |blocks| - 1)
    {
      NullLinks(blocks, i, base, brk);
      Apart(blocks, i, i, base, brk);
      FieldsAddressable(h, mem.Length);
      assert HeaderOf(words, blocks, i);
      ptr := LoadWord(mem, h, words);
      size := LoadWord(mem, h + 4, words);
      prev := LoadWord(mem, h + 8, words);
      next := LoadWord(mem, h + 12, words);
    }

    /** A store by the client into the payload of its own block `k`. */
    method Poke(p: int, off: int, v: byte, ghost k: int)
      requires Valid() && 0 <= k < |blocks| && p == blocks[k].Ptr() && 0 <= off < blocks[k].Size()
      modifies this`blocks, this`words, mem
      ensures Valid() && blocks == old(blocks)[k := Block(p - HEADER, old(blocks)[k].data[off := v])]
    {
      Apart(blocks, k, k, base, brk);
      assert blocks[k].Shown(mem[..]);
      ghost var w, m := words, mem[..];
      ghost var b := Block(p - HEADER, blocks[k].data[off := v]);
      mem[p + off] := v;
      words := AllWords(mem[..]);
      PokeShape(blocks, k, b, base, brk);
      PokeLinked(m, mem[..], w, words, blocks, k, b, p + off, base, brk);
      PokeShows(m, mem[..], blocks, k, b, p + off, base, brk);
      blocks := blocks[k := b];
    }

    // ---- malloc ----

    /** A new block at `h` enters the list at `k`. */
    method LinkBlock(h: word, size: word, ghost k: int, prev: word, next: word)
      requires Listed() && base > 0 && 0 <= k <= |blocks|
      requires FitsBetween(blocks, k, h, size, base, brk)
      requires prev == if k == 0 then 0 else blocks[k - 1].hdr
      requires next == if k == |blocks| then 0 else blocks[k].hdr
      modifies this`blocks, this`words, mem
      ensures Listed() && |blocks| == |old(blocks)| + 1
      ensures blocks == Insert(old(blocks), k, blocks[k]) && blocks[k].hdr == h && blocks[k].Size() == size
    {
      ghost var b := BlockAt(mem[..], h, size);
      ghost var bs := Insert(blocks, k, b);
      InsertOrdered(blocks, k, b, base, brk, brk);
      InsertShows(mem[..], blocks, k, b);
      NeighboursWritable(bs, k, base, brk, mem.Length);
      InsertWordsWrites(words, blocks, k, b, base, brk);
      ghost var w := words;
      WriteLinks(h, size, prev, next, b, bs);
      InsertLinked(w, words, blocks, k, b, base, brk, brk);
      blocks := bs;
    }
  
    /** `_heap_mem_fit`: the lowest block after which `size` bytes are free below the next one. */
    method HeapMemFit(size: int) returns (r: int, ghost k: int)
      requires Listed() && blocks != [] && head == blocks[0].hdr
      ensures k == FirstGap(blocks, 1, size)
      ensures r == 0 <==> FirstGap(blocks, 1, size) == |blocks|
      ensures FirstGap(blocks, 1, size) < |blocks| ==> r == blocks[FirstGap(blocks, 1, size) - 1].hdr
    {
      r := head;
      k := 0;
      Apart(blocks, 0, 0, base, brk);
      while r != 0
        invariant 0 <= k <= |blocks| && r == if k == |blocks| then 0 else blocks[k].hdr
        invariant k < |blocks| ==> r != 0 && FirstGap(blocks, k + 1, size) == FirstGap(blocks, 1, size)
        invariant k == |blocks| ==> FirstGap(blocks, 1, size) == |blocks|
        decreases |blocks| - k
      {
        var ptr, sz, _, next := ReadHeader(r, k);
        if next != 0 {
          Apart(blocks, k, k + 1, base, brk);
          var prevTop := ptr + sz;
          var nextBot := next - prevTop;
          if nextBot >= size {
            k := k + 1;
            return;
          }
        }
        r := next;
        k := k + 1;
      }
    }

    /** Requests for which no 32-bit sum in the allocator wraps. */
    ghost predicate Requestable(size: int) {
      0 <= size && size + 31 + mem.Length < WORD_RANGE
    }

    /** malloc finds no place for `need` bytes, header included. */
    ghost predicate Full(need: int)
      reads this
    {
      NoRoom(blocks, base, StartBrk(), mem.Length, need)
    }

    /** Where the break stands once malloc has aligned the bottom of the heap. */
    ghost function StartBrk(): int
      reads this
    {
      if base == 0 && brk + brk % 16 <= mem.Length then brk + brk % 16 else brk
    }

    /** The break moves by its own residue if the heap has room for that. */
    method AlignBreak()
      requires base == 0 && 0 < brk <= mem.Length && mem.Length + 31 < WORD_RANGE && brk % 8 == 0
      modifies this`brk
      ensures brk == old(StartBrk()) && (brk % 16 == 0 || brk + 8 > mem.Length)
    {
      BaseAligned(brk);
      var top := Sbrk(0);
      var alignBytes := top % 16;
      var _ := Sbrk(alignBytes);
    }

    /** malloc, lines 134-141: moves the break by its own residue and remembers the heap base. */
    method InitBase()
      requires Valid() && head == 0
      modifies this`brk, this`base
      ensures Valid() && base == if old(base) == 0 then old(StartBrk()) else old(base)
      ensures brk == old(StartBrk()) && base != 0
    {
      EmptyList();
      if base == 0 {
        AlignBreak();
        base := Sbrk(0);
      }
    }

    lemma EmptyList()
      requires Valid()
      ensures head == 0 <==> blocks == []
    {
      if blocks != [] { Apart(blocks, 0, 0, base, brk); }
    }

    /** malloc when no block is left: the heap starts again at the break. */
    method MallocFirst(memSize: int) returns (p: word)
      requires Valid() && blocks == [] && base != 0
      requires 16 <= memSize && memSize % 16 == 0 && memSize + mem.Length < WORD_RANGE
      modifies this, mem
      ensures Valid() && base == old(base)
      ensures FirstFit([], base, old(brk), mem.Length, memSize, p, blocks, brk)
    {
      var at := Sbrk(memSize);
      if at == WORD_RANGE - 1 {
        return 0;
      }
      head, tail := at, at;
      PtrAligned(memSize);
      LinkBlock(at, memSize - HEADER, 0, 0, 0);
      p := at + HEADER;
    }

    /** malloc when the new block fits below the first one. */
    method MallocBottom(memSize: int) returns (p: word)
      requires Valid() && BottomFits(blocks, base, memSize)
      requires 16 <= memSize && memSize % 16 == 0
      modifies this, mem
      ensures Valid() && base == old(base)
      ensures FirstFit(old(blocks), base, old(brk), mem.Length, memSize, p, blocks, brk)
    {
      Apart(blocks, 0, 0, base, brk);
      PtrAligned(memSize);
      LinkBlock(base, memSize - HEADER, 0, 0, head);
      head := base;
      p := base + HEADER;
    }

    /** malloc in the gap that `_heap_mem_fit` found after block `k - 1`. */
    method MallocGap(prevMem: int, ghost k: int, memSize: int) returns (p: word)
      requires Valid() && GapFits(blocks, k, memSize) && prevMem == blocks[k - 1].hdr
      requires 16 <= memSize && memSize % 16 == 0
      modifies this, mem
      ensures Valid() && base == old(base) && brk == old(brk)
      ensures p != 0 && p == old(blocks)[k - 1].End() + HEADER && |blocks| == |old(blocks)| + 1
      ensures blocks == Insert(old(blocks), k, blocks[k]) && blocks[k].Ptr() == p && blocks[k].Size() == memSize - HEADER
    {
      Apart(blocks, k - 1, k, base, brk);
      EndAligned(blocks[k - 1], base, brk);
      var ptr, size, _, next := ReadHeader(prevMem, k - 1);
      var at := ptr + size;
      PtrAligned(memSize);
      LinkBlock(at, memSize - HEADER, k, prevMem, next);
      p := at + HEADER;
    }

    /** malloc at the top: the break moves up. */
    method MallocTop(memSize: int) returns (p: word)
      requires Valid() && blocks != []
      requires 16 <= memSize && memSize % 16 == 0 && memSize + mem.Length < WORD_RANGE
      modifies this, mem
      ensures Valid() && base == old(base)
      ensures p == 0 <==> old(brk) + memSize > mem.Length
      ensures p == 0 ==> blocks == old(blocks) && brk == old(brk)
      ensures p != 0 ==> p == old(brk) + HEADER && brk == old(brk) + memSize && |blocks| == |old(blocks)| + 1
                         && blocks == Insert(old(blocks), |old(blocks)|, blocks[|old(blocks)|])
                         && blocks[|old(blocks)|].Ptr() == p && blocks[|old(blocks)|].Size() == memSize - HEADER
    {
      Apart(blocks, |blocks| - 1, |blocks| - 1, base, brk);
      var at := Sbrk(memSize);
      if at == WORD_RANGE - 1 {
        return 0;
      }
      OrderedUpTo(blocks, base, old(brk), brk);
      PtrAligned(memSize);
      LinkBlock(at, memSize - HEADER, |blocks|, tail, 0);
      tail := at;
      p := at + HEADER;
    }

    /** malloc on a non-empty list: bottom, then first gap, then top. */
    method MallocMore(memSize: int) returns (p: word)
      requires Valid() && blocks != []
      requires 16 <= memSize && memSize % 16 == 0 && memSize + mem.Length < WORD_RANGE
      modifies this, mem
      ensures Valid() && base == old(base)
      ensures FirstFit(old(blocks), base, old(brk), mem.Length, memSize, p, blocks, brk)
    {
      if base + memSize < head {
        p := MallocBottom(memSize);
      } else {
        var prevMem, k := HeapMemFit(memSize);
        if prevMem != 0 {
          p := MallocGap(prevMem, k, memSize);
        } else {
          p := MallocTop(memSize);
        }
      }
    }

    method Malloc(size: word) returns (p: word)
      requires Valid() && Requestable(size)
      modifies this, mem
      ensures Valid() && base == if old(base) == 0 then old(StartBrk()) else old(base)
      ensures FirstFit(old(blocks), base, old(StartBrk()), mem.Length, MemSize(size), p, blocks, brk)
    {
      var memSize := MemSize(size);
      EmptyList();
      if head == 0 {
        InitBase();
        p := MallocFirst(memSize);
      } else {
        p := MallocMore(memSize);
      }
    }
  
    // ---- free ----

    /** Points the neighbours `prev` and `next` (0: none) at each other. */
    method JoinLinks(prev: word, next: word, ghost bs: seq<Block>)
      requires WordsOf(words, mem[..]) && Shows(mem[..], bs)
      requires Writable(bs, prev, mem.Length) && Writable(bs, next, mem.Length)
      modifies mem, this`words
      ensures WordsOf(words, mem[..]) && words == RemoveWords(old(words), prev, next)
      ensures Shows(mem[..], bs)
    {
      if next != 0 {
        FieldsAddressable(next, mem.Length);
        OutsideField(bs, next, 8);
        Store(next + 8, prev, bs);
      }
      if prev != 0 {
        FieldsAddressable(prev, mem.Length);
        OutsideField(bs, prev, 12);
        Store(prev + 12, next, bs);
      }
    }

    method Unlink(ghost k: int, prev: word, next: word)
      requires Listed() && 0 <= k < |blocks| && prev == PrevOf(blocks, k) && next == NextOf(blocks, k)
      modifies this`blocks, this`words, mem
      ensures Listed() && blocks == Remove(old(blocks), k)
    {
      NeighboursWritable(blocks, k, base, brk, mem.Length);
      ghost var w := words;
      RemoveWordsWrites(w, blocks, k, base, brk);
      JoinLinks(prev, next, blocks);
      RemoveOrdered(blocks, k, base, brk);
      RemoveLinked(w, words, blocks, k, base, brk);
      RemoveShows(mem[..], blocks, k);
      blocks := Remove(blocks, k);
    }

    method FreeHead()
      requires Valid() && blocks != []
      modifies this, mem
      ensures Valid() && base == old(base)
      ensures blocks == Remove(old(blocks), 0)
      ensures brk == if |old(blocks)| == 1 then old(brk) - HEADER - old(blocks)[0].Size() else old(brk)
    {
      Apart(blocks, 0, 0, base, brk);
      var ptr, sz, _, next := ReadHeader(head, 0);
      var size := sz + (ptr - head);
      SumAligned(HEADER, sz);
      SumAligned(brk, size);
      Unlink(0, 0, next);
      head := next;
      if head == 0 {
        tail := 0;
        GiveBack(brk - size);
      }
    }

    /** free of the last block gives back everything above its predecessor. */
    method FreeLast(cur: int, ghost k: int)
      requires Valid() && 0 < k == |blocks| - 1 && cur == blocks[k].hdr
      modifies this, mem
      ensures Valid() && base == old(base)
      ensures blocks == Remove(old(blocks), k) && brk == old(blocks)[k - 1].End()
    {
      Apart(blocks, k - 1, k, base, brk);
      EndAligned(blocks[k - 1], base, brk);
      var _, _, prev, _ := ReadHeader(cur, k);
      var prevPtr, prevSize, _, _ := ReadHeader(prev, k - 1);
      var top := prevPtr + prevSize;
      Unlink(k, prev, 0);
      tail := prev;
      GiveBack(top);
      OrderedUpTo(blocks, base, old(brk), brk);
    }

    /** free of a block with neighbours on both sides leaves the break alone. */
    method FreeMiddle(cur: int, ghost k: int)
      requires Valid() && 0 < k < |blocks| - 1 && cur == blocks[k].hdr
      modifies this, mem
      ensures Valid() && base == old(base)
      ensures blocks == Remove(old(blocks), k) && brk == old(brk)
    {
      var _, _, prev, next := ReadHeader(cur, k);
      Unlink(k, prev, next);
    }

    /** Walks the list to the block whose payload is `ptr`; 0 when there is none. */
    method FindBlock(ptr: int) returns (cur: int, ghost k: int)
      requires Listed() && blocks != [] && head == blocks[0].hdr
      ensures k == IndexOf(blocks, ptr, 0)
      ensures cur == 0 <==> IndexOf(blocks, ptr, 0) == |blocks|
      ensures IndexOf(blocks, ptr, 0) < |blocks| ==> cur == blocks[IndexOf(blocks, ptr, 0)].hdr
    {
      cur, k := head, 0;
      Apart(blocks, 0, 0, base, brk);
      while true
        invariant 0 <= k < |blocks| && cur == blocks[k].hdr && cur != 0
        invariant IndexOf(blocks, ptr, k) == IndexOf(blocks, ptr, 0)
        decreases |blocks| - k
      {
        var p, _, _, next := ReadHeader(cur, k);
        if p == ptr {
          return;
        }
        cur, k := next, k + 1;
        if cur == 0 {
          return;
        }
      }
    }

    method Free(ptr: word)
      requires Valid()
      modifies this, mem
      ensures Valid() && base == old(base)
      ensures var k := IndexOf(old(blocks), ptr, 0);
              && blocks == (if k == |old(blocks)| then old(blocks) else Remove(old(blocks), k))
              && brk == (if k == |old(blocks)| || k < |old(blocks)| - 1 then old(brk)
                         else if k == 0 then old(brk) - HEADER - old(blocks)[0].Size()
                         else old(blocks)[k - 1].End())
    {
      EmptyList();
      NullNotLive(blocks, base, brk);
      if ptr == 0 || head == 0 {
        return;
      }
      var headPtr, _, _, _ := ReadHeader(head, 0);
      if ptr == headPtr {
        FreeHead();
        return;
      }
      var cur, k := FindBlock(ptr);
      if cur != 0 {
        var _, _, _, next := ReadHeader(cur, k);
        if next != 0 {
          FreeMiddle(cur, k);
        } else {
          FreeLast(cur, k);
        }
      }
    }
  
    // ---- memalign ----

    /** memalign, lines 354-380: moves the header of block `k` up to `p - HEADER` and shortens the block. */
    method MoveUp(cur: int, ghost k: int, p: word, size: word)
      requires Valid() && 0 <= k < |blocks| && cur == blocks[k].hdr
      requires blocks[k].Ptr() <= p - HEADER && p + size <= blocks[k].End() && (p - HEADER) % 16 == 0 && size % 16 == 0
      modifies this, mem
      ensures Valid() && base == old(base) && brk == old(brk) && |blocks| == |old(blocks)|
      ensures blocks == old(blocks)[k := blocks[k]] && p == blocks[k].Ptr() && blocks[k].Size() == size
    {
      EndsAt(blocks, k, base, brk);
      MoveListed(cur, k, p, size);
      if head == cur {
        head := p - HEADER;
      }
      if tail == cur {
        tail := p - HEADER;
      }
    }

    method MoveListed(cur: int, ghost k: int, p: word, size: word)
      requires Listed() && 0 <= k < |blocks| && cur == blocks[k].hdr
      requires blocks[k].Ptr() <= p - HEADER && p + size <= blocks[k].End() && (p - HEADER) % 16 == 0 && size % 16 == 0
      modifies this`blocks, this`words, mem
      ensures Listed() && |blocks| == |old(blocks)|
      ensures blocks == old(blocks)[k := blocks[k]] && p == blocks[k].Ptr() && blocks[k].Size() == size
    {
      var _, _, prev, next := ReadHeader(cur, k);
      Apart(blocks, k, k, base, brk);
      ghost var b := BlockAt(mem[..], p - HEADER, size);
      MoveOrdered(blocks, k, b, base, brk);
      MoveHeader(cur, p - HEADER, size, prev, next, k, b, blocks[k := b]);
    }

    /** The stores of memalign: the shortened size in the old header, then the header at its new place. */
    method MoveStores(cur: int, h: word, size: word, prev: word, next: word, ghost b: Block, ghost bs: seq<Block>)
      requires WordsOf(words, mem[..]) && Shows(mem[..], bs)
      requires 0 < h == b.hdr && size == b.Size() && b.End() <= mem.Length < WORD_RANGE
      requires 0 < cur && Writable(bs, cur, mem.Length)
      requires Writable(bs, h, mem.Length) && Writable(bs, prev, mem.Length) && Writable(bs, next, mem.Length)
      modifies mem, this`words
      ensures WordsOf(words, mem[..]) && words == InsertWords(old(words)[cur + 4 := size], b, prev, next)
      ensures Shows(mem[..], bs)
    {
      FieldsAddressable(cur, mem.Length);
      OutsideField(bs, cur, 4);
      Store(cur + 4, size, bs);
      WriteLinks(h, size, prev, next, b, bs);
    }

    method MoveHeader(cur: int, h: word, size: word, prev: word, next: word, ghost k: int, ghost b: Block, ghost bs: seq<Block>)
      requires Listed() && 0 <= k < |blocks| && cur == blocks[k].hdr && prev == PrevOf(blocks, k) && next == NextOf(blocks, k)
      requires b.hdr == h && b.Size() == size && b.Shown(mem[..]) && bs == blocks[k := b]
      requires b.Within(blocks[k].Ptr(), blocks[k].End())
      requires FitsAt(Remove(blocks, k), k, b, base, brk) && Ordered(bs, base, brk)
      requires Outside(bs, cur, cur + HEADER)
      modifies this`blocks, this`words, mem
      ensures Listed() && blocks == bs
    {
      Apart(blocks, k, k, base, brk);
      ReplaceShows(mem[..], blocks, k, b);
      NeighboursWritable(bs, k, base, brk, mem.Length);
      ghost var w := words;
      MoveStores(cur, h, size, prev, next, b, bs);
      MoveLinked(w, words, blocks, k, b, prev, next, base, brk);
      blocks := bs;
    }
  
    /** The list and its order once malloc has run, as FirstFitView needs them. */
    lemma MallocOrdered(bs: seq<Block>, base0: int, brk0: int, brk1: int)
      requires Valid() && Ordered(bs, base0, brk0) && brk1 <= brk
      requires (base0 == 0 ==> bs == []) && (base0 != 0 ==> base0 == base && brk0 == brk1)
      ensures Ordered(bs, base, brk)
    {
      if bs != [] {
        Apart(bs, |bs| - 1, |bs| - 1, base0, brk0);
        OrderedUpTo(bs, base, brk0, brk);
      }
    }

    /** malloc, with its result placed in the client's view. */
    method MallocView(size: word) returns (p: word, ghost k: int)
      requires Valid() && Requestable(size)
      modifies this, mem
      ensures Valid()
      ensures p == 0 <==> old(Full(MemSize(size)))
      ensures p == 0 ==> View(blocks) == old(View(blocks))
      ensures p != 0 ==> Allocated(old(View(blocks)), View(blocks), p, size)
      ensures p != 0 ==> 0 <= k < |blocks| && blocks[k].Ptr() == p && blocks[k].Size() == MemSize(size) - HEADER
    {
      p := Malloc(size);
      k := PlaceIndex(old(blocks), base, MemSize(size));
      MallocOrdered(old(blocks), old(base), old(brk), old(StartBrk()));
      FirstFitView(old(blocks), base, old(StartBrk()), mem.Length, size, p, blocks, brk);
      FirstFitFails(old(blocks), base, old(StartBrk()), mem.Length, MemSize(size), p, blocks, brk);
    }

    /** memalign's second half in the client's view: the fresh block at `ptr` becomes one at `p`. */
    method AlignBlock(ptr: word, ghost k: int, p: word, align: int) returns (r: word)
      requires Valid() && 0 <= k < |blocks| && ptr == blocks[k].Ptr() && 0 <= align <= blocks[k].Size()
      requires ptr <= p - HEADER && p + blocks[k].Size() - align <= blocks[k].End()
      requires (p - HEADER) % 16 == 0 && (blocks[k].Size() - align) % 16 == 0
      modifies this, mem
      ensures Valid() && r == p && p % 16 == 0
      ensures p !in old(View(blocks)) && p in View(blocks)
      ensures View(blocks) == (old(View(blocks)) - {ptr})[p := View(blocks)[p]]
      ensures |View(blocks)[p]| == old(blocks)[k].Size() - align
    {
      var _, size, _, _ := ReadHeader(ptr - HEADER, k);
      MoveUp(ptr - HEADER, k, p, size - align);
      ViewReplace(old(blocks), k, blocks[k], base, brk, brk);
      PtrAligned(p);
      r := p;
    }

    /** The block at `ptr`, fresh since `v` and `align` bytes too long, becomes an aligned one. */
    method AlignFresh(ptr: word, ghost k: int, align: int, size: word, ghost v: map<int, seq<byte>>) returns (p: word)
      requires Valid() && 0 <= k < |blocks| && blocks[k].Ptr() == ptr && blocks[k].Size() == MemSize(size + align) - HEADER
      requires align > 16 && PowerOfTwo(align) && ptr % align != 0 && Allocated(v, View(blocks), ptr, size + align)
      modifies this, mem
      ensures Valid() && p != 0 && p % align == 0 && Allocated(v, View(blocks), p, size)
    {
      LargePowerIs16Multiple(align);
      Apart(blocks, k, k, base, brk);
      AlignedPart(blocks[k], align, base, brk);
      p := AlignBlock(ptr, k, RoundUp(ptr, align), align);
      MovedAllocated(v, old(View(blocks)), View(blocks), ptr, p, size + align, size);
    }

    method Memalign(align: int, size: word) returns (p: word)
      requires Valid() && Requestable(size + align) && (align <= 16 || PowerOfTwo(align)) && 0 <= align
      modifies this, mem
      ensures Valid()
      ensures p == 0 <==> old(Full(MovedSize(size, align)))
      ensures p == 0 ==> View(blocks) == old(View(blocks))
      ensures p != 0 ==> Allocated(old(View(blocks)), View(blocks), p, size) && (align > 16 ==> p % align == 0)
    {
      ghost var k;
      if align <= 16 {
        p, k := MallocView(size);
        return;
      }
      p, k := MallocView(size + align);
      if p == 0 || p % align == 0 {
        return;
      }
      p := AlignFresh(p, k, align, size, old(View(blocks)));
    }
  
    // ---- realloc ----

    /** Stores a new size in the header of block `k`; `hi` bounded the blocks before the break moved. */
    method SetSize(h: int, size: word, ghost k: int, ghost hi: int)
      requires 0 < base <= brk <= mem.Length && hi <= mem.Length && mem.Length + 31 < WORD_RANGE
      requires WordsOf(words, mem[..]) && Ordered(blocks, base, hi) && Linked(words, blocks) && Shows(mem[..], blocks)
      requires 0 <= k < |blocks| && h == blocks[k].hdr && size % 16 == 0
      requires if k == |blocks| - 1 then h + HEADER + size <= brk else h + HEADER + size <= blocks[k + 1].hdr && brk == hi
      modifies this`blocks, this`words, mem
      ensures Listed() && Resized(old(blocks), blocks, k, size)
    {
      Apart(blocks, k, k, base, hi);
      if k < |blocks| - 1 { Apart(blocks, k, k + 1, base, hi); }
      assert blocks[k].Shown(mem[..]);
      ghost var b := BlockAt(mem[..], h, size);
      PrefixKept(mem[..], blocks[k], b);
      ResizeOrdered(blocks, k, b, base, hi, brk);
      StoreSize(h, size, k, b, hi);
    }

    method StoreSize(h: int, size: word, ghost k: int, ghost b: Block, ghost hi: int)
      requires 0 < base <= brk <= mem.Length && hi <= mem.Length && mem.Length + 31 < WORD_RANGE
      requires WordsOf(words, mem[..]) && Ordered(blocks, base, hi) && Linked(words, blocks) && Shows(mem[..], blocks)
      requires 0 <= k < |blocks| && h == blocks[k].hdr == b.hdr && size == b.Size() && b.Shown(mem[..])
      requires FitsAt(Remove(blocks, k), k, b, base, brk) && Ordered(blocks[k := b], base, brk)
      modifies this`blocks, this`words, mem
      ensures Listed() && blocks == old(blocks)[k := b]
    {
      ghost var bs, w := blocks[k := b], words;
      ReplaceShows(mem[..], blocks, k, b);
      HeaderOutside(bs, k, base, brk);
      FieldsAddressable(h, mem.Length);
      OutsideField(bs, h, 4);
      Store(h + 4, size, bs);
      ResizeLinked(w, words, blocks, k, b, base, hi, brk);
      blocks := bs;
    }
  
    /** Stores the size of a block that stays below its successor. */
    method ResizeInner(ptr: word, size: word, ghost k: int)
      requires Valid() && 0 <= k < |blocks| - 1 && ptr == blocks[k].Ptr() && size % 16 == 0
      requires ptr + size <= blocks[k + 1].hdr
      modifies this, mem
      ensures Valid() && base == old(base) && brk == old(brk) && Resized(old(blocks), blocks, k, size)
    {
      SetSize(ptr - HEADER, size, k, brk);
    }

    /** do_realloc, lines 261-263: the last block gets shorter and the break comes down to its end. */
    method ShrinkLast(ptr: word, size: word, ghost k: int)
      requires Valid() && 0 <= k == |blocks| - 1 && ptr == blocks[k].Ptr() && size <= blocks[k].Size() && size % 16 == 0
      modifies this, mem
      ensures Valid() && base == old(base) && brk == ptr + size && Resized(old(blocks), blocks, k, size)
    {
      Apart(blocks, k, k, base, brk);
      TopAligned(blocks[k], base, brk, ptr, size);
      GiveBack(ptr + size);
      SetSize(ptr - HEADER, size, k, old(brk));
    }

    /** do_realloc, lines 272-281: the last block grows by moving the break. */
    method GrowTop(ptr: word, size: word, ghost k: int) returns (r: word)
      requires Valid() && 0 <= k == |blocks| - 1 && ptr == blocks[k].Ptr() && blocks[k].Size() < size && size % 16 == 0
      requires size + mem.Length < WORD_RANGE
      modifies this, mem
      ensures Valid()
      ensures r == 0 <==> old(brk) + size - old(blocks)[k].Size() > mem.Length
      ensures r == 0 ==> blocks == old(blocks) && brk == old(brk)
      ensures base == old(base) && (r != 0 ==> r == ptr && Resized(old(blocks), blocks, k, size))
      ensures r != 0 ==> brk == old(brk) + size - old(blocks)[k].Size()
    {
      Apart(blocks, k, k, base, brk);
      var _, sz, _, _ := ReadHeader(ptr - HEADER, k);
      SumAligned(size, sz);
      var top := Sbrk(size - sz);
      if top == WORD_RANGE - 1 {
        return 0;
      }
      SetSize(ptr - HEADER, size, k, old(brk));
      r := ptr;
    }

    /** The last block cannot grow, or the block must move and there is no room for its copy. */
    ghost predicate ReallocFails(k: int, size: int, align: int)
      requires 0 <= k < |blocks|
      reads this
    {
      && blocks[k].Size() < size
      && if k == |blocks| - 1 then brk + size - blocks[k].Size() > mem.Length
         else blocks[k + 1].hdr < blocks[k].Ptr() + size && Full(MovedSize(size, align))
    }

    /** do_realloc, lines 257-289: every way to keep the block where it is; 0 when the heap cannot grow. */
    method ResizeInPlace(ptr: word, size: word, ghost k: int) returns (done: bool, r: word)
      requires Valid() && 0 <= k < |blocks| && ptr == blocks[k].Ptr() && size % 16 == 0
      requires size + mem.Length < WORD_RANGE
      modifies this, mem
      ensures Valid() && (done <==> StaysPut(old(blocks), k, size))
      ensures done && r == 0 <==>
              k == |old(blocks)| - 1 && old(blocks)[k].Size() < size && old(brk) + size - old(blocks)[k].Size() > mem.Length
      ensures !done || r == 0 ==> blocks == old(blocks) && brk == old(brk)
      ensures base == old(base) && (done && r != 0 ==> r == ptr && Resized(old(blocks), blocks, k, size))
      ensures done && r != 0 ==> brk == BrkAfter(old(blocks), k, size, old(brk))
    {
      done, r := true, ptr;
      Apart(blocks, k, k, base, brk);
      var _, sz, _, next := ReadHeader(ptr - HEADER, k);
      if sz >= size {
        if next == 0 {
          ShrinkLast(ptr, size, k);
        } else {
          Apart(blocks, k, k + 1, base, brk);
          ResizeInner(ptr, size, k);
        }
        return;
      }
      if next == 0 {
        r := GrowTop(ptr, size, k);
        return;
      }
      var nextPtr, _, _, _ := ReadHeader(next, k + 1);
      GapCompare(blocks, k, size, base, brk);
      if nextPtr - ptr > size {
        ResizeInner(ptr, size, k);
        return;
      }
      done := false;
    }
  
    /** memcpy between the payloads of two live blocks. */
    method Memcpy(dst: word, src: word, n: int, ghost k: int, ghost j: int)
      requires Valid() && 0 <= k < |blocks| && 0 <= j < |blocks| && k != j
      requires dst == blocks[k].Ptr() && src == blocks[j].Ptr() && 0 <= n <= blocks[k].Size() && n <= blocks[j].Size()
      modifies this`blocks, this`words, mem
      ensures Valid()
      ensures blocks == old(blocks)[k := Block(dst - HEADER, old(blocks)[j].data[..n] + old(blocks)[k].data[n..])]
    {
      ghost var from, to := blocks[j].data, blocks[k].data;
      CopiedNone(from, to);
      for i := 0 to n
        invariant Valid() && blocks == old(blocks)[k := Block(dst - HEADER, from[..i] + to[i..])]
      {
        assert blocks[j].Shown(mem[..]);
        Poke(dst, i, mem[src + i], k);
        CopiedStep(from, to, i);
      }
    }

    method Memset0(p: word, n: int, ghost k: int)
      requires Valid() && 0 <= k < |blocks| && p == blocks[k].Ptr() && 0 <= n <= blocks[k].Size()
      modifies this`blocks, this`words, mem
      ensures Valid()
      ensures blocks == old(blocks)[k := Block(p - HEADER, Zeroed(old(blocks)[k].data, n))]
    {
      ghost var was := blocks[k].data;
      ZeroedNone(was);
      for i := 0 to n
        invariant Valid() && blocks == old(blocks)[k := Block(p - HEADER, Zeroed(was, i))]
      {
        Poke(p, i, 0, k);
        ZeroedStep(was, i);
      }
    }

    /** The memset of calloc. */
    method ZeroBlock(p: word, n: int)
      requires Valid() && p in View(blocks) && 0 <= n <= |View(blocks)[p]|
      modifies this`blocks, this`words, mem
      ensures Valid()
      ensures View(blocks) == old(View(blocks))[p := Zeroed(old(View(blocks))[p], n)]
    {
      ghost var k := LiveIndex(p);
      Memset0(p, n, k);
      PokedView(old(blocks), k, Block(p - HEADER, Zeroed(old(blocks)[k].data, n)), base, brk);
    }

    /** calloc: the product is a 32-bit one, so the block covers `n * size` bytes exactly when it does not wrap. */
    method Calloc(n: word, size: word) returns (p: word)
      requires Valid() && Requestable(n * size % WORD_RANGE)
      modifies this, mem
      ensures Valid()
      ensures p == 0 <==> old(Full(MemSize(n * size % WORD_RANGE)))
      ensures p == 0 ==> View(blocks) == old(View(blocks))
      ensures p != 0 ==> Allocated(old(View(blocks)), View(blocks), p, n * size % WORD_RANGE)
      ensures p != 0 ==> forall i :: 0 <= i < n * size % WORD_RANGE ==> View(blocks)[p][i] == 0
    {
      var sz := n * size % WORD_RANGE;
      ghost var k;
      p, k := MallocView(sz);
      if p == 0 {
        return;
      }
      ghost var v1 := View(blocks);
      ZeroBlock(p, sz);
      ZeroedView(old(View(blocks)), v1, View(blocks), p, sz);
    }

    /** free in the client's view: the pointer disappears; a pointer that is not live changes nothing. */
    method FreeView(ptr: word)
      requires Valid()
      modifies this, mem
      ensures Valid() && View(blocks) == old(View(blocks)) - {ptr}
    {
      ghost var k := IndexOf(blocks, ptr, 0);
      ViewHas(blocks, ptr);
      if k < |blocks| { ViewRemove(blocks, k, base, brk); }
      Free(ptr);
    }

    /** The memcpy of do_realloc: the block at `ptr` is copied over the start of the block at `r`. */
    method CopyBlock(r: word, ptr: word)
      requires Valid() && ptr in View(blocks) && r in View(blocks) && r != ptr
      requires |View(blocks)[ptr]| <= |View(blocks)[r]|
      modifies this`blocks, this`words, mem
      ensures Valid()
      ensures var v := old(View(blocks)); View(blocks) == v[r := v[ptr] + v[r][|v[ptr]|..]]
    {
      ghost var j := LiveIndex(ptr);
      ghost var i := LiveIndex(r);
      var _, n, _, _ := ReadHeader(ptr - HEADER, j);
      assert blocks[j].data[..n] == blocks[j].data;
      ghost var b := Block(r - HEADER, blocks[j].data[..n] + blocks[i].data[n..]);
      Memcpy(r, ptr, n, i, j);
      assert blocks == old(blocks)[i := b];
      PokedView(old(blocks), i, b, base, brk);
    }

    /** do_realloc, lines 293-301: a new block, a copy of the old bytes, then free. */
    method MoveBlock(ptr: word, size: word, align: int) returns (r: word)
      requires Valid() && ptr in View(blocks) && |View(blocks)[ptr]| < size
      requires Requestable(size + align) && (align == 16 || align == 64)
      modifies this, mem
      ensures Valid()
      ensures r == 0 <==> old(Full(MovedSize(size, align)))
      ensures r == 0 ==> View(blocks) == old(View(blocks))
      ensures r != 0 ==> Reallocated(old(View(blocks)), View(blocks), ptr, r, size) && r % align == 0 && r != ptr
    {
      assert PowerOfTwo(64);
      r := Memalign(align, size);
      if r == 0 {
        return;
      }
      ghost var v1 := View(blocks);
      CopyBlock(r, ptr);
      FreeView(ptr);
      MoveView(old(View(blocks)), v1, View(blocks), ptr, r, size);
    }

    /** The list position of a live pointer. */
    lemma LiveIndex(p: int) returns (k: int)
      requires Valid() && p in View(blocks)
      ensures 0 <= k < |blocks| && blocks[k].Ptr() == p && blocks[k].data == View(blocks)[p]
    {
      ViewHas(blocks, p);
      k := IndexOf(blocks, p, 0);
    }

    /** do_realloc of the live block `k` to `size` bytes, already rounded: in place, or moved. */
    method ReallocLive(ptr: word, size: word, align: int, ghost k: int) returns (r: word)
      requires Valid() && (align == 16 || align == 64) && Requestable(size + align) && size % 16 == 0
      requires 0 <= k < |blocks| && ptr == blocks[k].Ptr()
      modifies this, mem
      ensures Valid()
      ensures r == 0 <==> old(ReallocFails(k, size, align))
      ensures r == 0 ==> View(blocks) == old(View(blocks))
      ensures r != 0 ==> Reallocated(old(View(blocks)), View(blocks), ptr, r, size)
      ensures r != 0 ==> (r == ptr <==> StaysPut(old(blocks), k, size)) && (r != ptr ==> r % align == 0)
      ensures r != 0 && r == ptr ==> |View(blocks)[ptr]| == size && brk == BrkAfter(old(blocks), k, size, old(brk))
    {
      ViewAt(blocks, k, base, brk);
      var done;
      done, r := ResizeInPlace(ptr, size, k);
      if done {
        if r != 0 { ResizeView(old(blocks), k, blocks[k], base, old(brk), brk); }
        return;
      }
      r := MoveBlock(ptr, size, align);
    }

    /** realloc (`align` 16) and realloc64 (`align` 64). */
    method DoRealloc(ptr: word, size: word, align: int) returns (r: word, ghost k: int)
      requires Valid() && (align == 16 || align == 64) && Requestable(size + 2 * align)
      requires ptr == 0 || ptr in View(blocks)
      modifies this, mem
      ensures Valid()
      ensures size == 0 && ptr != 0 ==> r == 0 && View(blocks) == old(View(blocks)) - {ptr}
      ensures ptr == 0 && r != 0 ==> Allocated(old(View(blocks)), View(blocks), r, size) && r % align == 0
      ensures ptr != 0 && size != 0 && r != 0 ==> Reallocated(old(View(blocks)), View(blocks), ptr, r, size)
      ensures r == 0 && (ptr == 0 || size != 0) ==> View(blocks) == old(View(blocks))
      ensures ptr != 0 && r != 0 && r != ptr ==> r % align == 0
      ensures ptr == 0 ==> (r == 0 <==> old(Full(MovedSize(size, align))))
      ensures ptr != 0 && size != 0 ==>
        && 0 <= k < |old(blocks)| && old(blocks)[k].Ptr() == ptr
        && (r == 0 <==> old(ReallocFails(k, RequestSize(size, align), align)))
        && (r != 0 ==> (r == ptr <==> StaysPut(old(blocks), k, RequestSize(size, align))))
        && (r != 0 && r == ptr ==>
              && |View(blocks)[ptr]| == RequestSize(size, align)
              && brk == BrkAfter(old(blocks), k, RequestSize(size, align), old(brk)))
    {
      if size == 0 && ptr != 0 {
        FreeView(ptr);
        return 0, 0;
      }
      assert PowerOfTwo(64);
      if ptr == 0 {
        k := 0;
        r := Memalign(align, size);
        return;
      }
      var size' := RequestSize(size, align);
      k := LiveIndex(ptr);
      r := ReallocLive(ptr, size', align, k);
    }
  }
}
