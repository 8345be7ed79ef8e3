/** Whole runs of heap calls, and of client stores between them, seen through the client's view. */
module HeapRun {
  import opened Arithmetic
  import opened Basics
  import opened BlockList
  import opened FirstFitSpec
  import opened HeapView
  import opened H = Heap

  datatype Op =
    | Malloc(size: word)
    | Calloc(n: word, size: word)
    | Memalign(align: int, size: word)
    | Realloc(ptr: word, size: word, align: int)
    | Free(ptr: word)
    | Write(ptr: word, off: int, v: byte)

  type Snapshot = map<int, seq<byte>>

  /** What a caller must respect: live pointers for realloc and stores, a power-of-two alignment. */
  ghost predicate Legal(v: Snapshot, op: Op) {
    match op
    case Malloc(_) => true
    case Calloc(_, _) => true
    case Memalign(align, _) => 0 <= align && (align <= 16 || PowerOfTwo(align))
    case Realloc(ptr, _, align) => (align == 16 || align == 64) && (ptr == 0 || ptr in v)
    case Free(_) => true
    case Write(ptr, off, _) => ptr in v && 0 <= off < |v[ptr]|
  }

  /** The bytes an operation may ask for. */
  ghost function Demand(op: Op): int {
    match op
    case Malloc(size) => size
    case Calloc(n, size) => n * size % WORD_RANGE
    case Memalign(align, size) => size + align
    case Realloc(_, size, align) => size + 2 * align
    case Free(_) => 0
    case Write(_, _, _) => 0
  }

  ghost function Stored(d: seq<byte>, off: int, v: byte): seq<byte>
    requires 0 <= off < |d|
  {
    d[off := v]
  }

  /** The effect of one operation with result `r` on the view. */
  ghost predicate Step(v: Snapshot, op: Op, r: word, v': Snapshot) {
    match op
    case Malloc(size) => if r == 0 then v' == v else Allocated(v, v', r, size)
    case Calloc(n, size) =>
      if r == 0 then v' == v
      else Allocated(v, v', r, n * size % WORD_RANGE) && forall i :: 0 <= i < n * size % WORD_RANGE ==> v'[r][i] == 0
    case Memalign(align, size) =>
      if r == 0 then v' == v else Allocated(v, v', r, size) && (align > 16 ==> r % align == 0)
    case Realloc(ptr, size, align) =>
      if size == 0 && ptr != 0 then r == 0 && v' == v - {ptr}
      else if r == 0 then v' == v
      else if ptr == 0 then Allocated(v, v', r, size)
      else Reallocated(v, v', ptr, r, size)
    case Free(ptr) => v' == v - {ptr}
    case Write(ptr, off, x) => ptr in v && 0 <= off < |v[ptr]| && v' == v[ptr := Stored(v[ptr], off, x)]
  }

  /** The call returns NULL: there is no room, or it is one that always does. */
  ghost predicate ReturnsNull(h: Heap, op: Op)
    reads h
  {
    match op
    case Malloc(size) => h.Full(MemSize(size))
    case Calloc(n, size) => h.Full(MemSize(n * size % WORD_RANGE))
    case Memalign(align, size) => h.Full(MovedSize(size, align))
    case Realloc(ptr, size, align) => if ptr == 0 then h.Full(MovedSize(size, align)) else size == 0 || CannotResize(h, ptr, size, align)
    case Free(_) => true
    case Write(_, _, _) => true
  }

  ghost predicate CannotResize(h: Heap, ptr: word, size: word, align: int)
    reads h
  {
    var k := IndexOf(h.blocks, ptr, 0);
    k < |h.blocks| && (align == 16 || align == 64) && h.ReallocFails(k, RequestSize(size, align), align)
  }

  method DoRealloc(h: Heap, ptr: word, size: word, align: int) returns (r: word)
    requires h.Valid() && h.Requestable(size + 2 * align) && Legal(View(h.blocks), Realloc(ptr, size, align))
    modifies h, h.mem
    ensures h.Valid() && Step(old(View(h.blocks)), Realloc(ptr, size, align), r, View(h.blocks))
    ensures r == 0 <==> old(ReturnsNull(h, Realloc(ptr, size, align)))
  {
    ghost var k;
    r, k := h.DoRealloc(ptr, size, align);
    if ptr != 0 && size != 0 { ViewAt(old(h.blocks), k, old(h.base), old(h.brk)); }
  }

  /** Every call on a valid heap leaves it valid and acts on the view as Step says. */
  method Do(h: Heap, op: Op) returns (r: word)
    requires h.Valid() && h.Requestable(Demand(op)) && Legal(View(h.blocks), op)
    modifies h, h.mem
    ensures h.Valid() && Step(old(View(h.blocks)), op, r, View(h.blocks))
    ensures r == 0 <==> old(ReturnsNull(h, op))
  {
    r := 0;
    match op
    case Malloc(size) =>
      ghost var k;
      r, k := h.MallocView(size);
    case Calloc(n, size) => r := h.Calloc(n, size);
    case Memalign(align, size) => r := h.Memalign(align, size);
    case Realloc(ptr, size, align) => r := DoRealloc(h, ptr, size, align);
    case Free(ptr) => h.FreeView(ptr);
    case Write(ptr, off, v) =>
      ghost var k := h.LiveIndex(ptr);
      h.Poke(ptr, off, v, k);
      PokedView(old(h.blocks), k, Block(ptr - HEADER, old(h.blocks)[k].data[off := v]), h.base, h.brk);
  }

  // ---- Runs ----

  datatype Result = Refused | Returned(value: word)

  /** One element of a run: an operation the caller must not make is refused and changes nothing. */
  ghost predicate Turn(v: Snapshot, op: Op, r: Result, v': Snapshot) {
    if r.Refused? then !Legal(v, op) && v' == v else Legal(v, op) && Step(v, op, r.value, v')
  }

  /** `views` are the successive views of a run of `ops` that had `results`. */
  ghost predicate IsRun(views: seq<Snapshot>, ops: seq<Op>, results: seq<Result>) {
    && |views| == |ops| + 1 && |results| == |ops|
    && forall i :: 0 <= i < |ops| ==> Turn(views[i], ops[i], results[i], views[i + 1])
  }

  /** Whether a pointer is live, and how many bytes it has, found by walking the list in memory. */
  method Measure(h: Heap, ptr: word) returns (live: bool, size: word)
    requires h.Valid()
    ensures live <==> ptr in View(h.blocks)
    ensures live ==> size == |View(h.blocks)[ptr]|
  {
    h.EmptyList();
    ViewHas(h.blocks, ptr);
    if h.head == 0 { return false, 0; }
    var cur, k := h.FindBlock(ptr);
    live := cur != 0;
    size := 0;
    if live {
      var _, n, _, _ := h.ReadHeader(cur, k);
      size := n;
    }
  }

  method IsLegal(h: Heap, op: Op) returns (legal: bool)
    requires h.Valid()
    ensures legal <==> Legal(View(h.blocks), op)
  {
    match op {
      case Malloc(_) => legal := true;
      case Calloc(_, _) => legal := true;
      case Memalign(align, _) => legal := 0 <= align && (align <= 16 || PowerOfTwo(align));
      case Realloc(ptr, _, align) =>
        var live, _ := Measure(h, ptr);
        legal := (align == 16 || align == 64) && (ptr == 0 || live);
      case Free(_) => legal := true;
      case Write(ptr, off, _) =>
        var live, size := Measure(h, ptr);
        legal := live && 0 <= off < size;
    }
  }

  /** Any sequence of calls and stores on a valid heap is a run and ends on a valid heap. */
  method Play(h: Heap, ops: seq<Op>) returns (results: seq<Result>, ghost views: seq<Snapshot>)
    requires h.Valid() && forall i :: 0 <= i < |ops| ==> h.Requestable(Demand(ops[i]))
    modifies h, h.mem
    ensures h.Valid() && IsRun(views, ops, results)
    ensures views[0] == old(View(h.blocks)) && views[|ops|] == View(h.blocks)
  {
    results, views := [], [View(h.blocks)];
    for n := 0 to |ops|
      invariant h.Valid() && IsRun(views, ops[..n], results)
      invariant views[0] == old(View(h.blocks)) && views[n] == View(h.blocks)
    {
      var legal := IsLegal(h, ops[n]);
      var r := Refused;
      if legal {
        var value := Do(h, ops[n]);
        r := Returned(value);
      }
      RunGrows(views, ops, n, results, r, View(h.blocks));
      results, views := results + [r], views + [View(h.blocks)];
    }
    assert ops[..|ops|] == ops;
  }

  lemma RunGrows(views: seq<Snapshot>, ops: seq<Op>, n: nat, results: seq<Result>, r: Result, v: Snapshot)
    requires n < |ops| && IsRun(views, ops[..n], results) && Turn(views[n], ops[n], r, v)
    ensures IsRun(views + [v], ops[..n + 1], results + [r])
  {
    forall i | 0 <= i < n + 1 ensures Turn((views + [v])[i], ops[..n + 1][i], (results + [r])[i], (views + [v])[i + 1]) {
      if i < n { assert Turn(views[i], ops[..n][i], results[i], views[i + 1]); }
    }
  }

  /** `op` frees or reallocates `p`. */
  predicate Consumes(op: Op, p: int) {
    match op
    case Realloc(ptr, _, _) => ptr == p
    case Free(ptr) => ptr == p
    case _ => false
  }

  /** The bytes `d` of block `p` after the client's own stores into it. */
  ghost function Written(d: seq<byte>, ops: seq<Op>, p: int): (r: seq<byte>)
    ensures |r| == |d|
  {
    if ops == [] then d
    else
      var before := Written(d, ops[..|ops| - 1], p);
      match ops[|ops| - 1]
      case Write(ptr, off, v) => if ptr == p && 0 <= off < |before| then Stored(before, off, v) else before
      case _ => before
  }

  /**
   * Over every run of calls, whatever they allocate, move or free, a block that is itself neither freed nor
   * reallocated stays live and holds exactly what its owner wrote into it.
   */
  lemma {:induction false} RunKeepsBlock(views: seq<Snapshot>, ops: seq<Op>, results: seq<Result>, p: int)
    requires IsRun(views, ops, results) && p in views[0] && p != 0
    requires forall i :: 0 <= i < |ops| ==> !Consumes(ops[i], p)
    ensures p in views[|ops|] && views[|ops|][p] == Written(views[0][p], ops, p)
  {
    if ops != [] {
      var n := |ops| - 1;
      RunKeepsBlock(views[..n + 1], ops[..n], results[..n], p);
      assert Turn(views[n], ops[n], results[n], views[n + 1]) && !Consumes(ops[n], p);
    }
  }

  /** Live blocks occupy disjoint extents, header included, between the heap base and the break. */
  lemma ExtentsDisjoint(h: Heap, p: int, q: int)
    requires h.Valid() && p in View(h.blocks) && q in View(h.blocks) && p < q
    ensures h.base <= p - HEADER && p + |View(h.blocks)[p]| <= q - HEADER && q + |View(h.blocks)[q]| <= h.brk
    ensures h.mem[p..p + |View(h.blocks)[p]|] == View(h.blocks)[p]
  {
    var i := h.LiveIndex(p);
    var j := h.LiveIndex(q);
    Disjoint(h.blocks, i, j, h.base, h.brk);
    assert h.blocks[i].Shown(h.mem[..]);
  }

  /**
   * The list as it stands in memory: payload right behind its header, sizes and addresses multiples of 16, links that
   * undo each other, head and tail at its ends.
   */
  method InspectBlock(h: Heap, ghost i: int, hdr: word) returns (ptr: word, size: word, prev: word, next: word)
    requires h.Valid() && 0 <= i < |h.blocks| && hdr == h.blocks[i].hdr
    ensures ptr == hdr + 16 && hdr % 16 == 0 && size % 16 == 0 && h.base <= hdr && ptr + size <= h.brk
    ensures if i == 0 then prev == 0 && h.head == hdr else prev == h.blocks[i - 1].hdr && NextOf(h.blocks, i - 1) == hdr
    ensures if i == |h.blocks| - 1 then next == 0 && h.tail == hdr
            else next == h.blocks[i + 1].hdr && PrevOf(h.blocks, i + 1) == hdr && ptr + size <= next
  {
    Apart(h.blocks, i, i, h.base, h.brk);
    if i < |h.blocks| - 1 { Apart(h.blocks, i, i + 1, h.base, h.brk); }
    ptr, size, prev, next := h.ReadHeader(hdr, i);
  }
}
