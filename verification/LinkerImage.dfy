/** What a load of the ERL linker (ee/erl/src/erl.c) leaves in memory, byte by byte. */
module LinkerImage {
  import opened Basics
  import opened Relocation
  import opened SparseMemory
  import opened LinkerSpec
  import opened LinkerRun
  import opened LinkerDeferred

  // ---- Sections ----

  /** The section, with its image at `base`, has no byte at `a`. */
  predicate Misses(c: Chunk, base: int, a: int) { a < base + c.offset || base + c.offset + |c.bytes| <= a }

  ghost predicate AllMiss(cs: seq<Chunk>, base: int, a: int) {
    forall i {:trigger cs[i]} :: 0 <= i < |cs| ==> Misses(cs[i], base, a)
  }

  /** No byte outside the sections changes. */
  lemma {:induction false} ChunksElsewhere(mem: Bytes, base: int, cs: seq<Chunk>, a: int)
    requires AllMiss(cs, base, a)
    ensures ByteAt(WriteChunks(mem, base, cs), a) == ByteAt(mem, a)
    decreases |cs|
  {
    if cs != [] {
      assert Misses(cs[0], base, a);
      BytesOutside(mem, base + cs[0].offset, cs[0].bytes, a);
      ChunksElsewhere(WriteBytes(mem, base + cs[0].offset, cs[0].bytes), base, cs[1..], a);
    }
  }

  /** Byte `k` of a section is at its offset in the image, unless a later section covers it. */
  lemma {:induction false} ChunkPlaced(mem: Bytes, base: int, cs: seq<Chunk>, i: nat, k: nat)
    requires i < |cs| && k < |cs[i].bytes| && AllMiss(cs[i + 1..], base, base + cs[i].offset + k)
    ensures ByteAt(WriteChunks(mem, base, cs), base + cs[i].offset + k) == cs[i].bytes[k]
    decreases |cs|
  {
    var m := WriteBytes(mem, base + cs[0].offset, cs[0].bytes);
    if i == 0 {
      BytesWritten(mem, base + cs[0].offset, cs[0].bytes, k);
      ChunksElsewhere(m, base, cs[1..], base + cs[0].offset + k);
    } else {
      assert cs[1..][i - 1 + 1..] == cs[i + 1..];
      ChunkPlaced(m, base, cs[1..], i - 1, k);
    }
  }

  /**
   * Memory `m'` after the sections `cs` are copied to an image at `base`: each stands at its offset where no later one covers
   * it, and nothing else changes.
   */
  ghost predicate SectionsIn(m: Bytes, base: int, cs: seq<Chunk>, m': Bytes) {
    && (forall i, k {:trigger cs[i].bytes[k]} ::
          0 <= i < |cs| && 0 <= k < |cs[i].bytes| && AllMiss(cs[i + 1..], base, base + cs[i].offset + k) ==>
            ByteAt(m', base + cs[i].offset + k) == cs[i].bytes[k])
    && (forall a {:trigger ByteAt(m', a)} :: AllMiss(cs, base, a) ==> ByteAt(m', a) == ByteAt(m, a))
  }

  lemma ChunksPlaced(mem: Bytes, base: int, cs: seq<Chunk>)
    ensures SectionsIn(mem, base, cs, WriteChunks(mem, base, cs))
  {
    forall i, k | 0 <= i < |cs| && 0 <= k < |cs[i].bytes| && AllMiss(cs[i + 1..], base, base + cs[i].offset + k)
      ensures ByteAt(WriteChunks(mem, base, cs), base + cs[i].offset + k) == cs[i].bytes[k]
    {
      ChunkPlaced(mem, base, cs, i, k);
    }
    forall a | AllMiss(cs, base, a) ensures ByteAt(WriteChunks(mem, base, cs), a) == ByteAt(mem, a) {
      ChunksElsewhere(mem, base, cs, a);
    }
  }

  // ---- Relocations and exports ----

  predicate Outside(site: int, a: int) { a < site || site + 4 <= a }

  ghost predicate AllOutside(ls: seq<Loosy>, a: int) {
    forall l {:trigger l in ls} :: l in ls ==> Outside(l.site, a)
  }

  /** No pending relocation has the byte at `a`. */
  ghost predicate PendingSpares(s: State, a: int) {
    forall y {:trigger s.pending[y]} :: y in s.pending ==> AllOutside(s.pending[y], a)
  }

  ghost predicate RelocsSpare(rs: seq<Reloc>, a: int) {
    forall i {:trigger rs[i]} :: 0 <= i < |rs| ==> rs[i].Unknown? || Outside(rs[i].site, a)
  }

  lemma PatchByte(mem: Bytes, site: int, kind: int, addr: word, a: int)
    requires Outside(site, a)
    ensures ByteAt(PatchAt(mem, site, kind, addr), a) == ByteAt(mem, a)
  {
    match ApplyReloc(Read(mem, site), kind, addr)
    case Patched(w) => BytesOutside(mem, site, Digits(w, 4), a);
    case BadType =>
  }

  lemma DeferSpares(s: State, sym: string, l: Loosy, a: int)
    requires PendingSpares(s, a) && Outside(l.site, a)
    ensures PendingSpares(Defer(s, sym, l), a)
  {
    var t := Defer(s, sym, l);
    forall y | y in t.pending ensures AllOutside(t.pending[y], a) {
      if y in s.pending { assert AllOutside(s.pending[y], a); }
    }
  }

  lemma SamePendingSpares(s: State, t: State, a: int)
    requires PendingSpares(s, a) && forall y {:trigger y in t.pending} :: y in t.pending ==> y in s.pending && t.pending[y] == s.pending[y]
    ensures PendingSpares(t, a)
  {
    forall y | y in t.pending ensures AllOutside(t.pending[y], a) {
      assert AllOutside(s.pending[y], a);
    }
  }

  lemma RelocateByte(s: State, id: Id, r: Reloc, a: int)
    requires PendingSpares(s, a) && (r.Unknown? || Outside(r.site, a)) && Relocate(s, id, r).Some?
    ensures var t := Relocate(s, id, r).value; PendingSpares(t, a) && ByteAt(t.mem, a) == ByteAt(s.mem, a)
  {
    if r.External? && Find(s, r.sym).None? {
      DeferSpares(s, r.sym, Loosy(r.site, r.kind, id, s.loads), a);
    } else {
      SamePendingSpares(s, Relocate(s, id, r).value, a);
      match r
      case External(site, kind, y) => PatchByte(s.mem, site, kind, Find(s, y).value.address, a);
      case InSection(site, kind, addr) => PatchByte(s.mem, site, kind, addr, a);
      case Internal(site, kind, y, addr) =>
        PatchByte(s.mem, site, kind, if Find(s, y).Some? then Find(s, y).value.address else addr, a);
    }
  }

  lemma {:induction false} RelocateAllByte(s: State, id: Id, rs: seq<Reloc>, a: int)
    requires PendingSpares(s, a) && RelocsSpare(rs, a)
    ensures var t := RelocateAll(s, id, rs).0; PendingSpares(t, a) && ByteAt(t.mem, a) == ByteAt(s.mem, a)
    decreases |rs|
  {
    if rs != [] && Relocate(s, id, rs[0]).Some? {
      RelocateByte(s, id, rs[0], a);
      RelocateAllByte(Relocate(s, id, rs[0]).value, id, rs[1..], a);
    }
  }

  lemma DefineByte(s: State, owner: Id, sym: string, addr: word, a: int)
    requires PendingSpares(s, a)
    ensures var t := Define(s, owner, sym, addr); PendingSpares(t, a) && ByteAt(t.mem, a) == ByteAt(s.mem, a)
  {
    if Definable(s, sym) {
      FixRest(s, owner, sym, addr);
      SamePendingSpares(s, Define(s, owner, sym, addr), a);
      if sym in s.pending {
        assert AllOutside(s.pending[sym], a);
        BindAllBytes(s, s.pending[sym], owner, addr, a);
      }
    }
  }

  lemma {:induction false} DefineAllByte(s: State, id: Id, exports: seq<(string, word)>, a: int)
    requires PendingSpares(s, a)
    ensures ByteAt(DefineAll(s, id, exports).mem, a) == ByteAt(s.mem, a)
    decreases |exports|
  {
    if exports != [] {
      DefineByte(s, id, exports[0].0, exports[0].1, a);
      DefineAllByte(Define(s, id, exports[0].0, exports[0].1), id, exports[1..], a);
    }
  }

  /** A byte that no relocation touches, of the image or pending, is after the load what the sections made it. */
  lemma LoadByte(s: State, id: Id, image: Image, left: Unset, fromFile: bool, a: int)
    requires PendingSpares(s, a) && RelocsSpare(image.relocs, a)
    ensures ByteAt(LoadImage(s, id, image, left, fromFile).0.mem, a) == ByteAt(WriteChunks(s.mem, image.base, image.chunks), a)
  {
    var u := Allocate(s, id, image, left);
    SamePendingSpares(s, u, a);
    RelocateAllByte(u, id, image.relocs, a);
    var (t, ok) := RelocateAll(u, id, image.relocs);
    if ok { DefineAllByte(t, id, image.exports, a); }
  }

  // ---- The whole load ----

  /**
   * Memory `m` after loading `image` in state `s`: of the bytes that no relocation touches, those of a section stand at its
   * offset unless a later section covers them, and those outside all sections are as they were.
   */
  ghost predicate ImageIn(s: State, image: Image, m: Bytes) {
    && (forall i, k {:trigger image.chunks[i].bytes[k]} ::
          0 <= i < |image.chunks| && 0 <= k < |image.chunks[i].bytes|
          && Spared(s, image, image.base + image.chunks[i].offset + k)
          && AllMiss(image.chunks[i + 1..], image.base, image.base + image.chunks[i].offset + k) ==>
            ByteAt(m, image.base + image.chunks[i].offset + k) == image.chunks[i].bytes[k])
    && (forall a {:trigger ByteAt(m, a)} ::
          Spared(s, image, a) && AllMiss(image.chunks, image.base, a) ==> ByteAt(m, a) == ByteAt(s.mem, a))
  }

  ghost predicate Spared(s: State, image: Image, a: int) { PendingSpares(s, a) && RelocsSpare(image.relocs, a) }

  /** A load copies every section to its offset in the image and writes nowhere else. */
  lemma LoadPlaces(s: State, id: Id, image: Image, left: Unset, fromFile: bool)
    ensures ImageIn(s, image, LoadImage(s, id, image, left, fromFile).0.mem)
  {
    var m := LoadImage(s, id, image, left, fromFile).0.mem;
    forall i, k | 0 <= i < |image.chunks| && 0 <= k < |image.chunks[i].bytes|
                  && Spared(s, image, image.base + image.chunks[i].offset + k)
                  && AllMiss(image.chunks[i + 1..], image.base, image.base + image.chunks[i].offset + k)
      ensures ByteAt(m, image.base + image.chunks[i].offset + k) == image.chunks[i].bytes[k]
    {
      ChunkPlaced(s.mem, image.base, image.chunks, i, k);
      LoadByte(s, id, image, left, fromFile, image.base + image.chunks[i].offset + k);
    }
    forall a | Spared(s, image, a) && AllMiss(image.chunks, image.base, a) ensures ByteAt(m, a) == ByteAt(s.mem, a) {
      ChunksElsewhere(s.mem, image.base, image.chunks, a);
      LoadByte(s, id, image, left, fromFile, a);
    }
  }
}
