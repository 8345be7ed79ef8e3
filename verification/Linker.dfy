/** The ERL linker (ee/erl/src/erl.c) as an object: its lists and tables are updated in place. */
module Linker {
  import opened Basics
  import opened Relocation
  import opened SparseMemory
  import opened LinkerSpec
  import opened LinkerUnload
  import opened LinkerRun
  import opened LinkerImage

  class Linker {
    var modules: seq<Module>
    var globals: map<string, Symbol>
    var pending: map<string, seq<Loosy>>
    var edges: seq<Edge>
    var mem: Bytes
    ghost var uses: set<Edge>
    var loads: nat    // history, as in State

    ghost function S(): State
      reads this
    {
      State(modules, globals, pending, edges, mem, uses, loads)
    }

    ghost predicate Valid()
      reads this
    {
      Inv(S())
    }

    constructor (memory: Bytes)
      ensures Valid() && S() == Start(memory)
    {
      modules, globals, pending, edges, mem, uses, loads := [], map[], map[], [], memory, {}, 0;
    }

    // ---- Lookup ----

    method FindSymbol(sym: string) returns (r: Option<Symbol>)
      ensures r == Find(S(), sym)
    {
      if sym in globals { return Some(globals[sym]); }
      var i := 0;
      while i < |modules|
        invariant 0 <= i <= |modules|
        invariant FindIn(modules, sym) == FindIn(modules[i..], sym)
      {
        if sym in modules[i].symbols { return Some(modules[i].symbols[sym]); }
        i := i + 1;
      }
      return None;
    }

    method FindRecord(name: string) returns (r: Option<Id>)
      ensures r == FindErl(modules, name)
    {
      var i := 0;
      while i < |modules|
        invariant 0 <= i <= |modules|
        invariant FindErl(modules, name) == FindErl(modules[i..], name)
      {
        if modules[i].name == Some(name) { return Some(modules[i].id); }
        i := i + 1;
      }
      return None;
    }

    // ---- Relocation ----

    /** apply_reloc followed by add_dependancy. */
    method BindSite(id: Id, site: int, kind: int, provider: Id, addr: word) returns (ok: bool)
      modifies this
      ensures S() == Bind(old(S()), id, site, kind, provider, addr)
      ensures ok <==> KnownKind(kind)
    {
      ok := KnownKind(kind);
      match ApplyReloc(Read(mem, site), kind, addr) {
        case Patched(w) => mem := Write(mem, site, w);
        case BadType =>
      }
      if id != provider { edges := [Edge(id, provider)] + edges; }
      uses := uses + {Edge(id, provider)};
    }

    method AddLoosy(id: Id, site: int, kind: int, sym: string)
      modifies this
      ensures S() == Defer(old(S()), sym, Loosy(site, kind, id, old(loads)))
    {
      var l := Loosy(site, kind, id, loads);
      if sym in pending {
        pending := pending[sym := [l] + pending[sym]];
      } else {
        pending := pending[sym := [l]];
        assert [l] + [] == [l];
      }
    }

    /** Patches everything that waits for `sym` and forgets it; the result is how many sites that was. */
    method FixLoosy(provider: Id, sym: string, addr: word) returns (count: nat)
      modifies this
      ensures S() == Fix(old(S()), provider, sym, addr)
      ensures count == if sym in old(pending) then |old(pending)[sym]| else 0
    {
      count := 0;
      if sym !in pending { return; }
      var ls := pending[sym];
      ghost var done := BindAll(S(), ls, provider, addr);
      while count < |ls|
        invariant 0 <= count <= |ls|
        invariant pending == old(pending)
        invariant done == BindAll(S(), ls[count..], provider, addr)
      {
        assert ls[count..][0] == ls[count] && ls[count..][1..] == ls[count + 1..];
        var _ := BindSite(ls[count].erl, ls[count].site, ls[count].kind, provider, addr);
        count := count + 1;
      }
      assert ls[count..] == [];
      pending := pending - {sym};
    }

    /** add_symbol: -1 when the name is taken. */
    method AddSymbol(owner: Id, sym: string, addr: word) returns (r: int)
      requires Valid() && (owner == 0 || Loaded(modules, owner))
      modifies this
      ensures Valid() && S() == Define(old(S()), owner, sym, addr)
      ensures r == if Definable(old(S()), sym) then 0 else -1
    {
      DefineKeeps(S(), owner, sym, addr);
      if !IsLocal(sym) {
        var found := FindSymbol(sym);
        if found.Some? { return -1; }
      }
      var _ := FixLoosy(owner, sym, addr);
      if owner == 0 {
        if sym !in globals { globals := globals[sym := Symbol(0, addr)]; }
      } else {
        modules := EnterIn(modules, owner, sym, addr);
      }
      return 0;
    }

    method RelocateOne(id: Id, r: Reloc) returns (ok: bool)
      modifies this
      ensures ok <==> Relocate(old(S()), id, r).Some?
      ensures S() == if ok then Relocate(old(S()), id, r).value else old(S())
    {
      ok := true;
      match r {
        case External(site, kind, sym) =>
          var y := FindSymbol(sym);
          if y.None? {
            AddLoosy(id, site, kind, sym);
          } else if KnownKind(kind) {
            ok := BindSite(id, site, kind, y.value.provider, y.value.address);
          } else {
            ok := false;
          }
        case InSection(site, kind, addr) =>
          if KnownKind(kind) { mem := PatchAt(mem, site, kind, addr); } else { ok := false; }
        case Internal(site, kind, sym, addr) =>
          var y := FindSymbol(sym);
          if !KnownKind(kind) {
            ok := false;
          } else if y.Some? {
            ok := BindSite(id, site, kind, y.value.provider, y.value.address);
          } else {
            mem := PatchAt(mem, site, kind, addr);
          }
        case Unknown => ok := false;
      }
    }

    method RelocateImage(id: Id, rs: seq<Reloc>) returns (ok: bool)
      modifies this
      ensures (S(), ok) == RelocateAll(old(S()), id, rs)
    {
      var i := 0;
      while i < |rs|
        invariant 0 <= i <= |rs|
        invariant RelocateAll(old(S()), id, rs) == RelocateAll(S(), id, rs[i..])
      {
        assert rs[i..][0] == rs[i] && rs[i..][1..] == rs[i + 1..];
        ok := RelocateOne(id, rs[i]);
        if !ok { return; }
        i := i + 1;
      }
      assert rs[i..] == [];
      ok := true;
    }

    method ExportSymbols(id: Id, exports: seq<(string, word)>)
      requires Valid() && Loaded(modules, id)
      modifies this
      ensures Valid() && S() == DefineAll(old(S()), id, exports)
    {
      var i := 0;
      while i < |exports|
        invariant 0 <= i <= |exports|
        invariant Valid() && Loaded(modules, id)
        invariant DefineAll(old(S()), id, exports) == DefineAll(S(), id, exports[i..])
      {
        assert exports[i..][0] == exports[i] && exports[i..][1..] == exports[i + 1..];
        DefineKeeps(S(), id, exports[i].0, exports[i].1);
        var _ := AddSymbol(id, exports[i].0, exports[i].1);
        i := i + 1;
      }
      assert exports[i..] == [];
    }

    /** The copy loop of read_erl. */
    method CopySections(base: int, chunks: seq<Chunk>)
      modifies this`mem
      ensures mem == WriteChunks(old(mem), base, chunks)
      ensures SectionsIn(old(mem), base, chunks, mem)
    {
      var i := 0;
      while i < |chunks|
        invariant 0 <= i <= |chunks|
        invariant WriteChunks(mem, base, chunks[i..]) == WriteChunks(old(mem), base, chunks)
      {
        assert chunks[i..][0] == chunks[i] && chunks[i..][1..] == chunks[i + 1..];
        mem := WriteBytes(mem, base + chunks[i].offset, chunks[i].bytes);
        i := i + 1;
      }
      assert chunks[i..] == [];
      ChunksPlaced(old(mem), base, chunks);
    }

    /** The record is linked in and the sections are copied. */
    method NewRecord(id: Id, image: Image, left: Unset)
      modifies this
      ensures S() == Allocate(old(S()), id, image, left)
      ensures SectionsIn(old(mem), image.base, image.chunks, mem)
    {
      loads := loads + 1;
      modules := [Module(id, left.name, left.deps, false, map[], image.base, image.size, loads)] + modules;
      uses := Without(uses, {id});
      CopySections(image.base, image.chunks);
    }

    /**
     * load_erl for a record at the fresh address `id`, whose memory holds `left`; on failure a file's record is destroyed, a
     * memory image's is not.
     */
    method LoadErl(id: Id, image: Image, left: Unset, fromFile: bool) returns (ok: bool)
      requires Valid() && id != 0 && !Loaded(modules, id)
      modifies this
      ensures Valid() && (S(), ok) == LoadImage(old(S()), id, image, left, fromFile)
      ensures ImageIn(old(S()), image, mem)
    {
      LoadPlaces(S(), id, image, left, fromFile);
      ghost var s := S();
      AllocateKeeps(s, id, image, left);
      FinishKeeps(Allocate(s, id, image, left), id, image, fromFile);
      RelocateAllKeeps(Allocate(s, id, image, left), id, image.relocs);
      NewRecord(id, image, left);
      ok := RelocateImage(id, image.relocs);
      if ok {
        ExportSymbols(id, image.exports);
        modules := Amend(modules, id, image.name, image.deps, false);
      } else if fromFile {
        modules := Keep(modules, {id});
        uses := Without(uses, {id});
      }
    }

    // ---- Unloading ----

    /** Drops the edges `id` depends by, the rest in their order. */
    method DestroyDependancies(id: Id)
      modifies this`edges
      ensures edges == KeepEdges(old(edges), {id})
    {
      var i, kept := |edges|, [];
      while i > 0
        invariant 0 <= i <= |edges| && edges == old(edges)
        invariant kept == KeepEdges(edges[i..], {id})
      {
        i := i - 1;
        assert edges[i..][0] == edges[i] && edges[i..][1..] == edges[i + 1..];
        if edges[i].depender != id { kept := [edges[i]] + kept; }
      }
      edges := kept;
    }

    /** unload_erl: done when the record is neither sticky nor any edge's provider. */
    method UnloadErl(id: Id, ghost rank: Id -> nat) returns (ok: bool)
      requires Acyclic(modules, rank) && Loaded(modules, id)
      modifies this
      ensures S() == Unload(old(S()), id, rank)
      ensures ok <==> Unloadable(old(S()), id)
      ensures old(Valid()) ==> Valid()
      decreases rank(id), 1, 0
    {
      ghost var s := S();
      if Sticky(modules, id) { return false; }
      var i := 0;
      while i < |edges|
        invariant 0 <= i <= |edges|
        invariant Provides(edges, id) <==> Provides(edges[i..], id)
      {
        if edges[i].provider == id { return false; }
        i := i + 1;
      }
      assert Unloadable(s, id);
      DepsBelow(modules, id, rank);
      UnloadDependancies(DepsOf(modules, id), rank, rank(id));
      DestroyDependancies(id);
      modules := Keep(modules, {id});
      uses := Without(uses, {id});
      if Inv(s) { UnloadKeeps(s, id, rank); }
      return true;
    }

    method UnloadDependancies(ds: seq<string>, ghost rank: Id -> nat, ghost bound: nat)
      requires Acyclic(modules, rank) && Below(modules, rank, ds, bound)
      modifies this
      ensures S() == UnloadDeps(old(S()), ds, rank, bound)
      decreases bound, 0, |ds|
    {
      if ds == [] { return; }
      UnloadDependancies(ds[1..], rank, bound);
      SubAcyclic(modules, old(modules), rank, ds, bound);
      var e := FindRecord(ds[0]);
      if e.Some? {
        FindErlNamed(modules, ds[0]);
        var _ := UnloadErl(e.value, rank);
      }
    }
  }
}
