/** What the steps of the ERL linker achieve: names become findable, words get their addresses, dependencies go. */
module LinkerEffect {
  import opened Basics
  import opened Relocation
  import opened SparseMemory
  import opened LinkerSpec
  import opened LinkerUnload
  import opened LinkerRun
  import opened LinkerDeferred

  // ---- Definitions ----

  lemma {:induction false} EnteredIsFound(ms: seq<Module>, owner: Id, sym: string, addr: word)
    requires Loaded(ms, owner) && FindIn(ms, sym).None?
    ensures FindIn(EnterIn(ms, owner, sym, addr), sym) == Some(Symbol(owner, addr))
  {
    if ms[0].id != owner {
      EnteredIsFound(ms[1..], owner, sym, addr);
      assert EnterIn(ms, owner, sym, addr)[1..] == EnterIn(ms[1..], owner, sym, addr);
    }
  }

  /** A name that could not be found is found afterwards at the address it was defined with. */
  lemma DefineFinds(s: State, owner: Id, sym: string, addr: word)
    requires Inv(s) && (owner == 0 || Loaded(s.modules, owner)) && Find(s, sym).None?
    ensures Find(Define(s, owner, sym, addr), sym) == Some(Symbol(owner, addr))
  {
    FixKeeps(s, owner, sym, addr);
    if owner != 0 { EnteredIsFound(s.modules, owner, sym, addr); }
  }

  /** No definition moves a name that is not one of the local ones. */
  lemma DefineKeepsFound(s: State, owner: Id, sym: string, addr: word, y: string)
    requires Inv(s) && (owner == 0 || Loaded(s.modules, owner)) && !IsLocal(y) && Find(s, y).Some?
    ensures Find(Define(s, owner, sym, addr), y) == Find(s, y)
  {
    if Definable(s, sym) {
      FixKeeps(s, owner, sym, addr);
      if owner != 0 { EnterInKeeps(s.modules, owner, sym, addr, 0, y); }
    }
  }

  lemma {:induction false} DefineAllKeepsFound(s: State, id: Id, exports: seq<(string, word)>, y: string)
    requires Inv(s) && Loaded(s.modules, id) && !IsLocal(y) && Find(s, y).Some?
    ensures Find(DefineAll(s, id, exports), y) == Find(s, y)
    decreases |exports|
  {
    if exports != [] {
      DefineKeepsFound(s, id, exports[0].0, exports[0].1, y);
      DefineKeeps(s, id, exports[0].0, exports[0].1);
      DefineAllKeepsFound(Define(s, id, exports[0].0, exports[0].1), id, exports[1..], y);
    }
  }

  /** Every exported name outside the local ones is found after the export loop; the first definition of it wins. */
  lemma {:induction false} ExportsFound(s: State, id: Id, exports: seq<(string, word)>, i: nat)
    requires Inv(s) && id != 0 && Loaded(s.modules, id) && i < |exports| && !IsLocal(exports[i].0)
    requires forall j :: 0 <= j < i ==> exports[j].0 != exports[i].0
    ensures Find(DefineAll(s, id, exports), exports[i].0)
         == if Find(s, exports[i].0).Some? then Find(s, exports[i].0) else Some(Symbol(id, exports[i].1))
    decreases |exports|
  {
    var t := Define(s, id, exports[0].0, exports[0].1);
    DefineKeeps(s, id, exports[0].0, exports[0].1);
    if i == 0 {
      if Find(s, exports[0].0).None? { DefineFinds(s, id, exports[0].0, exports[0].1); }
      DefineAllKeepsFound(t, id, exports[1..], exports[0].0);
    } else {
      ExportsFound(t, id, exports[1..], i - 1);
      OtherName(s, id, exports[0].0, exports[0].1, exports[i].0);
    }
  }

  lemma OtherName(s: State, owner: Id, sym: string, addr: word, y: string)
    requires Inv(s) && owner != 0 && Loaded(s.modules, owner) && y != sym
    ensures Find(Define(s, owner, sym, addr), y) == Find(s, y)
  {
    if Definable(s, sym) {
      FixKeeps(s, owner, sym, addr);
      EnterInKeeps(s.modules, owner, sym, addr, 0, y);
    }
  }

  // ---- Relocations ----

  /** The address a relocation entry stands for: a name found anywhere wins over the image's own symbol. */
  function Resolved(s: State, r: Reloc): Option<word> {
    match r
    case External(_, _, sym) => if Find(s, sym).Some? then Some(Find(s, sym).value.address) else None
    case InSection(_, _, addr) => Some(addr)
    case Internal(_, _, sym, addr) => if Find(s, sym).Some? then Some(Find(s, sym).value.address) else Some(addr)
    case Unknown => None
  }

  lemma {:induction false} RelocateAllElsewhere(s: State, id: Id, rs: seq<Reloc>, site: int)
    requires forall j :: 0 <= j < |rs| ==> RelocAvoids(rs[j], site)
    ensures Read(RelocateAll(s, id, rs).0.mem, site) == Read(s.mem, site)
    decreases |rs|
  {
    if rs != [] && Relocate(s, id, rs[0]).Some? {
      RelocateElsewhere(s, id, rs[0], site);
      RelocateAllElsewhere(Relocate(s, id, rs[0]).value, id, rs[1..], site);
    }
  }

  /** The word of `r` when its address is applied to memory `mem`. */
  function Expected(mem: Bytes, r: Reloc, a: Option<word>): word
    requires !r.Unknown?
  {
    match a
    case None => Read(mem, r.site)
    case Some(x) =>
      var p := ApplyReloc(Read(mem, r.site), r.kind, x);
      if p.Patched? then p.w else Read(mem, r.site)
  }

  lemma RelocateOneWord(s: State, id: Id, r: Reloc)
    requires Relocate(s, id, r).Some? && !r.Unknown?
    ensures Read(Relocate(s, id, r).value.mem, r.site) == Expected(s.mem, r, Resolved(s, r))
  {
    if Resolved(s, r).Some? { PatchedWord(s.mem, r.site, r.kind, Resolved(s, r).value); }
  }

  lemma RelocateOther(s: State, id: Id, r: Reloc, other: Reloc)
    requires Relocate(s, id, r).Some? && !other.Unknown? && RelocAvoids(r, other.site)
    ensures var t := Relocate(s, id, r).value;
            Resolved(t, other) == Resolved(s, other) && forall a :: Expected(t.mem, other, a) == Expected(s.mem, other, a)
  {
    var t := Relocate(s, id, r).value;
    RelocateElsewhere(s, id, r, other.site);
    assert t.modules == s.modules && t.globals == s.globals;
  }

  /**
   * When the relocation loop gets through, the word of every entry whose word no other entry names holds the patched
   * value for the address the entry stands for, or is as it was when that address is not known yet.
   */
  lemma {:induction false} RelocatedWords(s: State, id: Id, rs: seq<Reloc>, i: nat)
    requires RelocateAll(s, id, rs).1 && i < |rs| && !rs[i].Unknown?
    requires forall j :: 0 <= j < |rs| && j != i ==> RelocAvoids(rs[j], rs[i].site)
    ensures Read(RelocateAll(s, id, rs).0.mem, rs[i].site) == Expected(s.mem, rs[i], Resolved(s, rs[i]))
    decreases |rs|
  {
    var t := Relocate(s, id, rs[0]).value;
    if i == 0 {
      forall j | 0 <= j < |rs[1..]| ensures RelocAvoids(rs[1..][j], rs[0].site) {
        assert RelocAvoids(rs[j + 1], rs[0].site);
      }
      RelocateOneWord(s, id, rs[0]);
      RelocateAllElsewhere(t, id, rs[1..], rs[0].site);
    } else {
      RelocateOther(s, id, rs[0], rs[i]);
      RelocatedWords(t, id, rs[1..], i - 1);
    }
  }

  /**
   * Whether the image defines the name itself does not matter once the name can be found: the entry is resolved as one for
   * an external name, to the same address and with the same edge. Otherwise the image's own address counts.
   */
  lemma SameResolution(s: State, id: Id, site: int, kind: int, sym: string, addr: word)
    ensures Find(s, sym).Some? ==> Relocate(s, id, Internal(site, kind, sym, addr)) == Relocate(s, id, External(site, kind, sym))
    ensures Find(s, sym).None? ==> Relocate(s, id, Internal(site, kind, sym, addr)) == Relocate(s, id, InSection(site, kind, addr))
  {
  }

  lemma {:induction false} RelocateAllGrows(s: State, id: Id, rs: seq<Reloc>, l: Loosy, sym: string, u: Edge)
    ensures var t := RelocateAll(s, id, rs).0;
            && t.modules == s.modules && t.globals == s.globals
            && (sym in s.pending && l in s.pending[sym] ==> sym in t.pending && l in t.pending[sym])
            && (u in s.uses ==> u in t.uses)
    decreases |rs|
  {
    if rs != [] && Relocate(s, id, rs[0]).Some? {
      RelocateAllGrows(Relocate(s, id, rs[0]).value, id, rs[1..], l, sym, u);
    }
  }

  lemma RelocateFind(s: State, id: Id, r: Reloc, y: string)
    requires Relocate(s, id, r).Some?
    ensures Find(Relocate(s, id, r).value, y) == Find(s, y) && Relocate(s, id, r).value.loads == s.loads
  {
  }

  /** The entry is recorded as a use of the name's provider, or waits for the name. */
  ghost predicate Accounted(s: State, t: State, id: Id, r: Reloc)
    requires r.External?
  {
    if Find(s, r.sym).Some? then Edge(id, Find(s, r.sym).value.provider) in t.uses
    else r.sym in t.pending && Loosy(r.site, r.kind, id, s.loads) in t.pending[r.sym]
  }

  lemma OneAccounted(s: State, id: Id, r: Reloc)
    requires r.External? && Relocate(s, id, r).Some?
    ensures Accounted(s, Relocate(s, id, r).value, id, r)
  {
  }

  lemma StaysAccounted(s: State, t: State, id: Id, r: Reloc, rs: seq<Reloc>)
    requires r.External? && Accounted(s, t, id, r)
    ensures Accounted(s, RelocateAll(t, id, rs).0, id, r)
  {
    var u := if Find(s, r.sym).Some? then Edge(id, Find(s, r.sym).value.provider) else Edge(0, 0);
    RelocateAllGrows(t, id, rs, Loosy(r.site, r.kind, id, s.loads), r.sym, u);
  }

  /** No entry for an external name is dropped: it is recorded as a use of the name's provider, or it waits for the name. */
  lemma {:induction false} RelocationsAccounted(s: State, id: Id, rs: seq<Reloc>, i: nat)
    requires RelocateAll(s, id, rs).1 && i < |rs| && rs[i].External?
    ensures Accounted(s, RelocateAll(s, id, rs).0, id, rs[i])
    decreases |rs|
  {
    var t := Relocate(s, id, rs[0]).value;
    if i == 0 {
      OneAccounted(s, id, rs[0]);
      StaysAccounted(s, t, id, rs[0], rs[1..]);
    } else {
      RelocationsAccounted(t, id, rs[1..], i - 1);
      RelocateFind(s, id, rs[0], rs[i].sym);
    }
  }

  // ---- Unloading ----

  /** Removing other modules does not change which record a name finds. */
  lemma {:induction false} KeepFindErl(ms: seq<Module>, gone: set<Id>, name: string)
    requires FindErl(ms, name).Some? && FindErl(ms, name).value !in gone
    ensures FindErl(Keep(ms, gone), name) == FindErl(ms, name)
  {
    KeepSplit(ms, gone);
    if ms[0].name != Some(name) { KeepFindErl(ms[1..], gone, name); }
  }

  lemma UnloadableLater(s: State, gone: set<Id>, e: Id)
    requires Unloadable(s, e) && e !in gone
    ensures Unloadable(RemoveAll(s, gone), e)
  {
    KeepSticky(s.modules, gone, e);
    ProvidesHas(s.edges, e);
    ProvidesHas(KeepEdges(s.edges, gone), e);
    forall x | x in KeepEdges(s.edges, gone) ensures x.provider != e {
      KeepEdgesHas(s.edges, gone, x);
    }
  }

  lemma {:induction false} DepsTaken(s: State, ds: seq<string>, rank: Id -> nat, bound: nat, d: string, e: Id)
    requires Acyclic(s.modules, rank) && Below(s.modules, rank, ds, bound)
    requires d in ds && FindErl(s.modules, d) == Some(e) && Unloadable(s, e)
    ensures !Loaded(UnloadDeps(s, ds, rank, bound).modules, e)
    decreases |ds|
  {
    var u := UnloadDeps(s, ds[1..], rank, bound);
    var gone := UnloadDepsRemoves(s, ds[1..], rank, bound);
    SubAcyclic(u.modules, s.modules, rank, ds, bound);
    var t := UnloadDeps(s, ds, rank, bound);
    if d in ds[1..] {
      DepsTaken(s, ds[1..], rank, bound, d, e);
    }
    if e in gone || d in ds[1..] {
      KeepLoaded(s.modules, gone, e);
      if FindErl(u.modules, ds[0]).Some? { StaysGone(u, ds[0], rank, e); }
    } else {
      KeepFindErl(s.modules, gone, d);
      UnloadableLater(s, gone, e);
      FindErlNamed(u.modules, d);
      var more := UnloadRemoves(u, e, rank);
      KeepLoaded(u.modules, more + {e}, e);
    }
  }

  lemma StaysGone(u: State, name: string, rank: Id -> nat, e: Id)
    requires Acyclic(u.modules, rank) && !Loaded(u.modules, e) && FindErl(u.modules, name).Some?
    ensures !Loaded(Unload(u, FindErl(u.modules, name).value, rank).modules, e)
  {
    var f := FindErl(u.modules, name).value;
    FindErlNamed(u.modules, name);
    if Unloadable(u, f) {
      var more := UnloadRemoves(u, f, rank);
      KeepLoaded(u.modules, more + {f}, e);
    }
  }

  /**
   * A declared dependency that only the unloaded module, or a module not below it, is linked to goes with the module if and
   * only if it could have been unloaded by itself: not even the module's own link to it may stand.
   */
  lemma DependencyGoesExact(s: State, id: Id, rank: Id -> nat, d: string, e: Id)
    requires Acyclic(s.modules, rank) && Loaded(s.modules, id) && Unloadable(s, id) && d in DepsOf(s.modules, id)
    requires FindErl(s.modules, d) == Some(e) && e != id
    requires forall x {:trigger x in s.edges} ::
      x in s.edges && x.provider == e ==> x.depender == id || rank(x.depender) >= rank(id)
    ensures !Loaded(Unload(s, id, rank).modules, e) <==> Unloadable(s, e)
  {
    if Unloadable(s, e) {
      UnloadTakesDependency(s, id, rank, d, e);
    } else {
      var gone := UnloadRemoves(s, id, rank);
      FindErlNamed(s.modules, d);
      KeepLoaded(s.modules, gone + {id}, e);
      ProvidesHas(s.edges, e);
    }
  }

  /** A successful unload takes with it every declared dependency that is not sticky and that nothing is linked to. */
  lemma UnloadTakesDependency(s: State, id: Id, rank: Id -> nat, d: string, e: Id)
    requires Acyclic(s.modules, rank) && Unloadable(s, id) && d in DepsOf(s.modules, id)
    requires FindErl(s.modules, d) == Some(e) && Unloadable(s, e)
    ensures !Loaded(Unload(s, id, rank).modules, e) && !Loaded(Unload(s, id, rank).modules, id)
  {
    DepsBelow(s.modules, id, rank);
    var u := UnloadDeps(s, DepsOf(s.modules, id), rank, rank(id));
    DepsTaken(s, DepsOf(s.modules, id), rank, rank(id), d, e);
    KeepLoaded(u.modules, {id}, e);
    KeepLoaded(u.modules, {id}, id);
  }

  // ---- The last declared dependency goes first ----

  /** Two declared dependencies `a` and `b` of `id`, of which `a` is linked to `b` and nothing else is linked to either. */
  ghost predicate LinkedPair(s: State, id: Id, a: Id, b: Id) {
    && Loaded(s.modules, id) && Unloadable(s, id) && Unloadable(s, a) && !Sticky(s.modules, b)
    && a != b && a != id && b != id
    && Edge(a, b) in s.edges && forall e {:trigger e in s.edges} :: e in s.edges && e.provider == b ==> e.depender == a
  }

  /** Declared after `b`, `a` is unloaded before it, and both go. */
  lemma LinkedPairGoes(s: State, id: Id, rank: Id -> nat, a: Id, x: string, b: Id, y: string)
    requires Acyclic(s.modules, rank) && LinkedPair(s, id, a, b) && DepsOf(s.modules, id) == [y, x]
    requires FindErl(s.modules, x) == Some(a) && FindErl(s.modules, y) == Some(b)
    ensures !Loaded(Unload(s, id, rank).modules, a) && !Loaded(Unload(s, id, rank).modules, b)
  {
    DepsBelow(s.modules, id, rank);
    UnloadTakesDependency(s, id, rank, x, a);
    assert [y, x][1..] == [x];
    var u := UnloadDeps(s, [x], rank, rank(id));
    DepsTaken(s, [x], rank, rank(id), x, a);
    var gone := UnloadDepsRemoves(s, [x], rank, rank(id));
    KeepLoaded(s.modules, gone, a);
    KeepLoaded(s.modules, gone, b);
    FindErlNamed(s.modules, x);
    var t := UnloadDeps(s, [y, x], rank, rank(id));
    if b in gone {
      if FindErl(u.modules, y).Some? { StaysGone(u, y, rank, b); }
    } else {
      KeepFindErl(s.modules, gone, y);
      FreedByDepender(s, gone, a, b);
      FindErlNamed(u.modules, y);
      var more := UnloadRemoves(u, b, rank);
      KeepLoaded(u.modules, more + {b}, b);
    }
    KeepLoaded(t.modules, {id}, b);
  }

  lemma FreedByDepender(s: State, gone: set<Id>, a: Id, b: Id)
    requires a in gone && b !in gone && !Sticky(s.modules, b)
    requires forall e {:trigger e in s.edges} :: e in s.edges && e.provider == b ==> e.depender == a
    ensures Unloadable(RemoveAll(s, gone), b)
  {
    KeepSticky(s.modules, gone, b);
    ProvidesHas(KeepEdges(s.edges, gone), b);
    forall e | e in KeepEdges(s.edges, gone) ensures e.provider != b {
      KeepEdgesHas(s.edges, gone, e);
    }
  }

  /** Declared before `b`, `a` is unloaded after it: `b` is refused and stays. */
  lemma LinkedPairStays(s: State, id: Id, rank: Id -> nat, a: Id, x: string, b: Id, y: string)
    requires Acyclic(s.modules, rank) && LinkedPair(s, id, a, b) && DepsOf(s.modules, id) == [x, y]
    requires FindErl(s.modules, x) == Some(a) && FindErl(s.modules, y) == Some(b)
    ensures !Loaded(Unload(s, id, rank).modules, a) && Loaded(Unload(s, id, rank).modules, b)
  {
    DepsBelow(s.modules, id, rank);
    UnloadTakesDependency(s, id, rank, x, a);
    assert [x, y][1..] == [y] && [y][1..] == [];
    ProvidesHas(s.edges, b);
    assert UnloadDeps(s, [y], rank, rank(id)) == s;
    FindErlNamed(s.modules, x);
    FindErlNamed(s.modules, y);
    var gone := UnloadRemoves(s, a, rank);
    KeepLoaded(s.modules, gone + {a}, b);
    KeepLoaded(UnloadDeps(s, [x, y], rank, rank(id)).modules, {id}, b);
  }

  // ---- Names every module has ----

  /** erl_find_local_symbol */
  function LocalIn(ms: seq<Module>, id: Id, sym: string): Option<Symbol> {
    if ms == [] then None
    else if ms[0].id == id then if sym in ms[0].symbols then Some(ms[0].symbols[sym]) else None
    else LocalIn(ms[1..], id, sym)
  }

  /** The names that more than one module may define. */
  predicate Shared(sym: string) {
    || sym == "_init" || sym == "_fini" || sym == "_start" || sym == "erl_id" || sym == "erl_dependancies"
    || sym == "erl_copyright" || sym == "erl_version"
  }

  lemma {:induction false} EnteredIsLocal(ms: seq<Module>, owner: Id, sym: string, addr: word)
    requires Loaded(ms, owner)
    ensures LocalIn(EnterIn(ms, owner, sym, addr), owner, sym)
         == if LocalIn(ms, owner, sym).Some? then LocalIn(ms, owner, sym) else Some(Symbol(owner, addr))
  {
    if ms[0].id != owner {
      EnteredIsLocal(ms[1..], owner, sym, addr);
      assert EnterIn(ms, owner, sym, addr)[1..] == EnterIn(ms[1..], owner, sym, addr);
    }
  }

  /**
   * A module's own table gets a name it does not have yet if and only if the name is one that every module may define or
   * cannot be found anywhere. A name it has stays as it is.
   */
  lemma DefineLocal(s: State, owner: Id, sym: string, addr: word)
    requires Inv(s) && owner != 0 && Loaded(s.modules, owner)
    ensures LocalIn(Define(s, owner, sym, addr).modules, owner, sym)
         == if LocalIn(s.modules, owner, sym).Some? then LocalIn(s.modules, owner, sym)
            else if Shared(sym) || Find(s, sym).None? then Some(Symbol(owner, addr)) else None
  {
    if Definable(s, sym) {
      FixKeeps(s, owner, sym, addr);
      EnteredIsLocal(s.modules, owner, sym, addr);
    }
  }

  function GlobalIn(s: State, sym: string): Option<Symbol> { if sym in s.globals then Some(s.globals[sym]) else None }

  /** The same for the global table. */
  lemma DefineGlobal(s: State, sym: string, addr: word)
    requires Inv(s)
    ensures GlobalIn(Define(s, 0, sym, addr), sym)
         == if GlobalIn(s, sym).Some? then GlobalIn(s, sym)
            else if Shared(sym) || Find(s, sym).None? then Some(Symbol(0, addr)) else None
  {
    if Definable(s, sym) { FixKeeps(s, 0, sym, addr); }
  }

  /** The global table wins; otherwise the newest module that has the name. */
  lemma {:induction false} FindFirst(s: State, sym: string, i: nat)
    requires i < |s.modules| && sym in s.modules[i].symbols
    requires forall j :: 0 <= j < i ==> sym !in s.modules[j].symbols
    ensures Find(s, sym) == Some(if sym in s.globals then s.globals[sym] else s.modules[i].symbols[sym])
    decreases i
  {
    if i > 0 { FindFirst(s.(modules := s.modules[1..]), sym, i - 1); }
  }

  /** find_erl finds the newest record with the name. */
  lemma {:induction false} FindErlFirst(ms: seq<Module>, name: string, i: nat)
    requires i < |ms| && ms[i].name == Some(name) && forall j :: 0 <= j < i ==> ms[j].name != Some(name)
    ensures FindErl(ms, name) == Some(ms[i].id)
    decreases i
  {
    if i > 0 { FindErlFirst(ms[1..], name, i - 1); }
  }

  // ---- What becomes of the record ----

  lemma {:induction false} Amended(ms: seq<Module>, id: Id, name: Option<string>, deps: seq<string>, sticky: bool)
    requires Loaded(ms, id)
    ensures var r := Amend(ms, id, name, deps, sticky);
            NameOf(r, id) == name && DepsOf(r, id) == deps && (Sticky(r, id) <==> sticky)
  {
    if ms[0].id != id {
      Amended(ms[1..], id, name, deps, sticky);
      assert Amend(ms, id, name, deps, sticky)[1..] == Amend(ms[1..], id, name, deps, sticky);
    }
  }

  /**
   * A load that succeeds lists its record with the name and dependencies that the image declares, not sticky; one that fails
   * leaves the record listed if and only if the image came from memory.
   */
  lemma LoadedRecord(s: State, id: Id, image: Image, left: Unset, fromFile: bool)
    requires Inv(s) && id != 0 && !Loaded(s.modules, id)
    ensures var (t, ok) := LoadImage(s, id, image, left, fromFile);
            && (ok ==> Loaded(t.modules, id) && NameOf(t.modules, id) == image.name && DepsOf(t.modules, id) == image.deps
                       && !Sticky(t.modules, id))
            && (!ok ==> (Loaded(t.modules, id) <==> !fromFile))
  {
    var a := Allocate(s, id, image, left);
    AllocateKeeps(s, id, image, left);
    RelocateAllKeeps(a, id, image.relocs);
    RelocateAllModules(a, id, image.relocs);
    var (t, ok) := RelocateAll(a, id, image.relocs);
    if ok {
      DefineAllKeeps(t, id, image.exports);
      var ms := DefineAll(t, id, image.exports).modules;
      Amended(ms, id, image.name, image.deps, false);
      AmendKeeps(ms, id, image.name, image.deps, false, id, "");
    } else if fromFile {
      KeepLoaded(t.modules, {id}, id);
    }
  }

  /** A sticky module is never unloaded; once the flag is cleared, only a link to the module prevents it. */
  lemma StickyExact(s: State, id: Id, sticky: bool, rank: Id -> nat)
    requires Loaded(s.modules, id) && Acyclic(s.modules, rank)
    ensures var t := Apply(s, SetSticky(id, sticky));
            && NameOf(t.modules, id) == NameOf(s.modules, id) && DepsOf(t.modules, id) == DepsOf(s.modules, id)
            && (Unloadable(t, id) <==> !sticky && forall e :: e in s.edges ==> e.provider != id)
  {
    Amended(s.modules, id, NameOf(s.modules, id), DepsOf(s.modules, id), sticky);
    ProvidesHas(s.edges, id);
  }
}
