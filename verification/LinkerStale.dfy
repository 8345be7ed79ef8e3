/**
 * What the ERL linker (ee/erl/src/erl.c) leaves behind: edges and pending relocations of modules that are gone. Exact
 * conditions, and runs that meet them.
 */
module LinkerStale {
  import opened Basics
  import opened Relocation
  import opened SparseMemory
  import opened LinkerSpec
  import opened LinkerUnload
  import opened LinkerRun
  import opened LinkerDeferred

  // ---- Dependers are not looked after ----

  ghost predicate DependersLoaded(s: State) {
    forall e {:trigger e in s.edges} :: e in s.edges ==> Loaded(s.modules, e.depender)
  }

  /** Every deferred relocation for `sym` that would add an edge belongs to a loaded module. */
  ghost predicate WaitersLoaded(s: State, owner: Id, ls: seq<Loosy>) {
    forall i {:trigger ls[i]} :: 0 <= i < |ls| && ls[i].erl != owner ==> Loaded(s.modules, ls[i].erl)
  }

  lemma BindDepender(s: State, id: Id, site: int, kind: int, provider: Id, addr: word)
    ensures DependersLoaded(Bind(s, id, site, kind, provider, addr)) <==>
            DependersLoaded(s) && (id != provider ==> Loaded(s.modules, id))
  {
    var t := Bind(s, id, site, kind, provider, addr);
    if DependersLoaded(t) {
      forall e | e in s.edges ensures Loaded(s.modules, e.depender) {
        assert e in t.edges;
      }
      if id != provider { assert t.edges[0] in t.edges; }
    }
    if DependersLoaded(s) && (id != provider ==> Loaded(s.modules, id)) {
      forall e | e in t.edges ensures Loaded(t.modules, e.depender) {
        if e != Edge(id, provider) || id == provider { assert e in s.edges; }
      }
    }
  }

  lemma {:induction false} BindAllEdges(s: State, ls: seq<Loosy>, provider: Id, addr: word)
    ensures var t := BindAll(s, ls, provider, addr);
            t.modules == s.modules && (DependersLoaded(t) <==> DependersLoaded(s) && WaitersLoaded(s, provider, ls))
    decreases |ls|
  {
    if ls != [] {
      var a := Bind(s, ls[0].erl, ls[0].site, ls[0].kind, provider, addr);
      BindAllEdges(a, ls[1..], provider, addr);
      BindDepender(s, ls[0].erl, ls[0].site, ls[0].kind, provider, addr);
      assert WaitersLoaded(s, provider, ls)
        <==> (ls[0].erl != provider ==> Loaded(s.modules, ls[0].erl)) && WaitersLoaded(s, provider, ls[1..]) by {
        assert forall i :: 0 < i < |ls| ==> ls[i] == ls[1..][i - 1];
        assert forall i :: 0 <= i < |ls[1..]| ==> ls[1..][i] == ls[i + 1];
      }
    }
  }

  /**
   * Unloading does not purge what a module left pending, so defining a name may record an edge from a module that is
   * gone. It does so exactly when some entry pending under the name belongs to such a module.
   */
  lemma DependersLoadedExact(s: State, owner: Id, sym: string, addr: word)
    requires Inv(s) && DependersLoaded(s) && (owner == 0 || Loaded(s.modules, owner))
    ensures DependersLoaded(Define(s, owner, sym, addr)) <==>
            (sym in s.pending ==> WaitersLoaded(s, owner, s.pending[sym]))
  {
    if sym in s.pending { assert Definable(s, sym); }
    if Definable(s, sym) {
      var f := Fix(s, owner, sym, addr);
      if sym in s.pending { BindAllEdges(s, s.pending[sym], owner, addr); }
      FixKeeps(s, owner, sym, addr);
      EnterKeeps(f, owner, sym, addr);
      assert Define(s, owner, sym, addr).edges == f.edges;
    }
  }

  /** Unloading itself leaves no edge behind. */
  lemma UnloadDependers(s: State, id: Id, rank: Id -> nat)
    requires DependersLoaded(s) && Loaded(s.modules, id) && Acyclic(s.modules, rank)
    ensures DependersLoaded(Unload(s, id, rank))
  {
    if Unloadable(s, id) {
      var gone := UnloadRemoves(s, id, rank);
      var t := Unload(s, id, rank);
      forall e | e in t.edges ensures Loaded(t.modules, e.depender) {
        KeepEdgesHas(s.edges, gone + {id}, e);
        assert e in s.edges;
        KeepLoaded(s.modules, gone + {id}, e.depender);
      }
    }
  }

  // ---- Writes into freed memory ----

  predicate Holds(m: Module, site: int) { m.base <= site && site + 4 <= m.base + m.size }

  /** The record that load number `load` made is listed, and the word at `site` lies in its image. */
  predicate Owned(ms: seq<Module>, load: nat, site: int) {
    ms != [] && ((ms[0].load == load && Holds(ms[0], site)) || Owned(ms[1..], load, site))
  }

  /** The record at `id` is listed, and load number `load` made it. */
  predicate Current(ms: seq<Module>, id: Id, load: nat) {
    ms != [] && ((ms[0].id == id && ms[0].load == load) || Current(ms[1..], id, load))
  }

  /** A record that load number `load` made is the one at `id`, and its image holds the word at `site`. */
  predicate Traced(ms: seq<Module>, id: Id, load: nat, site: int) {
    ms == [] || ((ms[0].load == load ==> ms[0].id == id && Holds(ms[0], site)) && Traced(ms[1..], id, load, site))
  }

  predicate NumberedTo(ms: seq<Module>, n: nat) { ms == [] || (ms[0].load <= n && NumberedTo(ms[1..], n)) }

  ghost predicate AllTraced(s: State, ls: seq<Loosy>) {
    forall l {:trigger l in ls} :: l in ls ==> l.load <= s.loads && Traced(s.modules, l.erl, l.load, l.site)
  }

  /** No load number is ahead of the count, and every pending entry can be traced to the load that deferred it. */
  ghost predicate PendingTraced(s: State) {
    && NumberedTo(s.modules, s.loads)
    && forall y {:trigger s.pending[y]} :: y in s.pending ==> AllTraced(s, s.pending[y])
  }

  lemma {:induction false} OwnedExact(ms: seq<Module>, id: Id, load: nat, site: int)
    requires Traced(ms, id, load, site)
    ensures Owned(ms, load, site) <==> Current(ms, id, load)
  {
    if ms != [] { OwnedExact(ms[1..], id, load, site); }
  }

  lemma {:induction false} NewerTraced(ms: seq<Module>, n: nat, id: Id, load: nat, site: int)
    requires NumberedTo(ms, n) && n < load
    ensures NumberedTo(ms, n + 1) && Traced(ms, id, load, site)
  {
    if ms != [] { NewerTraced(ms[1..], n, id, load, site); }
  }

  lemma {:induction false} EnterInTraced(ms: seq<Module>, owner: Id, sym: string, addr: word, id: Id, load: nat, site: int)
    ensures var r := EnterIn(ms, owner, sym, addr);
            (Traced(r, id, load, site) <==> Traced(ms, id, load, site)) && (NumberedTo(r, load) <==> NumberedTo(ms, load))
  {
    if ms != [] {
      EnterInTraced(ms[1..], owner, sym, addr, id, load, site);
      var r := EnterIn(ms, owner, sym, addr);
      assert r[1..] == if ms[0].id == owner then ms[1..] else EnterIn(ms[1..], owner, sym, addr);
    }
  }

  lemma {:induction false} AmendTraced(ms: seq<Module>, other: Id, name: Option<string>, deps: seq<string>, sticky: bool,
                                       id: Id, load: nat, site: int)
    ensures var r := Amend(ms, other, name, deps, sticky);
            (Traced(r, id, load, site) <==> Traced(ms, id, load, site)) && (NumberedTo(r, load) <==> NumberedTo(ms, load))
  {
    if ms != [] {
      AmendTraced(ms[1..], other, name, deps, sticky, id, load, site);
      var r := Amend(ms, other, name, deps, sticky);
      assert r[1..] == if ms[0].id == other then ms[1..] else Amend(ms[1..], other, name, deps, sticky);
    }
  }

  lemma {:induction false} KeepTraced(ms: seq<Module>, gone: set<Id>, id: Id, load: nat, site: int)
    ensures Traced(ms, id, load, site) ==> Traced(Keep(ms, gone), id, load, site)
    ensures NumberedTo(ms, load) ==> NumberedTo(Keep(ms, gone), load)
  {
    if ms != [] {
      KeepTraced(ms[1..], gone, id, load, site);
      KeepSplit(ms, gone);
    }
  }

  /** Entries stay traced when the pending table only shrinks and records keep their numbers and images. */
  lemma TracedTransfer(s: State, t: State)
    requires PendingTraced(s) && t.loads == s.loads && NumberedTo(t.modules, t.loads)
    requires forall y {:trigger y in t.pending} :: y in t.pending ==> y in s.pending && t.pending[y] == s.pending[y]
    requires forall id, load, site {:trigger Traced(t.modules, id, load, site)} ::
               Traced(s.modules, id, load, site) ==> Traced(t.modules, id, load, site)
    ensures PendingTraced(t)
  {
    forall y | y in t.pending ensures AllTraced(t, t.pending[y]) {
      assert AllTraced(s, s.pending[y]);
    }
  }

  lemma DefineTraced(s: State, owner: Id, sym: string, addr: word)
    requires PendingTraced(s)
    ensures PendingTraced(Define(s, owner, sym, addr))
  {
    var t := Define(s, owner, sym, addr);
    if Definable(s, sym) {
      FixRest(s, owner, sym, addr);
      forall id, load, site ensures Traced(s.modules, id, load, site) ==> Traced(t.modules, id, load, site) {
        EnterInTraced(s.modules, owner, sym, addr, id, load, site);
      }
      EnterInTraced(s.modules, owner, sym, addr, 0, s.loads, 0);
      TracedTransfer(s, t);
    }
  }

  lemma {:induction false} DefineAllTraced(s: State, id: Id, exports: seq<(string, word)>)
    requires PendingTraced(s)
    ensures PendingTraced(DefineAll(s, id, exports))
    decreases |exports|
  {
    if exports != [] {
      DefineTraced(s, id, exports[0].0, exports[0].1);
      DefineAllTraced(Define(s, id, exports[0].0, exports[0].1), id, exports[1..]);
    }
  }

  lemma DeferTraced(s: State, sym: string, l: Loosy)
    requires PendingTraced(s) && l.load == s.loads && Traced(s.modules, l.erl, l.load, l.site)
    ensures PendingTraced(Defer(s, sym, l))
  {
    var t := Defer(s, sym, l);
    forall y | y in t.pending ensures AllTraced(t, t.pending[y]) {
      if y in s.pending { assert AllTraced(s, s.pending[y]); }
    }
  }

  /** The words that the relocations touch lie in the image of the load in progress, that of the record at `id`. */
  ghost predicate SitesTraced(s: State, id: Id, rs: seq<Reloc>) {
    forall i {:trigger rs[i]} :: 0 <= i < |rs| ==> rs[i].Unknown? || Traced(s.modules, id, s.loads, rs[i].site)
  }

  lemma {:induction false} RelocateAllTraced(s: State, id: Id, rs: seq<Reloc>)
    requires PendingTraced(s) && SitesTraced(s, id, rs)
    ensures PendingTraced(RelocateAll(s, id, rs).0)
    decreases |rs|
  {
    if rs != [] && Relocate(s, id, rs[0]).Some? {
      var r, t := rs[0], Relocate(s, id, rs[0]).value;
      if r.External? && Find(s, r.sym).None? {
        DeferTraced(s, r.sym, Loosy(r.site, r.kind, id, s.loads));
      } else {
        TracedTransfer(s, t);
      }
      RelocateAllTraced(t, id, rs[1..]);
    }
  }

  lemma AllocateTraced(s: State, id: Id, image: Image, left: Unset)
    requires PendingTraced(s) && WellPlaced(image)
    ensures var a := Allocate(s, id, image, left); PendingTraced(a) && SitesTraced(a, id, image.relocs)
  {
    var a := Allocate(s, id, image, left);
    assert a.modules[1..] == s.modules;
    NewerTraced(s.modules, s.loads, 0, s.loads + 1, 0);
    forall y | y in a.pending ensures AllTraced(a, a.pending[y]) {
      assert AllTraced(s, s.pending[y]);
    }
    forall i | 0 <= i < |image.relocs| && !image.relocs[i].Unknown? ensures Traced(a.modules, id, a.loads, image.relocs[i].site) {
      assert RelocInside(image.relocs[i], image.base, image.size);
      NewerTraced(s.modules, s.loads, id, s.loads + 1, image.relocs[i].site);
    }
  }

  lemma LoadTraced(s: State, id: Id, image: Image, left: Unset, fromFile: bool)
    requires PendingTraced(s) && WellPlaced(image)
    ensures PendingTraced(LoadImage(s, id, image, left, fromFile).0)
  {
    AllocateTraced(s, id, image, left);
    var a := Allocate(s, id, image, left);
    RelocateAllTraced(a, id, image.relocs);
    var (t, ok) := RelocateAll(a, id, image.relocs);
    if ok {
      DefineAllTraced(t, id, image.exports);
      AmendPendingTraced(DefineAll(t, id, image.exports), id, image.name, image.deps, false);
    } else if fromFile {
      KeepPendingTraced(t, Discard(t, id), {id});
    }
  }

  lemma AmendPendingTraced(s: State, other: Id, name: Option<string>, deps: seq<string>, sticky: bool)
    requires PendingTraced(s)
    ensures PendingTraced(s.(modules := Amend(s.modules, other, name, deps, sticky)))
  {
    var t := s.(modules := Amend(s.modules, other, name, deps, sticky));
    forall id, load, site ensures Traced(s.modules, id, load, site) ==> Traced(t.modules, id, load, site) {
      AmendTraced(s.modules, other, name, deps, sticky, id, load, site);
    }
    AmendTraced(s.modules, other, name, deps, sticky, 0, s.loads, 0);
    TracedTransfer(s, t);
  }

  lemma KeepPendingTraced(s: State, t: State, gone: set<Id>)
    requires PendingTraced(s) && t.modules == Keep(s.modules, gone) && t.pending == s.pending && t.loads == s.loads
    ensures PendingTraced(t)
  {
    forall id, load, site ensures Traced(s.modules, id, load, site) ==> Traced(t.modules, id, load, site) {
      KeepTraced(s.modules, gone, id, load, site);
    }
    KeepTraced(s.modules, gone, 0, s.loads, 0);
    TracedTransfer(s, t);
  }

  /** The loads of the run keep their sections and relocated words inside their images. */
  ghost predicate AllPlaced(ops: seq<Op>) {
    forall i {:trigger ops[i]} :: 0 <= i < |ops| && ops[i].Load? ==> WellPlaced(ops[i].image)
  }

  lemma {:induction false} RunTraced(s: State, ops: seq<Op>, t: State)
    requires PendingTraced(s) && IsRun(s, ops, t) && AllPlaced(ops)
    ensures PendingTraced(t)
    decreases |ops|
  {
    if ops != [] {
      var u := Apply(s, ops[0]);
      match ops[0] {
        case AddGlobal(sym, addr) => DefineTraced(s, 0, sym, addr);
        case Load(id, image, left, fromFile) => LoadTraced(s, id, image, left, fromFile);
        case SetSticky(id, sticky) => AmendPendingTraced(s, id, NameOf(s.modules, id), DepsOf(s.modules, id), sticky);
        case UnloadModule(id, rank) =>
          if Unloadable(s, id) {
            var gone := UnloadRemoves(s, id, rank);
            KeepPendingTraced(s, u, gone + {id});
          }
      }
      RunTraced(u, ops[1..], t);
    }
  }

  /**
   * After any run from the empty linker whose loads relocate inside their images, the word that a definition patches for a
   * pending entry lies in the image of the load that deferred the entry if and only if the record that the entry names is
   * listed and still the one of that load. The definition changes no byte outside the words of its entries.
   */
  lemma DefinitionWritesExact(mem: Bytes, ops: seq<Op>, t: State, owner: Id, sym: string, addr: word)
    requires IsRun(Start(mem), ops, t) && AllPlaced(ops) && sym in t.pending
    ensures forall l :: l in t.pending[sym] ==> (Owned(t.modules, l.load, l.site) <==> Current(t.modules, l.erl, l.load))
    ensures forall a :: ByteAt(Define(t, owner, sym, addr).mem, a) != ByteAt(t.mem, a) ==>
              exists l :: l in t.pending[sym] && l.site <= a < l.site + 4
  {
    RunTraced(Start(mem), ops, t);
    assert AllTraced(t, t.pending[sym]);
    forall l | l in t.pending[sym] ensures Owned(t.modules, l.load, l.site) <==> Current(t.modules, l.erl, l.load) {
      OwnedExact(t.modules, l.erl, l.load, l.site);
    }
    forall a | forall l :: l in t.pending[sym] ==> a < l.site || l.site + 4 <= a
      ensures ByteAt(Define(t, owner, sym, addr).mem, a) == ByteAt(t.mem, a)
    {
      BindAllBytes(t, t.pending[sym], owner, addr, a);
    }
  }

  // ---- Failed loads ----

  /** The relocation entry makes the load fail. */
  predicate Fails(s: State, r: Reloc) {
    match r
    case External(_, kind, sym) => Find(s, sym).Some? && !KnownKind(kind)
    case InSection(_, kind, _) => !KnownKind(kind)
    case Internal(_, kind, _, _) => !KnownKind(kind)
    case Unknown => true
  }

  /** The entry is resolved to a symbol of some table, so it adds an edge. */
  predicate Links(s: State, r: Reloc) { (r.External? || r.Internal?) && Find(s, r.sym).Some? }

  predicate SomeFails(s: State, rs: seq<Reloc>) { rs != [] && (Fails(s, rs[0]) || SomeFails(s, rs[1..])) }

  /** Some entry before the first failing one links. */
  predicate LinksBeforeFailure(s: State, rs: seq<Reloc>) {
    rs != [] && !Fails(s, rs[0]) && (Links(s, rs[0]) || LinksBeforeFailure(s, rs[1..]))
  }

  /** Lookup is all these predicates see of the state. */
  lemma {:induction false} SameLookup(s: State, t: State, rs: seq<Reloc>)
    requires forall y :: Find(t, y) == Find(s, y)
    ensures SomeFails(t, rs) == SomeFails(s, rs) && LinksBeforeFailure(t, rs) == LinksBeforeFailure(s, rs)
  {
    if rs != [] { SameLookup(s, t, rs[1..]); }
  }

  predicate Depends(es: seq<Edge>, id: Id) {
    es != [] && (es[0].depender == id || Depends(es[1..], id))
  }

  lemma {:induction false} DependsHas(es: seq<Edge>, id: Id)
    ensures Depends(es, id) <==> exists e :: e in es && e.depender == id
  {
    if es != [] {
      DependsHas(es[1..], id);
      if es[0].depender == id {
        assert es[0] in es;
      } else if Depends(es[1..], id) {
        var e :| e in es[1..] && e.depender == id;
        assert e in es;
      }
    }
  }

  /** The relocation loop leaves an edge of `id` exactly when there was one or an entry before the failing one links. */
  lemma {:induction false} RelocateAllEdges(s: State, id: Id, rs: seq<Reloc>)
    requires forall y :: Find(s, y).Some? ==> Find(s, y).value.provider != id
    ensures Depends(RelocateAll(s, id, rs).0.edges, id) <==> Depends(s.edges, id) || LinksBeforeFailure(s, rs)
    ensures RelocateAll(s, id, rs).1 <==> !SomeFails(s, rs)
    decreases |rs|
  {
    if rs != [] && !Fails(s, rs[0]) {
      var t := Relocate(s, id, rs[0]).value;
      assert forall y :: Find(t, y) == Find(s, y);
      SameLookup(s, t, rs[1..]);
      RelocateAllEdges(t, id, rs[1..]);
      OneEdge(s, id, rs[0]);
    }
  }

  lemma OneEdge(s: State, id: Id, r: Reloc)
    requires !Fails(s, r) && (Links(s, r) ==> Find(s, r.sym).value.provider != id)
    ensures Relocate(s, id, r).Some?
    ensures Depends(Relocate(s, id, r).value.edges, id) <==> Depends(s.edges, id) || Links(s, r)
  {
    if Links(s, r) {
      var e := Edge(id, Find(s, r.sym).value.provider);
      assert ([e] + s.edges)[0] == e;
    }
  }

  lemma {:induction false} OtherEdges(s: State, id: Id, rs: seq<Reloc>, e: Edge)
    requires e.depender != id
    ensures e in RelocateAll(s, id, rs).0.edges <==> e in s.edges
    decreases |rs|
  {
    if rs != [] && Relocate(s, id, rs[0]).Some? { OtherEdges(Relocate(s, id, rs[0]).value, id, rs[1..], e); }
  }

  lemma AllocateLookup(s: State, id: Id, image: Image, left: Unset)
    requires Inv(s) && !Loaded(s.modules, id) && id != 0
    ensures var a := Allocate(s, id, image, left);
            && (forall y :: Find(a, y) == Find(s, y))
            && (forall y :: Find(a, y).Some? ==> Find(a, y).value.provider != id)
  {
    var a := Allocate(s, id, image, left);
    assert a.modules[1..] == s.modules;
    forall y | Find(a, y).Some? ensures Find(a, y).value.provider != id {
      if y !in s.globals { FoundProvider(s.modules, y); }
    }
  }

  /** A load succeeds exactly when no relocation entry fails. */
  lemma LoadSucceedsExact(s: State, id: Id, image: Image, left: Unset, fromFile: bool)
    requires Inv(s) && id != 0 && !Loaded(s.modules, id)
    ensures LoadImage(s, id, image, left, fromFile).1 <==> !SomeFails(s, image.relocs)
  {
    AllocateLookup(s, id, image, left);
    var a := Allocate(s, id, image, left);
    SameLookup(s, a, image.relocs);
    RelocateAllEdges(a, id, image.relocs);
  }

  /**
   * A failed load from a file destroys its record but not the edges it added: every depender is still loaded afterwards
   * if and only if no entry before the failing one was resolved to a symbol.
   */
  lemma FailedLoadExact(s: State, id: Id, image: Image, left: Unset)
    requires Inv(s) && DependersLoaded(s) && id != 0 && !Loaded(s.modules, id) && SomeFails(s, image.relocs)
    ensures DependersLoaded(LoadImage(s, id, image, left, true).0) <==> !LinksBeforeFailure(s, image.relocs)
  {
    AllocateLookup(s, id, image, left);
    LoadSucceedsExact(s, id, image, left, true);
    var a := Allocate(s, id, image, left);
    SameLookup(s, a, image.relocs);
    RelocateAllEdges(a, id, image.relocs);
    RelocateAllModules(a, id, image.relocs);
    var t := RelocateAll(a, id, image.relocs).0;
    DependsHas(s.edges, id);
    DependsHas(t.edges, id);
    assert !Depends(s.edges, id);
    assert a.modules[1..] == s.modules;
    DiscardedEdges(s, a, t, id, image.relocs);
  }

  lemma DiscardedEdges(s: State, a: State, t: State, id: Id, rs: seq<Reloc>)
    requires DependersLoaded(s) && a.edges == s.edges && t == RelocateAll(a, id, rs).0 && t.modules == a.modules
    requires a.modules != [] && a.modules[0].id == id && a.modules[1..] == s.modules
    ensures DependersLoaded(Discard(t, id)) <==> forall e :: e in t.edges ==> e.depender != id
  {
    var d := Discard(t, id);
    forall e | e in t.edges ensures Loaded(d.modules, e.depender) <==> e.depender != id {
      KeepLoaded(t.modules, {id}, e.depender);
      if e.depender != id {
        OtherEdges(a, id, rs, e);
        assert e in s.edges;
      }
    }
    assert forall e {:trigger e in d.edges} :: e in d.edges <==> e in t.edges;
  }

  // ---- Runs, built one operation at a time ----

  lemma {:induction false} RunSnoc(s: State, ops: seq<Op>, t: State, op: Op)
    requires IsRun(s, ops, t) && Legal(t, op)
    ensures IsRun(s, ops + [op], Apply(t, op))
    decreases |ops|
  {
    if ops == [] {
      assert IsRun(Apply(s, op), [], Apply(s, op));
      assert (ops + [op])[1..] == [];
    } else {
      RunSnoc(Apply(s, ops[0]), ops[1..], t, op);
      assert (ops + [op])[1..] == ops[1..] + [op];
    }
  }

  function Record(id: Id, image: Image, load: nat): Module {
    Module(id, image.name, image.deps, false, map[], image.base, image.size, load)
  }

  const NOTHING := Unset(None, [])

  /** A load with nothing to relocate or export. */
  lemma LoadBare(s: State, id: Id, image: Image, fromFile: bool)
    requires image.relocs == [] && image.exports == []
    ensures LoadImage(s, id, image, NOTHING, fromFile).0
         == s.(modules := [Record(id, image, s.loads + 1)] + s.modules, mem := WriteChunks(s.mem, image.base, image.chunks),
               uses := Without(s.uses, {id}), loads := s.loads + 1)
  {
    var a := Allocate(s, id, image, NOTHING);
    assert RelocateAll(a, id, []) == (a, true);
    assert DefineAll(a, id, []) == a;
    assert Amend(a.modules, id, image.name, image.deps, false) == [Record(id, image, s.loads + 1)] + a.modules[1..];
  }

  /** A load with one relocation, to a name that is not known. */
  lemma LoadWaiter(s: State, id: Id, image: Image, r: Reloc)
    requires r.External? && image.relocs == [r] && image.exports == [] && Find(s, r.sym).None? && r.sym !in s.pending
    ensures LoadImage(s, id, image, NOTHING, true).0
         == s.(modules := [Record(id, image, s.loads + 1)] + s.modules, mem := WriteChunks(s.mem, image.base, image.chunks),
               uses := Without(s.uses, {id}), loads := s.loads + 1,
               pending := s.pending[r.sym := [Loosy(r.site, r.kind, id, s.loads + 1)]])
  {
    var a := Allocate(s, id, image, NOTHING);
    assert a.modules[1..] == s.modules;
    assert Find(a, r.sym).None?;
    var t := Relocate(a, id, r).value;
    assert [Loosy(r.site, r.kind, id, s.loads + 1)] + [] == [Loosy(r.site, r.kind, id, s.loads + 1)];
    assert RelocateAll(t, id, [r][1..]) == (t, true);
    assert RelocateAll(a, id, [r]) == (t, true);
    assert DefineAll(t, id, []) == t;
    assert Amend(t.modules, id, image.name, image.deps, false) == [Record(id, image, s.loads + 1)] + t.modules[1..];
  }

  /** A load with one relocation, to a name that is known. */
  lemma LoadLinker(s: State, id: Id, image: Image, r: Reloc)
    requires r.External? && image.relocs == [r] && image.exports == [] && Find(s, r.sym).Some? && KnownKind(r.kind)
    ensures var t := LoadImage(s, id, image, NOTHING, true).0;
            && t.modules == [Record(id, image, s.loads + 1)] + s.modules && t.globals == s.globals && t.pending == s.pending
            && t.edges == AddEdge(s.edges, id, Find(s, r.sym).value.provider)
  {
    var a := Allocate(s, id, image, NOTHING);
    assert a.modules[1..] == s.modules;
    assert Find(a, r.sym) == Find(s, r.sym);
    var t := Relocate(a, id, r).value;
    assert RelocateAll(t, id, [r][1..]) == (t, true);
    assert RelocateAll(a, id, [r]) == (t, true);
    assert DefineAll(t, id, []) == t;
    assert Amend(t.modules, id, image.name, image.deps, false) == [Record(id, image, s.loads + 1)] + t.modules[1..];
  }

  /** A load that exports one name. */
  lemma LoadExporter(s: State, id: Id, image: Image, sym: string, addr: word)
    requires id != 0 && image.relocs == [] && image.exports == [(sym, addr)] && Find(s, sym).None?
    ensures var t := LoadImage(s, id, image, NOTHING, true).0;
            && t.modules == [Record(id, image, s.loads + 1).(symbols := map[sym := Symbol(id, addr)])] + s.modules
            && t.globals == s.globals && t.pending == s.pending - {sym}
            && t.edges == Fix(Allocate(s, id, image, NOTHING), id, sym, addr).edges
  {
    var a := Allocate(s, id, image, NOTHING);
    assert RelocateAll(a, id, []) == (a, true);
    assert a.modules[1..] == s.modules;
    assert Find(a, sym).None?;
    var f := Fix(a, id, sym, addr);
    FixRest(a, id, sym, addr);
    var d := Define(a, id, sym, addr);
    assert d.modules == [a.modules[0].(symbols := map[sym := Symbol(id, addr)])] + s.modules;
    assert image.exports[1..] == [];
    assert DefineAll(a, id, image.exports) == d;
    assert Amend(d.modules, id, image.name, image.deps, false)
        == [Record(id, image, s.loads + 1).(symbols := map[sym := Symbol(id, addr)])] + d.modules[1..];
  }

  /** Unloading the only module, which nothing depends on. */
  lemma UnloadOnly(s: State, m: Module, rank: Id -> nat)
    requires s.modules == [m] && s.edges == [] && s.uses == {} && m.deps == [] && !m.sticky
    ensures Acyclic(s.modules, rank) && Unload(s, m.id, rank) == s.(modules := [])
  {
    assert Unloadable(s, m.id);
    assert DepsOf(s.modules, m.id) == [];
    assert UnloadDeps(s, [], rank, rank(m.id)) == s;
    assert Keep(s.modules, {m.id}) == [];
    assert Without(s.uses, {m.id}) == {};
  }

  /** Module 1, whose image is the word `w` at `base`, waits for `sym` at that word and is unloaded. */
  lemma WaiterGone(mem: Bytes, base: int, w: seq<byte>, sym: string, rank: Id -> nat) returns (ops: seq<Op>, t: State)
    requires |w| == 4
    ensures IsRun(Start(mem), ops, t) && AllPlaced(ops)
    ensures t == State([], map[], map[sym := [Loosy(base, R_MIPS_32, 1, 1)]], [], WriteBytes(mem, base, w), {}, 1)
  {
    var s := Start(mem);
    var r := External(base, R_MIPS_32, sym);
    var image := Image(base, 4, [Chunk(0, w)], [r], [], None, []);
    LoadWaiter(s, 1, image, r);
    var a := Apply(s, Load(1, image, NOTHING, true));
    OneChunk(mem, base, w);
    assert a.modules == [Record(1, image, 1)];
    assert a.uses == {};
    UnloadOnly(a, Record(1, image, 1), rank);
    t := Apply(a, UnloadModule(1, rank));
    assert IsRun(s, [], s);
    RunSnoc(s, [], s, Load(1, image, NOTHING, true));
    RunSnoc(s, [] + [Load(1, image, NOTHING, true)], a, UnloadModule(1, rank));
    ops := [] + [Load(1, image, NOTHING, true)] + [UnloadModule(1, rank)];
  }

  lemma OneChunk(mem: Bytes, base: int, bs: seq<byte>)
    ensures WriteChunks(mem, base, [Chunk(0, bs)]) == WriteBytes(mem, base, bs)
  {
    var cs := [Chunk(0, bs)];
    assert cs[1..] == [];
    assert WriteChunks(WriteBytes(mem, base + 0, bs), base, cs[1..]) == WriteBytes(mem, base + 0, bs);
  }

  /**
   * A run that ends with an edge from an unloaded module: module 1 waits for a name and is unloaded, module 2 then
   * exports the name. Module 2 is then refused unloading.
   */
  lemma StaleDepender(mem: Bytes, sym: string, rank: Id -> nat) returns (ops: seq<Op>, t: State)
    ensures IsRun(Start(mem), ops, t)
    ensures Edge(1, 2) in t.edges && !Loaded(t.modules, 1) && Loaded(t.modules, 2)
    ensures Acyclic(t.modules, rank) && Unload(t, 2, rank) == t
  {
    var before, s := WaiterGone(mem, 0, [0, 0, 0, 0], sym, rank);
    var image := Image(16, 4, [], [], [(sym, 0)], None, []);
    LoadExporter(s, 2, image, sym, 0);
    t := Apply(s, Load(2, image, NOTHING, true));
    RunSnoc(Start(mem), before, s, Load(2, image, NOTHING, true));
    ops := before + [Load(2, image, NOTHING, true)];
    var a := Allocate(s, 2, image, NOTHING);
    var l := Loosy(0, R_MIPS_32, 1, 1);
    assert a.pending[sym] == [l] && [l][1..] == [];
    assert BindAll(a, [l], 2, 0) == BindAll(Bind(a, 1, 0, R_MIPS_32, 2, 0), [l][1..], 2, 0);
    assert t.edges == [Edge(1, 2)] + [];
    assert t.edges[0] == Edge(1, 2);
    ProvidesHas(t.edges, 2);
  }

  /** Module 2 is then loaded over that memory, with the word `v`. */
  lemma LoadedOver(mem: Bytes, base: int, w: seq<byte>, v: seq<byte>, sym: string, rank: Id -> nat) returns (ops: seq<Op>, s: State)
    requires |w| == 4 && |v| == 4
    ensures IsRun(Start(mem), ops, s)
    ensures s == State([Module(2, None, [], false, map[], base, 4, 2)], map[], map[sym := [Loosy(base, R_MIPS_32, 1, 1)]], [],
                       WriteBytes(WriteBytes(mem, base, w), base, v), {}, 2)
  {
    var before, u := WaiterGone(mem, base, w, sym, rank);
    var image := Image(base, 4, [Chunk(0, v)], [], [], None, []);
    LoadBare(u, 2, image, true);
    OneChunk(u.mem, base, v);
    s := Apply(u, Load(2, image, NOTHING, true));
    assert s.modules == [Record(2, image, 2)];
    assert s.uses == {};
    RunSnoc(Start(mem), before, u, Load(2, image, NOTHING, true));
    ops := before + [Load(2, image, NOTHING, true)];
  }

  /** The sum of a word and an address, as R_MIPS_32 stores it. */
  function Plus(x: int, a: int): int { (x + a) % 0x1_0000_0000 }

  /** When the name is then defined, the word that module 2 never asked to relocate is moved by the address. */
  lemma PatchedOver(mem: Bytes, base: int, w: seq<byte>, v: seq<byte>, sym: string, addr: word, rank: Id -> nat)
    returns (ops: seq<Op>, s: State)
    requires |w| == 4 && |v| == 4
    ensures IsRun(Start(mem), ops, s) && Inside(s.modules, 2, base) && !Loaded(s.modules, 1) && Read(s.mem, base) == Value(v)
    ensures Read(Define(s, 0, sym, addr).mem, base) == Plus(Value(v), addr)
  {
    ops, s := LoadedOver(mem, base, w, v, sym, rank);
    WordCopied(WriteBytes(mem, base, w), base, v);
    LonePatch(s, s.modules[0], sym, Loosy(base, R_MIPS_32, 1, 1), addr);
  }

  /** What relocating module 1 at once leaves. */
  lemma PatchedAtOnce(mem: Bytes, base: int, w: seq<byte>, addr: word)
    requires |w| == 4
    ensures Read(PatchAt(WriteBytes(mem, base, w), base, R_MIPS_32, addr), base) == Plus(Value(w), addr)
  {
    WordCopied(mem, base, w);
    Patched32(WriteBytes(mem, base, w), base, addr);
  }

  /**
   * A run in which a deferred relocation patches another module: the waiting module 1 is unloaded, module 2 is loaded over
   * its memory, and the name is then defined. That moves the word of module 2 by the address, so it changes unless the
   * address is 0, and it is the word of PatchedAtOnce only if the two images were the same.
   */
  lemma {:induction false} PatchesAnother(mem: Bytes, base: int, w: seq<byte>, v: seq<byte>, sym: string, addr: word, rank: Id -> nat)
    returns (ops: seq<Op>, s: State)
    requires |w| == 4 && |v| == 4
    ensures IsRun(Start(mem), ops, s) && Inside(s.modules, 2, base) && !Loaded(s.modules, 1) && Read(s.mem, base) == Value(v)
    ensures var after := Read(Define(s, 0, sym, addr).mem, base);
            && after == Plus(Value(v), addr)
            && (after == Value(v) <==> addr == 0)
            && (after == Plus(Value(w), addr) <==> Value(v) == Value(w))
  {
    ops, s := PatchedOver(mem, base, w, v, sym, addr, rank);
    WordRange();
    WordMoved(Value(v), Value(w), addr);
  }

  lemma WordMoved(x: int, y: int, a: word)
    requires 0 <= x < 0x1_0000_0000 && 0 <= y < 0x1_0000_0000
    ensures Plus(x, a) == x <==> a == 0
    ensures Plus(x, a) == Plus(y, a) <==> x == y
  {
    SumsDiffer(x, y, a);
    SumsDiffer(a, 0, x);
  }

  /**
   * A run in which the record address of the unloaded waiter is handed out again: the entry names a loaded record, but not
   * the one of the load that deferred it, so that its word is nobody's. It may lie in the new image all the same.
   */
  lemma AddressReused(mem: Bytes, base: int, w: seq<byte>, next: int, sym: string, rank: Id -> nat)
    returns (ops: seq<Op>, t: State, l: Loosy)
    requires |w| == 4
    ensures IsRun(Start(mem), ops, t) && AllPlaced(ops) && t.pending == map[sym := [l]]
    ensures Loaded(t.modules, l.erl) && !Current(t.modules, l.erl, l.load) && !Owned(t.modules, l.load, l.site)
    ensures Inside(t.modules, l.erl, l.site) <==> next == base
  {
    var before, u := WaiterGone(mem, base, w, sym, rank);
    var image := Image(next, 4, [], [], [], None, []);
    LoadBare(u, 1, image, true);
    l := Loosy(base, R_MIPS_32, 1, 1);
    t := Apply(u, Load(1, image, NOTHING, true));
    assert t.modules == [Record(1, image, 2)] && t.modules[1..] == [];
    RunSnoc(Start(mem), before, u, Load(1, image, NOTHING, true));
    ops := before + [Load(1, image, NOTHING, true)];
  }

  lemma {:induction false} WordCopied(mem: Bytes, base: int, w: seq<byte>)
    requires |w| == 4
    ensures Read(WriteBytes(mem, base, w), base) == Value(w)
  {
    ReadBytesWritten(mem, base, w);
  }

  lemma Patched32(m: Bytes, site: int, addr: word)
    ensures Read(PatchAt(m, site, R_MIPS_32, addr), site) == Plus(Read(m, site), addr)
  {
    PatchedWord(m, site, R_MIPS_32, addr);
  }

  lemma SumsDiffer(x: int, y: int, a: int)
    requires -0x1_0000_0000 < x - y < 0x1_0000_0000
    ensures Plus(x, a) == Plus(y, a) <==> x == y
  {
    if Plus(x, a) == Plus(y, a) { AddInjective(x, y, a, 0x1_0000_0000); }
  }

  /** Defining the one name that is pending patches the one word that waits for it. */
  lemma LonePatch(s: State, m: Module, sym: string, l: Loosy, addr: word)
    requires s.modules == [m] && m.symbols == map[] && s.globals == map[] && s.pending == map[sym := [l]] && l.kind == R_MIPS_32
    ensures Read(Define(s, 0, sym, addr).mem, l.site) == Plus(Read(s.mem, l.site), addr)
  {
    assert FindIn(s.modules[1..], sym).None?;
    assert [l][1..] == [];
    assert NearSite([l][1..], l.site) == 0;
    BindAllOnce(s, [l], 0, addr, l);
    Patched32(s.mem, l.site, addr);
  }

  /** An image whose second entry is bad, loaded from a file: the edge of its first entry stays, and its module is gone. */
  lemma FailedLoadLeavesEdge(mem: Bytes, sym: string, addr: word) returns (s: State, image: Image)
    requires !IsLocal(sym)
    ensures IsRun(Start(mem), [AddGlobal(sym, addr)], s) && Inv(s) && DependersLoaded(s)
    ensures !LoadImage(s, 1, image, NOTHING, true).1 && !DependersLoaded(LoadImage(s, 1, image, NOTHING, true).0)
  {
    var start := Start(mem);
    s := Apply(start, AddGlobal(sym, addr));
    assert IsRun(start, [], start);
    RunSnoc(start, [], start, AddGlobal(sym, addr));
    assert [] + [AddGlobal(sym, addr)] == [AddGlobal(sym, addr)];
    RunKeepsInv(start, [AddGlobal(sym, addr)], s);
    var first := External(0, R_MIPS_32, sym);
    image := Image(0, 4, [], [first, Unknown], [], None, []);
    assert Find(s, sym).Some?;
    assert image.relocs[1..] == [Unknown];
    assert SomeFails(s, [Unknown]);
    LoadSucceedsExact(s, 1, image, NOTHING, true);
    FailedLoadExact(s, 1, image, NOTHING);
  }

  /** A declared dependency that the unloaded module is linked to stays loaded. */
  lemma LinkedDependencyStays(mem: Bytes, sym: string, rank: Id -> nat) returns (ops: seq<Op>, s: State)
    requires !IsLocal(sym) && rank(2) < rank(1)
    ensures IsRun(Start(mem), ops, s) && Loaded(s.modules, 1) && Acyclic(s.modules, rank)
    ensures "lib" in DepsOf(s.modules, 1) && FindErl(s.modules, "lib") == Some(2)
    ensures Unloadable(s, 1) && !Loaded(Unload(s, 1, rank).modules, 1) && Loaded(Unload(s, 1, rank).modules, 2)
  {
    var start := Start(mem);
    var lib := Image(0, 4, [], [], [(sym, 0)], Some("lib"), []);
    LoadExporter(start, 2, lib, sym, 0);
    var u := Apply(start, Load(2, lib, NOTHING, true));
    var r := External(16, R_MIPS_32, sym);
    var user := Image(16, 4, [], [r], [], None, ["lib"]);
    assert u.modules == [Record(2, lib, 1).(symbols := map[sym := Symbol(2, 0)])];
    assert Find(u, sym) == Some(Symbol(2, 0));
    LoadLinker(u, 1, user, r);
    s := Apply(u, Load(1, user, NOTHING, true));
    assert IsRun(start, [], start);
    RunSnoc(start, [], start, Load(2, lib, NOTHING, true));
    RunSnoc(start, [] + [Load(2, lib, NOTHING, true)], u, Load(1, user, NOTHING, true));
    ops := [] + [Load(2, lib, NOTHING, true)] + [Load(1, user, NOTHING, true)];
    LinkedStays(s, rank);
  }

  lemma LinkedStays(s: State, rank: Id -> nat)
    requires |s.modules| == 2 && s.modules[0].id == 1 && s.modules[0].name.None? && s.modules[0].deps == ["lib"]
    requires !s.modules[0].sticky && s.modules[1].id == 2 && s.modules[1].name == Some("lib") && s.modules[1].deps == []
    requires s.edges == [Edge(1, 2)] && rank(2) < rank(1)
    ensures Loaded(s.modules, 1) && Acyclic(s.modules, rank)
    ensures "lib" in DepsOf(s.modules, 1) && FindErl(s.modules, "lib") == Some(2)
    ensures Unloadable(s, 1) && !Loaded(Unload(s, 1, rank).modules, 1) && Loaded(Unload(s, 1, rank).modules, 2)
  {
    assert s.modules[1..] == [s.modules[1]];
    assert FindErl(s.modules[1..], "lib") == Some(2);
    assert forall m :: m in s.modules ==> m == s.modules[0] || m == s.modules[1];
    assert s.edges[1..] == [];
    var gone := UnloadRemoves(s, 1, rank);
    assert Edge(1, 2) in s.edges;
    KeepLoaded(s.modules, gone + {1}, 1);
    KeepLoaded(s.modules, gone + {1}, 2);
    assert Loaded(s.modules[1..], 2);
  }
}
