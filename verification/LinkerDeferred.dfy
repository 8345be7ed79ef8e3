/** Deferred ("loosy") relocations of the ERL linker (ee/erl/src/erl.c): when they are patched, and with what. */
module LinkerDeferred {
  import opened Basics
  import opened Relocation
  import opened SparseMemory
  import opened LinkerSpec
  import opened LinkerUnload
  import opened LinkerRun

  /** How many of `ls` patch a byte of the word at `site`. */
  function NearSite(ls: seq<Loosy>, site: int): nat {
    if ls == [] then 0 else (if Near(ls[0].site, site) then 1 else 0) + NearSite(ls[1..], site)
  }

  /** `l` waits for `sym`, and nothing else that is pending touches its word. */
  ghost predicate Waiting(s: State, sym: string, l: Loosy) {
    && sym in s.pending && l in s.pending[sym] && NearSite(s.pending[sym], l.site) == 1
    && forall y {:trigger y in s.pending} :: y in s.pending && y != sym ==> NearSite(s.pending[y], l.site) == 0
  }

  /** `l` still waits in `t` and its word is what it was in `s`. */
  ghost predicate Waits(s: State, t: State, sym: string, l: Loosy) {
    Waiting(t, sym, l) && Read(t.mem, l.site) == Read(s.mem, l.site)
  }

  predicate RelocAvoids(r: Reloc, site: int) { r.Unknown? || !Near(r.site, site) }

  /** The image does not relocate a byte of the word at `site`. */
  ghost predicate RelocsAvoid(rs: seq<Reloc>, site: int) {
    forall i {:trigger rs[i]} :: 0 <= i < |rs| ==> RelocAvoids(rs[i], site)
  }

  ghost predicate NotExported(exports: seq<(string, word)>, sym: string) {
    forall i {:trigger exports[i]} :: 0 <= i < |exports| ==> exports[i].0 != sym
  }

  predicate Mentions(op: Op, sym: string) {
    match op
    case AddGlobal(y, _) => y == sym
    case Load(_, image, _, _) => exists i :: 0 <= i < |image.exports| && image.exports[i].0 == sym
    case SetSticky(_, _) => false
    case UnloadModule(_, _) => false
  }

  /** A load gets memory that no loaded image occupies, and stays inside it. */
  ghost predicate Housed(s: State, op: Op) {
    op.Load? ==> WellPlaced(op.image) && Clear(s.modules, op.image.base, op.image.size)
  }

  /** A run in which loads are housed, module `id` stays loaded and `sym` is not defined. */
  ghost predicate Undisturbed(s: State, ops: seq<Op>, id: Id, sym: string)
    decreases |ops|
  {
    ops == [] ||
    (Legal(s, ops[0]) && Housed(s, ops[0]) && !Mentions(ops[0], sym) && Loaded(Apply(s, ops[0]).modules, id)
     && Undisturbed(Apply(s, ops[0]), ops[1..], id, sym))
  }

  // ---- Patching a list of sites ----

  lemma PatchApart(mem: Bytes, site: int, kind: int, addr: word, b: int)
    requires !Near(site, b)
    ensures Read(PatchAt(mem, site, kind, addr), b) == Read(mem, b)
  {
    match ApplyReloc(Read(mem, site), kind, addr)
    case Patched(w) => ReadApart(mem, site, w, b);
    case BadType =>
  }

  lemma {:induction false} BindAllElsewhere(s: State, ls: seq<Loosy>, provider: Id, addr: word, site: int)
    requires NearSite(ls, site) == 0
    ensures var t := BindAll(s, ls, provider, addr);
            t.pending == s.pending && Read(t.mem, site) == Read(s.mem, site)
    decreases |ls|
  {
    if ls != [] {
      PatchApart(s.mem, ls[0].site, ls[0].kind, addr, site);
      BindAllElsewhere(Bind(s, ls[0].erl, ls[0].site, ls[0].kind, provider, addr), ls[1..], provider, addr, site);
    }
  }

  /** A definition changes only bytes of words that wait for the name. */
  lemma {:induction false} BindAllBytes(s: State, ls: seq<Loosy>, provider: Id, addr: word, a: int)
    requires forall l :: l in ls ==> a < l.site || l.site + 4 <= a
    ensures ByteAt(BindAll(s, ls, provider, addr).mem, a) == ByteAt(s.mem, a)
    decreases |ls|
  {
    if ls != [] {
      assert ls[0] in ls;
      match ApplyReloc(Read(s.mem, ls[0].site), ls[0].kind, addr) {
        case Patched(w) => BytesOutside(s.mem, ls[0].site, Digits(w, 4), a);
        case BadType =>
      }
      BindAllBytes(Bind(s, ls[0].erl, ls[0].site, ls[0].kind, provider, addr), ls[1..], provider, addr, a);
    }
  }

  /** A word that one entry of the list touches is patched once, by that entry, wherever the entry stands in the list. */
  lemma {:induction false} BindAllOnce(s: State, ls: seq<Loosy>, provider: Id, addr: word, l: Loosy)
    requires l in ls && NearSite(ls, l.site) == 1
    ensures Read(BindAll(s, ls, provider, addr).mem, l.site) == Read(PatchAt(s.mem, l.site, l.kind, addr), l.site)
    decreases |ls|
  {
    var t := Bind(s, ls[0].erl, ls[0].site, ls[0].kind, provider, addr);
    if Near(ls[0].site, l.site) {
      NotNear(ls[1..], l);
      BindAllElsewhere(t, ls[1..], provider, addr, l.site);
    } else {
      BindAllOnce(t, ls[1..], provider, addr, l);
      PatchSame(s.mem, t.mem, ls[0], l, addr);
    }
  }

  lemma PatchSame(m: Bytes, m': Bytes, o: Loosy, l: Loosy, addr: word)
    requires !Near(o.site, l.site) && m' == PatchAt(m, o.site, o.kind, addr)
    ensures Read(PatchAt(m', l.site, l.kind, addr), l.site) == Read(PatchAt(m, l.site, l.kind, addr), l.site)
  {
    PatchApart(m, o.site, o.kind, addr, l.site);
    PatchedWord(m, l.site, l.kind, addr);
    PatchedWord(m', l.site, l.kind, addr);
  }

  /** The patched word depends on the word alone. */
  lemma PatchedWord(m: Bytes, site: int, kind: int, addr: word)
    ensures var p := ApplyReloc(Read(m, site), kind, addr);
            Read(PatchAt(m, site, kind, addr), site) == if p.Patched? then p.w else Read(m, site)
  {
    match ApplyReloc(Read(m, site), kind, addr)
    case Patched(w) => ReadWritten(m, site, w);
    case BadType =>
  }

  lemma {:induction false} NotNear(ls: seq<Loosy>, l: Loosy)
    requires NearSite(ls, l.site) == 0
    ensures l !in ls
  {
    if ls != [] { NotNear(ls[1..], l); }
  }

  // ---- A waiting relocation is left alone ----

  lemma SamePending(s: State, t: State, sym: string, l: Loosy)
    requires Waiting(s, sym, l) && t.pending == s.pending && Read(t.mem, l.site) == Read(s.mem, l.site)
    ensures Waits(s, t, sym, l)
  {
    assert forall y :: y in t.pending ==> y in s.pending;
  }

  lemma FixWaits(s: State, provider: Id, y: string, addr: word, sym: string, l: Loosy)
    requires Waiting(s, sym, l) && y != sym
    ensures Waits(s, Fix(s, provider, y, addr), sym, l)
  {
    if y in s.pending {
      BindAllElsewhere(s, s.pending[y], provider, addr, l.site);
      var t := Fix(s, provider, y, addr);
      forall z | z in t.pending && z != sym ensures NearSite(t.pending[z], l.site) == 0 {
        assert z in s.pending;
      }
    }
  }

  lemma DefineWaits(s: State, owner: Id, y: string, addr: word, sym: string, l: Loosy)
    requires Waiting(s, sym, l) && y != sym
    ensures Waits(s, Define(s, owner, y, addr), sym, l)
  {
    if Definable(s, y) {
      FixWaits(s, owner, y, addr, sym, l);
      SamePending(Fix(s, owner, y, addr), Define(s, owner, y, addr), sym, l);
    }
  }

  lemma {:induction false} DefineAllWaits(s: State, id: Id, exports: seq<(string, word)>, sym: string, l: Loosy)
    requires Waiting(s, sym, l) && NotExported(exports, sym)
    ensures Waits(s, DefineAll(s, id, exports), sym, l)
    decreases |exports|
  {
    if exports != [] {
      DefineWaits(s, id, exports[0].0, exports[0].1, sym, l);
      DefineAllWaits(Define(s, id, exports[0].0, exports[0].1), id, exports[1..], sym, l);
    }
  }

  lemma DeferWaits(s: State, y: string, m: Loosy, sym: string, l: Loosy)
    requires Waiting(s, sym, l) && !Near(m.site, l.site)
    ensures Waits(s, Defer(s, y, m), sym, l)
  {
    var t := Defer(s, y, m);
    forall z | z in t.pending && z != sym ensures NearSite(t.pending[z], l.site) == 0 {
      if z in s.pending {
        if z == y { assert t.pending[z][1..] == s.pending[z]; }
      }
    }
    if y == sym { assert t.pending[sym][1..] == s.pending[sym]; assert l in t.pending[sym][1..]; }
  }

  lemma RelocateWaits(s: State, id: Id, r: Reloc, sym: string, l: Loosy)
    requires Waiting(s, sym, l) && RelocAvoids(r, l.site) && Relocate(s, id, r).Some?
    ensures Waits(s, Relocate(s, id, r).value, sym, l)
  {
    if r.External? && Find(s, r.sym).None? {
      DeferWaits(s, r.sym, Loosy(r.site, r.kind, id, s.loads), sym, l);
    } else {
      RelocateElsewhere(s, id, r, l.site);
      SamePending(s, Relocate(s, id, r).value, sym, l);
    }
  }

  /** A relocation entry changes no word that it does not touch. */
  lemma RelocateElsewhere(s: State, id: Id, r: Reloc, site: int)
    requires RelocAvoids(r, site) && Relocate(s, id, r).Some?
    ensures Read(Relocate(s, id, r).value.mem, site) == Read(s.mem, site)
  {
    match r
    case External(a, kind, y) => if Find(s, y).Some? { PatchApart(s.mem, a, kind, Find(s, y).value.address, site); }
    case InSection(a, kind, addr) => PatchApart(s.mem, a, kind, addr, site);
    case Internal(a, kind, y, addr) =>
      PatchApart(s.mem, a, kind, if Find(s, y).Some? then Find(s, y).value.address else addr, site);
    case Unknown =>
  }

  lemma {:induction false} RelocateAllWaits(s: State, id: Id, rs: seq<Reloc>, sym: string, l: Loosy)
    requires Waiting(s, sym, l) && RelocsAvoid(rs, l.site)
    ensures Waits(s, RelocateAll(s, id, rs).0, sym, l)
    decreases |rs|
  {
    if rs != [] && Relocate(s, id, rs[0]).Some? {
      assert RelocAvoids(rs[0], l.site);
      RelocateWaits(s, id, rs[0], sym, l);
      RelocateAllWaits(Relocate(s, id, rs[0]).value, id, rs[1..], sym, l);
    }
  }

  lemma FinishWaits(s: State, id: Id, image: Image, fromFile: bool, sym: string, l: Loosy)
    requires Waiting(s, sym, l) && RelocsAvoid(image.relocs, l.site) && NotExported(image.exports, sym)
    ensures Waits(s, FinishLoad(s, id, image, fromFile).0, sym, l)
  {
    RelocateAllWaits(s, id, image.relocs, sym, l);
    var (t, ok) := RelocateAll(s, id, image.relocs);
    if ok {
      DefineAllWaits(t, id, image.exports, sym, l);
      SamePending(DefineAll(t, id, image.exports), FinishLoad(s, id, image, fromFile).0, sym, l);
    } else {
      SamePending(t, FinishLoad(s, id, image, fromFile).0, sym, l);
    }
  }

  // ---- Images keep to themselves ----

  lemma {:induction false} InsideApart(ms: seq<Module>, id: Id, site: int, base: int, size: nat)
    requires Inside(ms, id, site) && Clear(ms, base, size)
    ensures site + 4 <= base || base + size <= site
  {
    if ms[0].id != id { InsideApart(ms[1..], id, site, base, size); }
  }

  lemma {:induction false} ChunksOutside(mem: Bytes, base: int, cs: seq<Chunk>, size: nat, site: int)
    requires site + 4 <= base || base + size <= site
    requires forall i {:trigger cs[i]} :: 0 <= i < |cs| ==> cs[i].offset + |cs[i].bytes| <= size
    ensures Read(WriteChunks(mem, base, cs), site) == Read(mem, site)
    decreases |cs|
  {
    if cs != [] {
      var m := WriteBytes(mem, base + cs[0].offset, cs[0].bytes);
      ReadBytesOutside(mem, base + cs[0].offset, cs[0].bytes, site, 4);
      ChunksOutside(m, base, cs[1..], size, site);
    }
  }

  /** A housed load of another module neither writes nor relocates a word of a loaded image. */
  lemma HousedAvoids(s: State, id: Id, site: int, image: Image, other: Id, left: Unset)
    requires Inside(s.modules, id, site) && WellPlaced(image) && Clear(s.modules, image.base, image.size)
    ensures Read(Allocate(s, other, image, left).mem, site) == Read(s.mem, site)
    ensures RelocsAvoid(image.relocs, site)
  {
    InsideApart(s.modules, id, site, image.base, image.size);
    ChunksOutside(s.mem, image.base, image.chunks, image.size, site);
    forall i | 0 <= i < |image.relocs| ensures RelocAvoids(image.relocs[i], site) {
      assert RelocInside(image.relocs[i], image.base, image.size);
    }
  }

  lemma {:induction false} EnterInInside(ms: seq<Module>, owner: Id, sym: string, addr: word, id: Id, site: int)
    ensures Inside(EnterIn(ms, owner, sym, addr), id, site) <==> Inside(ms, id, site)
  {
    if ms != [] {
      EnterInInside(ms[1..], owner, sym, addr, id, site);
      var r := EnterIn(ms, owner, sym, addr);
      assert r[1..] == if ms[0].id == owner then ms[1..] else EnterIn(ms[1..], owner, sym, addr);
    }
  }

  lemma {:induction false} AmendInside(ms: seq<Module>, other: Id, name: Option<string>, deps: seq<string>, sticky: bool,
                                       id: Id, site: int)
    ensures Inside(Amend(ms, other, name, deps, sticky), id, site) <==> Inside(ms, id, site)
  {
    if ms != [] {
      AmendInside(ms[1..], other, name, deps, sticky, id, site);
      var r := Amend(ms, other, name, deps, sticky);
      assert r[1..] == if ms[0].id == other then ms[1..] else Amend(ms[1..], other, name, deps, sticky);
    }
  }

  lemma {:induction false} KeepInside(ms: seq<Module>, gone: set<Id>, id: Id, site: int)
    requires id !in gone
    ensures Inside(Keep(ms, gone), id, site) <==> Inside(ms, id, site)
  {
    if ms != [] {
      KeepInside(ms[1..], gone, id, site);
      KeepSplit(ms, gone);
    }
  }

  lemma {:induction false} InsideLoaded(ms: seq<Module>, id: Id, site: int)
    requires Inside(ms, id, site)
    ensures Loaded(ms, id)
  {
    if ms[0].id != id { InsideLoaded(ms[1..], id, site); }
  }

  lemma DefineInside(s: State, owner: Id, sym: string, addr: word, id: Id, site: int)
    ensures Inside(Define(s, owner, sym, addr).modules, id, site) <==> Inside(s.modules, id, site)
  {
    if Definable(s, sym) {
      FixRest(s, owner, sym, addr);
      EnterInInside(s.modules, owner, sym, addr, id, site);
    }
  }

  lemma {:induction false} BindAllRest(s: State, ls: seq<Loosy>, provider: Id, addr: word)
    ensures var t := BindAll(s, ls, provider, addr);
            t.modules == s.modules && t.globals == s.globals && t.pending == s.pending && t.loads == s.loads
    decreases |ls|
  {
    if ls != [] { BindAllRest(Bind(s, ls[0].erl, ls[0].site, ls[0].kind, provider, addr), ls[1..], provider, addr); }
  }

  lemma FixRest(s: State, provider: Id, sym: string, addr: word)
    ensures var t := Fix(s, provider, sym, addr);
            t.modules == s.modules && t.globals == s.globals && t.pending == s.pending - {sym} && t.loads == s.loads
  {
    if sym in s.pending { BindAllRest(s, s.pending[sym], provider, addr); } else { assert s.pending - {sym} == s.pending; }
  }

  lemma {:induction false} DefineAllInside(s: State, owner: Id, exports: seq<(string, word)>, id: Id, site: int)
    ensures Inside(DefineAll(s, owner, exports).modules, id, site) <==> Inside(s.modules, id, site)
    decreases |exports|
  {
    if exports != [] {
      DefineInside(s, owner, exports[0].0, exports[0].1, id, site);
      DefineAllInside(Define(s, owner, exports[0].0, exports[0].1), owner, exports[1..], id, site);
    }
  }

  lemma {:induction false} RelocateAllModules(s: State, id: Id, rs: seq<Reloc>)
    ensures RelocateAll(s, id, rs).0.modules == s.modules && RelocateAll(s, id, rs).0.loads == s.loads
    decreases |rs|
  {
    if rs != [] && Relocate(s, id, rs[0]).Some? { RelocateAllModules(Relocate(s, id, rs[0]).value, id, rs[1..]); }
  }

  lemma FinishInside(s: State, other: Id, image: Image, fromFile: bool, id: Id, site: int)
    requires Inside(s.modules, id, site) && Loaded(FinishLoad(s, other, image, fromFile).0.modules, id)
    ensures Inside(FinishLoad(s, other, image, fromFile).0.modules, id, site)
  {
    RelocateAllModules(s, other, image.relocs);
    var (t, ok) := RelocateAll(s, other, image.relocs);
    if ok {
      DefineAllInside(t, other, image.exports, id, site);
      AmendInside(DefineAll(t, other, image.exports).modules, other, image.name, image.deps, false, id, site);
    } else if fromFile {
      KeepLoaded(t.modules, {other}, id);
      KeepInside(t.modules, {other}, id, site);
    }
  }

  lemma ApplyInside(s: State, op: Op, id: Id, site: int)
    requires Inside(s.modules, id, site) && Legal(s, op) && Loaded(Apply(s, op).modules, id)
    ensures Inside(Apply(s, op).modules, id, site)
  {
    match op
    case AddGlobal(y, addr) => DefineInside(s, 0, y, addr, id, site);
    case Load(other, image, left, fromFile) =>
      InsideLoaded(s.modules, id, site);
      assert Allocate(s, other, image, left).modules[1..] == s.modules;
      FinishInside(Allocate(s, other, image, left), other, image, fromFile, id, site);
    case SetSticky(other, sticky) =>
      AmendInside(s.modules, other, NameOf(s.modules, other), DepsOf(s.modules, other), sticky, id, site);
    case UnloadModule(other, rank) =>
      if Unloadable(s, other) {
        var gone := UnloadRemoves(s, other, rank);
        KeepLoaded(s.modules, gone + {other}, id);
        KeepInside(s.modules, gone + {other}, id, site);
      }
  }

  lemma ApplyWaits(s: State, op: Op, id: Id, sym: string, l: Loosy)
    requires Waiting(s, sym, l) && Inside(s.modules, id, l.site) && Legal(s, op) && Housed(s, op) && !Mentions(op, sym)
    ensures Waits(s, Apply(s, op), sym, l)
  {
    match op
    case AddGlobal(y, addr) => DefineWaits(s, 0, y, addr, sym, l);
    case Load(other, image, left, fromFile) =>
      HousedAvoids(s, id, l.site, image, other, left);
      SamePending(s, Allocate(s, other, image, left), sym, l);
      FinishWaits(Allocate(s, other, image, left), other, image, fromFile, sym, l);
    case SetSticky(other, sticky) => SamePending(s, Apply(s, op), sym, l);
    case UnloadModule(other, rank) =>
      if Unloadable(s, other) { var gone := UnloadRemoves(s, other, rank); }
      SamePending(s, Apply(s, op), sym, l);
  }

  lemma {:induction false} RunWaits(s: State, ops: seq<Op>, t: State, id: Id, sym: string, l: Loosy)
    requires Waiting(s, sym, l) && Inside(s.modules, id, l.site) && IsRun(s, ops, t) && Undisturbed(s, ops, id, sym)
    ensures Waits(s, t, sym, l)
    decreases |ops|
  {
    if ops != [] {
      ApplyWaits(s, ops[0], id, sym, l);
      ApplyInside(s, ops[0], id, l.site);
      RunWaits(Apply(s, ops[0]), ops[1..], t, id, sym, l);
    }
  }

  lemma DeferredWaiting(s: State, sym: string, l: Loosy)
    requires forall y :: y in s.pending ==> NearSite(s.pending[y], l.site) == 0
    ensures Waits(s, Defer(s, sym, l), sym, l)
  {
    var t := Defer(s, sym, l);
    assert t.pending[sym][0] == l;
    assert t.pending[sym][1..] == if sym in s.pending then s.pending[sym] else [];
  }

  lemma DefinePatches(t: State, owner: Id, sym: string, addr: word, l: Loosy)
    requires Inv(t) && Waiting(t, sym, l)
    ensures Read(Define(t, owner, sym, addr).mem, l.site) == Read(PatchAt(t.mem, l.site, l.kind, addr), l.site)
    ensures sym !in Define(t, owner, sym, addr).pending
  {
    assert Definable(t, sym);
    BindAllOnce(t, t.pending[sym], owner, addr, l);
  }

  // ---- Deferred or at once ----

  /**
   * In the middle of a load a relocation to an unknown name is deferred; the load succeeds, and a run follows in which
   * the module stays loaded and the name is not defined. When the name is then defined, the word becomes what relocating
   * at once would have made it, and nothing stays pending under the name.
   */
  lemma DeferredIsImmediate(s: State, id: Id, site: int, kind: int, sym: string, rest: Image, fromFile: bool,
                            ops: seq<Op>, t: State, owner: Id, addr: word)
    requires Inv(s) && id != 0 && Unprovided(s, id) && Inside(s.modules, id, site)
    requires Find(s, sym).None? && forall y :: y in s.pending ==> NearSite(s.pending[y], site) == 0
    requires RelocsAvoid(rest.relocs, site) && NotExported(rest.exports, sym)
    requires FinishLoad(Relocate(s, id, External(site, kind, sym)).value, id, rest, fromFile).1
    requires var b := FinishLoad(Relocate(s, id, External(site, kind, sym)).value, id, rest, fromFile).0;
             IsRun(b, ops, t) && Undisturbed(b, ops, id, sym)
    ensures Read(Define(t, owner, sym, addr).mem, site) == Read(Bind(s, id, site, kind, owner, addr).mem, site)
    ensures sym !in Define(t, owner, sym, addr).pending
  {
    var l := Loosy(site, kind, id, s.loads);
    var a := Relocate(s, id, External(site, kind, sym)).value;
    InsideLoaded(s.modules, id, site);
    DeferredWaiting(s, sym, l);
    LoadWaits(a, id, rest, fromFile, sym, l);
    var b := FinishLoad(a, id, rest, fromFile).0;
    RunWaits(b, ops, t, id, sym, l);
    RelocateKeeps(s, id, External(site, kind, sym));
    FinishKeeps(a, id, rest, fromFile);
    RunKeepsInv(b, ops, t);
    DefinePatches(t, owner, sym, addr, l);
    PatchedWord(s.mem, site, kind, addr);
    PatchedWord(t.mem, site, kind, addr);
  }

  lemma LoadWaits(a: State, id: Id, rest: Image, fromFile: bool, sym: string, l: Loosy)
    requires Waiting(a, sym, l) && Inside(a.modules, id, l.site) && FinishLoad(a, id, rest, fromFile).1
    requires RelocsAvoid(rest.relocs, l.site) && NotExported(rest.exports, sym)
    ensures var b := FinishLoad(a, id, rest, fromFile).0; Waits(a, b, sym, l) && Inside(b.modules, id, l.site)
  {
    FinishWaits(a, id, rest, fromFile, sym, l);
    RelocateAllModules(a, id, rest.relocs);
    var t := RelocateAll(a, id, rest.relocs).0;
    DefineAllInside(t, id, rest.exports, id, l.site);
    AmendInside(DefineAll(t, id, rest.exports).modules, id, rest.name, rest.deps, false, id, l.site);
  }

  lemma PatchInjective(w: word, v: word, kind: int, addr: word)
    requires KnownKind(kind) && ApplyReloc(w, kind, addr) == ApplyReloc(v, kind, addr)
    ensures w == v
  {
    if kind == R_MIPS_26 {
      AddInjective(w % 0x400_0000, v % 0x400_0000, addr / 4, 0x400_0000);
    } else if kind == R_MIPS_HI16 {
      AddInjective(Sext(w % 0x1_0000), Sext(v % 0x1_0000), addr / 0x1_0000 + (if addr % 0x1_0000 >= 0x8000 then 1 else 0), 0x1_0000);
    } else if kind == R_MIPS_LO16 {
      AddInjective(Sext(w % 0x1_0000), Sext(v % 0x1_0000), addr % 0x1_0000, 0x1_0000);
    } else {
      AddInjective(w, v, addr, 0x1_0000_0000);
    }
  }

  lemma AddInjective(x: int, y: int, a: int, m: int)
    requires m == 0x400_0000 || m == 0x1_0000 || m == 0x1_0000_0000
    requires (x + a) % m == (y + a) % m && -m < x - y < m
    ensures x == y
  {
  }

  /**
   * Whatever happened since: with the entry alone at its word, the definition leaves the word that relocating `was` at once
   * would have left if and only if the word still is `was`.
   */
  lemma DeferredExact(t: State, owner: Id, sym: string, addr: word, l: Loosy, was: word)
    requires Inv(t) && Waiting(t, sym, l) && KnownKind(l.kind)
    ensures ApplyReloc(was, l.kind, addr).Patched?
    ensures Read(Define(t, owner, sym, addr).mem, l.site) == ApplyReloc(was, l.kind, addr).w <==> Read(t.mem, l.site) == was
  {
    DefinePatches(t, owner, sym, addr, l);
    PatchedWord(t.mem, l.site, l.kind, addr);
    if ApplyReloc(Read(t.mem, l.site), l.kind, addr) == ApplyReloc(was, l.kind, addr) {
      PatchInjective(Read(t.mem, l.site), was, l.kind, addr);
    }
  }
}
