/** The state of the ERL linker (ee/erl/src/erl.c) as a value, its steps, and what every run of them keeps. */
module LinkerSpec {
  import opened Basics
  import opened Relocation
  import opened SparseMemory

  type Id = int    // an erl record; 0 is NULL, the owner of global symbols

  datatype Symbol = Symbol(provider: Id, address: word)
  /** A deferred relocation; `load` is history, the number of the load that deferred it. */
  datatype Loosy = Loosy(site: int, kind: int, erl: Id, load: nat)

  datatype Edge = Edge(depender: Id, provider: Id)

  /** A record; its image occupies `size` bytes at `base`. `load` is history: the number of the load that made it. */
  datatype Module = Module(id: Id, name: Option<string>, deps: seq<string>, sticky: bool, symbols: map<string, Symbol>,
                           base: int, size: nat, load: nat)

  /**
   * `modules` is the record list, newest first; `pending` the loosy relocations by symbol, newest first;
   * `edges` the dependency list. `uses` and `loads` are history: who holds a relocation resolved to whose symbol, and
   * how many loads there have been.
   */
  datatype State = State(modules: seq<Module>, globals: map<string, Symbol>, pending: map<string, seq<Loosy>>,
                         edges: seq<Edge>, mem: Bytes, uses: set<Edge>, loads: nat)

  const LOCAL_NAMES: set<string> := {"_init", "_fini", "erl_id", "erl_dependancies", "erl_copyright", "erl_version", "_start"}

  predicate IsLocal(sym: string) { sym in LOCAL_NAMES }

  // ---- Lookup ----

  predicate Loaded(ms: seq<Module>, id: Id) {
    ms != [] && (ms[0].id == id || Loaded(ms[1..], id))
  }

  function FindIn(ms: seq<Module>, sym: string): Option<Symbol> {
    if ms == [] then None
    else if sym in ms[0].symbols then Some(ms[0].symbols[sym])
    else FindIn(ms[1..], sym)
  }

  /** erl_find_symbol: the global table first, then every module. */
  function Find(s: State, sym: string): Option<Symbol> {
    if sym in s.globals then Some(s.globals[sym]) else FindIn(s.modules, sym)
  }

  // ---- Steps ----

  /** apply_reloc on the word at `site`; an unknown type writes nothing. */
  function PatchAt(mem: Bytes, site: int, kind: int, addr: word): Bytes {
    match ApplyReloc(Read(mem, site), kind, addr)
    case Patched(w) => Write(mem, site, w)
    case BadType => mem
  }

  /** add_dependancy: a module does not depend on itself. */
  function AddEdge(edges: seq<Edge>, depender: Id, provider: Id): seq<Edge> {
    if depender == provider then edges else [Edge(depender, provider)] + edges
  }

  /** A relocation in module `id` resolved to an address of `provider`. */
  function Bind(s: State, id: Id, site: int, kind: int, provider: Id, addr: word): State {
    s.(mem := PatchAt(s.mem, site, kind, addr),
       edges := AddEdge(s.edges, id, provider),
       uses := s.uses + {Edge(id, provider)})
  }

  /** add_loosy */
  function Defer(s: State, sym: string, l: Loosy): State {
    s.(pending := s.pending[sym := [l] + (if sym in s.pending then s.pending[sym] else [])])
  }

  /** The loop of fix_loosy. */
  function BindAll(s: State, ls: seq<Loosy>, provider: Id, addr: word): State
    decreases |ls|
  {
    if ls == [] then s
    else BindAll(Bind(s, ls[0].erl, ls[0].site, ls[0].kind, provider, addr), ls[1..], provider, addr)
  }

  /** fix_loosy */
  function Fix(s: State, provider: Id, sym: string, addr: word): State {
    if sym in s.pending then
      var t := BindAll(s, s.pending[sym], provider, addr);
      t.(pending := t.pending - {sym})
    else s
  }

  /** Puts a symbol in the table of `owner` unless that table already has the name (hadd). */
  function Enter(s: State, owner: Id, sym: string, addr: word): State {
    if owner == 0 then
      if sym in s.globals then s else s.(globals := s.globals[sym := Symbol(0, addr)])
    else s.(modules := EnterIn(s.modules, owner, sym, addr))
  }

  function EnterIn(ms: seq<Module>, owner: Id, sym: string, addr: word): (r: seq<Module>)
    ensures |r| == |ms|
  {
    if ms == [] then []
    else if ms[0].id == owner then
      [if sym in ms[0].symbols then ms[0] else ms[0].(symbols := ms[0].symbols[sym := Symbol(owner, addr)])] + ms[1..]
    else [ms[0]] + EnterIn(ms[1..], owner, sym, addr)
  }

  /** add_symbol refuses a name that can already be found, except for the names every module has. */
  predicate Definable(s: State, sym: string) { IsLocal(sym) || Find(s, sym).None? }

  /** add_symbol */
  function Define(s: State, owner: Id, sym: string, addr: word): State {
    if Definable(s, sym) then Enter(Fix(s, owner, sym, addr), owner, sym, addr) else s
  }

  /** One entry of a relocation section, with the symbol it names already looked up in the symbol table. */
  datatype Reloc =
    | External(site: int, kind: int, sym: string)
    | InSection(site: int, kind: int, addr: word)
    | Internal(site: int, kind: int, sym: string, addr: word)
    | Unknown

  predicate KnownKind(kind: int) { kind == R_MIPS_32 || kind == R_MIPS_26 || kind == R_MIPS_HI16 || kind == R_MIPS_LO16 }

  /** The types that apply_reloc can patch. */
  lemma KnownKindExact(w: word, kind: int, addr: word)
    ensures KnownKind(kind) <==> ApplyReloc(w, kind, addr).Patched?
    ensures KnownKind(kind) <==> kind == 2 || kind == 4 || kind == 5 || kind == 6
  {
  }

  /** One turn of the relocation loop, lines 845-889; None is the error exit. */
  function Relocate(s: State, id: Id, r: Reloc): Option<State> {
    match r
    case External(site, kind, sym) =>
      if Find(s, sym).None? then Some(Defer(s, sym, Loosy(site, kind, id, s.loads)))
      else if KnownKind(kind) then Some(Bind(s, id, site, kind, Find(s, sym).value.provider, Find(s, sym).value.address))
      else None
    case InSection(site, kind, addr) =>
      if KnownKind(kind) then Some(s.(mem := PatchAt(s.mem, site, kind, addr))) else None
    case Internal(site, kind, sym, addr) =>
      if !KnownKind(kind) then None
      else if Find(s, sym).Some? then Some(Bind(s, id, site, kind, Find(s, sym).value.provider, Find(s, sym).value.address))
      else Some(s.(mem := PatchAt(s.mem, site, kind, addr)))
    case Unknown => None
  }

  /** The whole relocation loop: the state it leaves and whether it got through. */
  function RelocateAll(s: State, id: Id, rs: seq<Reloc>): (State, bool)
    decreases |rs|
  {
    if rs == [] then (s, true)
    else match Relocate(s, id, rs[0])
      case None => (s, false)
      case Some(t) => RelocateAll(t, id, rs[1..])
  }

  /** The export loop, lines 896-905. */
  function DefineAll(s: State, id: Id, exports: seq<(string, word)>): State
    decreases |exports|
  {
    if exports == [] then s else DefineAll(Define(s, id, exports[0].0, exports[0].1), id, exports[1..])
  }

  /** The bytes of a section that loads, at its offset in the image; zeros for NOBITS. */
  datatype Chunk = Chunk(offset: nat, bytes: seq<byte>)

  /**
   * An ELF image as the loader sees it: where malloc or the caller puts it, its sections, relocations in file order,
   * exported symbols, and the name and dependencies it declares.
   */
  datatype Image = Image(base: int, size: nat, chunks: seq<Chunk>, relocs: seq<Reloc>, exports: seq<(string, word)>,
                         name: Option<string>, deps: seq<string>)

  /** What the memory of a new record holds in the fields that are only set after a successful read. */
  datatype Unset = Unset(name: Option<string>, deps: seq<string>)

  /** Lines 762-779: the sections are copied to their places. */
  function WriteChunks(mem: Bytes, base: int, cs: seq<Chunk>): Bytes
    decreases |cs|
  {
    if cs == [] then mem else WriteChunks(WriteBytes(mem, base + cs[0].offset, cs[0].bytes), base, cs[1..])
  }

  /** A new record is linked in front, without symbols, and its sections are copied. */
  function Allocate(s: State, id: Id, image: Image, left: Unset): State {
    s.(modules := [Module(id, left.name, left.deps, false, map[], image.base, image.size, s.loads + 1)] + s.modules,
       loads := s.loads + 1, mem := WriteChunks(s.mem, image.base, image.chunks), uses := Without(s.uses, {id}))
  }

  /** The word at `site` lies in the image of the loaded module `id`. */
  predicate Inside(ms: seq<Module>, id: Id, site: int) {
    && ms != []
    && if ms[0].id == id then ms[0].base <= site && site + 4 <= ms[0].base + ms[0].size else Inside(ms[1..], id, site)
  }

  predicate Apart(a: int, n: nat, b: int, m: nat) { a + n <= b || b + m <= a }

  /** No loaded image overlaps `size` bytes at `base`. */
  predicate Clear(ms: seq<Module>, base: int, size: nat) {
    ms == [] || (Apart(ms[0].base, ms[0].size, base, size) && Clear(ms[1..], base, size))
  }

  predicate RelocInside(r: Reloc, base: int, size: nat) { r.Unknown? || (base <= r.site && r.site + 4 <= base + size) }

  /** Sections and relocated words lie inside the image, as LayOutSections places them. */
  predicate WellPlaced(image: Image) {
    && (forall i :: 0 <= i < |image.chunks| ==> image.chunks[i].offset + |image.chunks[i].bytes| <= image.size)
    && (forall i :: 0 <= i < |image.relocs| ==> RelocInside(image.relocs[i], image.base, image.size))
  }

  function Without(uses: set<Edge>, gone: set<Id>): set<Edge> {
    set u | u in uses && u.depender !in gone
  }

  function Keep(ms: seq<Module>, gone: set<Id>): (r: seq<Module>)
    ensures |r| <= |ms|
  {
    if ms == [] then [] else (if ms[0].id in gone then [] else [ms[0]]) + Keep(ms[1..], gone)
  }

  function KeepEdges(es: seq<Edge>, gone: set<Id>): seq<Edge> {
    if es == [] then [] else (if es[0].depender in gone then [] else [es[0]]) + KeepEdges(es[1..], gone)
  }

  /** destroy_erl_record after a failed read: the record goes, its edges and pending relocations stay. */
  function Discard(s: State, id: Id): State {
    s.(modules := Keep(s.modules, {id}), uses := Without(s.uses, {id}))
  }

  /** What unloading leaves when exactly the modules `gone` are removed, each with the edges it depends by. */
  function RemoveAll(s: State, gone: set<Id>): State {
    s.(modules := Keep(s.modules, gone), edges := KeepEdges(s.edges, gone), uses := Without(s.uses, gone))
  }

  // ---- The invariant ----

  ghost predicate OwnSymbols(m: Module) {
    m.id != 0 && forall y :: y in m.symbols ==> m.symbols[y].provider == m.id
  }

  /** Records are distinct and every symbol names the module that provides it. */
  ghost predicate WellFormed(ms: seq<Module>) {
    ms != [] ==> OwnSymbols(ms[0]) && !Loaded(ms[1..], ms[0].id) && WellFormed(ms[1..])
  }

  /** No name is both pending and defined. */
  ghost predicate PendingUndefined(s: State) {
    forall y {:trigger y in s.pending} :: y in s.pending ==> Find(s, y).None?
  }

  /** Every edge leads to NULL or to a loaded module. */
  ghost predicate ProvidersLoaded(s: State) {
    forall e {:trigger e in s.edges} :: e in s.edges ==> e.provider == 0 || Loaded(s.modules, e.provider)
  }

  /** Every resolved relocation of a loaded module into another module is covered by an edge. */
  ghost predicate UsesCovered(s: State) {
    forall u {:trigger u in s.uses} ::
      u in s.uses && Loaded(s.modules, u.depender) && u.provider != 0 && u.provider != u.depender ==> u in s.edges
  }

  ghost predicate UniqueIn(ms: seq<Module>) {
    ms != [] ==>
      && (forall y {:trigger y in ms[0].symbols} :: y in ms[0].symbols && !IsLocal(y) ==> FindIn(ms[1..], y).None?)
      && UniqueIn(ms[1..])
  }

  /** A name that is not one of the local ones has at most one definition, so the search order does not matter. */
  ghost predicate Unambiguous(s: State) {
    && UniqueIn(s.modules)
    && forall y {:trigger y in s.globals} :: y in s.globals && !IsLocal(y) ==> FindIn(s.modules, y).None?
  }

  ghost predicate Inv(s: State) {
    && WellFormed(s.modules)
    && (forall y {:trigger s.globals[y]} :: y in s.globals ==> s.globals[y].provider == 0)
    && PendingUndefined(s) && Unambiguous(s) && ProvidersLoaded(s) && UsesCovered(s)
  }

  // ---- Every step keeps the invariant ----

  lemma {:induction false} FoundProvider(ms: seq<Module>, sym: string)
    requires WellFormed(ms) && FindIn(ms, sym).Some?
    ensures FindIn(ms, sym).value.provider != 0 && Loaded(ms, FindIn(ms, sym).value.provider)
  {
    if sym !in ms[0].symbols { FoundProvider(ms[1..], sym); }
  }

  lemma DeferKeeps(s: State, sym: string, l: Loosy)
    requires Inv(s) && Find(s, sym).None?
    ensures Inv(Defer(s, sym, l))
  {
    var t := Defer(s, sym, l);
    forall y | y in t.pending ensures Find(t, y).None? {
      if y != sym { assert y in s.pending; }
    }
  }

  lemma BindKeeps(s: State, id: Id, site: int, kind: int, provider: Id, addr: word)
    requires Inv(s) && (provider == 0 || Loaded(s.modules, provider))
    ensures Inv(Bind(s, id, site, kind, provider, addr))
  {
    var t := Bind(s, id, site, kind, provider, addr);
    forall e | e in t.edges ensures e.provider == 0 || Loaded(t.modules, e.provider) {
      if e != Edge(id, provider) { assert e in s.edges; }
    }
    forall u | u in t.uses && Loaded(t.modules, u.depender) && u.provider != 0 && u.provider != u.depender ensures u in t.edges {
      if u != Edge(id, provider) { assert u in s.uses && u in s.edges; }
    }
    assert forall y :: y in t.pending ==> y in s.pending;
  }

  lemma {:induction false} BindAllKeeps(s: State, ls: seq<Loosy>, provider: Id, addr: word)
    requires Inv(s) && (provider == 0 || Loaded(s.modules, provider))
    ensures var t := BindAll(s, ls, provider, addr);
            Inv(t) && t.modules == s.modules && t.globals == s.globals && t.pending == s.pending
    decreases |ls|
  {
    if ls != [] {
      BindKeeps(s, ls[0].erl, ls[0].site, ls[0].kind, provider, addr);
      BindAllKeeps(Bind(s, ls[0].erl, ls[0].site, ls[0].kind, provider, addr), ls[1..], provider, addr);
    }
  }

  lemma FixKeeps(s: State, provider: Id, sym: string, addr: word)
    requires Inv(s) && (provider == 0 || Loaded(s.modules, provider))
    ensures var t := Fix(s, provider, sym, addr);
            Inv(t) && t.modules == s.modules && t.globals == s.globals && t.pending == s.pending - {sym}
  {
    if sym in s.pending {
      BindAllKeeps(s, s.pending[sym], provider, addr);
      var t := BindAll(s, s.pending[sym], provider, addr);
      var u := t.(pending := t.pending - {sym});
      forall y | y in u.pending ensures Find(u, y).None? {
        assert y in t.pending;
      }
    } else {
      assert s.pending - {sym} == s.pending;
    }
  }

  /** Entering a symbol changes no record's identity and no other name. */
  lemma {:induction false} EnterInKeeps(ms: seq<Module>, owner: Id, sym: string, addr: word, id: Id, y: string)
    requires WellFormed(ms)
    ensures var r := EnterIn(ms, owner, sym, addr);
            && (Loaded(r, id) <==> Loaded(ms, id))
            && (y != sym ==> FindIn(r, y) == FindIn(ms, y))
  {
    if ms != [] {
      EnterInKeeps(ms[1..], owner, sym, addr, id, y);
      var r := EnterIn(ms, owner, sym, addr);
      if ms[0].id == owner {
        assert r[1..] == ms[1..];
      } else {
        assert r[1..] == EnterIn(ms[1..], owner, sym, addr);
      }
    }
  }

  lemma {:induction false} EnterInWellFormed(ms: seq<Module>, owner: Id, sym: string, addr: word)
    requires WellFormed(ms) && UniqueIn(ms) && (IsLocal(sym) || FindIn(ms, sym).None?)
    ensures WellFormed(EnterIn(ms, owner, sym, addr)) && UniqueIn(EnterIn(ms, owner, sym, addr))
  {
    if ms != [] {
      EnterInWellFormed(ms[1..], owner, sym, addr);
      var r := EnterIn(ms, owner, sym, addr);
      if ms[0].id == owner {
        assert r[1..] == ms[1..];
      } else {
        assert r[1..] == EnterIn(ms[1..], owner, sym, addr);
        EnterInKeeps(ms[1..], owner, sym, addr, ms[0].id, sym);
        forall y | y in r[0].symbols && !IsLocal(y) ensures FindIn(r[1..], y).None? {
          EnterInKeeps(ms[1..], owner, sym, addr, 0, y);
        }
      }
    }
  }

  lemma EnterKeeps(s: State, owner: Id, sym: string, addr: word)
    requires Inv(s) && sym !in s.pending && Definable(s, sym)
    ensures Inv(Enter(s, owner, sym, addr))
    ensures forall id {:trigger Loaded(s.modules, id)} :: Loaded(Enter(s, owner, sym, addr).modules, id) <==> Loaded(s.modules, id)
  {
    var t := Enter(s, owner, sym, addr);
    if owner != 0 {
      EnterInWellFormed(s.modules, owner, sym, addr);
      forall id ensures Loaded(t.modules, id) <==> Loaded(s.modules, id) {
        EnterInKeeps(s.modules, owner, sym, addr, id, sym);
      }
      forall y | y != sym ensures FindIn(t.modules, y) == FindIn(s.modules, y) {
        EnterInKeeps(s.modules, owner, sym, addr, 0, y);
      }
    }
    forall y | y in t.pending ensures Find(t, y).None? {
      assert y in s.pending;
    }
    forall e | e in t.edges ensures e.provider == 0 || Loaded(t.modules, e.provider) {
      assert e in s.edges;
    }
    forall u | u in t.uses && Loaded(t.modules, u.depender) && u.provider != 0 && u.provider != u.depender ensures u in t.edges {
      assert u in s.uses && Loaded(s.modules, u.depender);
    }
    forall y | y in t.globals && !IsLocal(y) ensures FindIn(t.modules, y).None? {
    }
  }

  lemma DefineKeeps(s: State, owner: Id, sym: string, addr: word)
    requires Inv(s) && (owner == 0 || Loaded(s.modules, owner))
    ensures Inv(Define(s, owner, sym, addr))
    ensures forall id {:trigger Loaded(s.modules, id)} :: Loaded(Define(s, owner, sym, addr).modules, id) <==> Loaded(s.modules, id)
  {
    if Definable(s, sym) {
      FixKeeps(s, owner, sym, addr);
      EnterKeeps(Fix(s, owner, sym, addr), owner, sym, addr);
    }
  }

  lemma {:induction false} DefineAllKeeps(s: State, id: Id, exports: seq<(string, word)>)
    requires Inv(s) && Loaded(s.modules, id)
    ensures Inv(DefineAll(s, id, exports)) && Loaded(DefineAll(s, id, exports).modules, id)
    decreases |exports|
  {
    if exports != [] {
      DefineKeeps(s, id, exports[0].0, exports[0].1);
      DefineAllKeeps(Define(s, id, exports[0].0, exports[0].1), id, exports[1..]);
    }
  }

  lemma AllocateKeeps(s: State, id: Id, image: Image, left: Unset)
    requires Inv(s) && id != 0 && !Loaded(s.modules, id)
    ensures var t := Allocate(s, id, image, left); Inv(t) && Loaded(t.modules, id) && Unprovided(t, id)
  {
    var t := Allocate(s, id, image, left);
    assert t.modules[1..] == s.modules;
    assert forall y :: FindIn(t.modules, y) == FindIn(s.modules, y);
    forall y | Find(t, y).Some? ensures Find(t, y).value.provider != id {
      if y !in s.globals { FoundProvider(s.modules, y); }
    }
    forall e | e in t.edges ensures (e.provider == 0 || Loaded(t.modules, e.provider)) && e.provider != id {
      assert e in s.edges;
    }
    forall u | u in t.uses && Loaded(t.modules, u.depender) && u.provider != 0 && u.provider != u.depender ensures u in t.edges {
      assert u in s.uses;
    }
    assert forall y :: y in t.pending ==> y in s.pending;
  }

  /** Module `id` provides nothing yet: it is no edge's provider and defines no symbol. */
  ghost predicate Unprovided(s: State, id: Id) {
    && (forall e {:trigger e in s.edges} :: e in s.edges ==> e.provider != id)
    && forall y :: Find(s, y).Some? ==> Find(s, y).value.provider != id
  }

  lemma RelocateKeeps(s: State, id: Id, r: Reloc)
    requires Inv(s) && id != 0 && Loaded(s.modules, id) && Unprovided(s, id) && Relocate(s, id, r).Some?
    ensures var t := Relocate(s, id, r).value; Inv(t) && t.modules == s.modules && Unprovided(t, id)
  {
    var t := Relocate(s, id, r).value;
    if r.External? && Find(s, r.sym).None? {
      DeferKeeps(s, r.sym, Loosy(r.site, r.kind, id, s.loads));
    } else if (r.External? || r.Internal?) && Find(s, r.sym).Some? {
      var y := Find(s, r.sym).value;
      if r.sym !in s.globals { FoundProvider(s.modules, r.sym); }
      BindKeeps(s, id, r.site, r.kind, y.provider, y.address);
      forall e | e in t.edges ensures e.provider != id {
        if e != Edge(id, y.provider) { assert e in s.edges; }
      }
    } else {
      assert forall y :: y in t.pending ==> y in s.pending;
      assert forall e :: e in t.edges ==> e in s.edges;
      assert forall u :: u in t.uses ==> u in s.uses;
    }
    assert forall y :: Find(t, y) == Find(s, y);
  }

  lemma {:induction false} RelocateAllKeeps(s: State, id: Id, rs: seq<Reloc>)
    requires Inv(s) && id != 0 && Loaded(s.modules, id) && Unprovided(s, id)
    ensures var t := RelocateAll(s, id, rs).0; Inv(t) && t.modules == s.modules && Unprovided(t, id)
    decreases |rs|
  {
    if rs != [] && Relocate(s, id, rs[0]).Some? {
      RelocateKeeps(s, id, rs[0]);
      RelocateAllKeeps(Relocate(s, id, rs[0]).value, id, rs[1..]);
    }
  }

  // ---- Removing modules ----

  lemma {:induction false} KeepLoaded(ms: seq<Module>, gone: set<Id>, id: Id)
    ensures Loaded(Keep(ms, gone), id) <==> Loaded(ms, id) && id !in gone
  {
    if ms != [] {
      KeepLoaded(ms[1..], gone, id);
      KeepSplit(ms, gone);
    }
  }

  lemma KeepSplit(ms: seq<Module>, gone: set<Id>)
    requires ms != []
    ensures ms[0].id in gone ==> Keep(ms, gone) == Keep(ms[1..], gone)
    ensures ms[0].id !in gone ==> Keep(ms, gone) == [ms[0]] + Keep(ms[1..], gone) && Keep(ms, gone)[1..] == Keep(ms[1..], gone)
  {
  }

  lemma {:induction false} KeepWellFormed(ms: seq<Module>, gone: set<Id>)
    requires WellFormed(ms) && UniqueIn(ms)
    ensures WellFormed(Keep(ms, gone)) && UniqueIn(Keep(ms, gone))
  {
    if ms != [] {
      KeepWellFormed(ms[1..], gone);
      KeepSplit(ms, gone);
      KeepLoaded(ms[1..], gone, ms[0].id);
      if ms[0].id !in gone {
        forall y | y in ms[0].symbols && !IsLocal(y) ensures FindIn(Keep(ms[1..], gone), y).None? {
          KeepFind(ms[1..], gone, y);
        }
      }
    }
  }

  lemma {:induction false} KeepFind(ms: seq<Module>, gone: set<Id>, y: string)
    ensures FindIn(ms, y).None? ==> FindIn(Keep(ms, gone), y).None?
  {
    if ms != [] {
      KeepFind(ms[1..], gone, y);
      KeepSplit(ms, gone);
    }
  }

  lemma {:induction false} KeepEdgesHas(es: seq<Edge>, gone: set<Id>, e: Edge)
    ensures e in KeepEdges(es, gone) <==> e in es && e.depender !in gone
  {
    if es != [] {
      KeepEdgesHas(es[1..], gone, e);
      assert es == [es[0]] + es[1..];
    }
  }

  /** Every edge into a removed module comes from a removed module. */
  ghost predicate Closed(s: State, gone: set<Id>) {
    0 !in gone && forall e {:trigger e in s.edges} :: e in s.edges && e.provider in gone ==> e.depender in gone
  }

  lemma RemovedParts(s: State, t: State, gone: set<Id>)
    requires Inv(s) && t.modules == Keep(s.modules, gone) && t.globals == s.globals && t.pending == s.pending
    requires t.uses == Without(s.uses, gone)
    requires forall e {:trigger e in t.edges} :: e in t.edges ==> e in s.edges && e.provider !in gone
    requires forall e {:trigger e in s.edges} :: e in s.edges && e.depender !in gone ==> e in t.edges
    ensures Inv(t)
  {
    KeepWellFormed(s.modules, gone);
    forall y ensures FindIn(s.modules, y).None? ==> FindIn(t.modules, y).None? {
      KeepFind(s.modules, gone, y);
    }
    forall y | y in t.pending ensures Find(t, y).None? {
      assert y in s.pending;
    }
    forall e | e in t.edges ensures e.provider == 0 || Loaded(t.modules, e.provider) {
      assert e in s.edges;
      KeepLoaded(s.modules, gone, e.provider);
    }
    forall u | u in t.uses && Loaded(t.modules, u.depender) && u.provider != 0 && u.provider != u.depender ensures u in t.edges {
      KeepLoaded(s.modules, gone, u.depender);
      assert u in s.uses && u in s.edges;
    }
  }

  lemma RemoveAllKeeps(s: State, gone: set<Id>)
    requires Inv(s) && Closed(s, gone)
    ensures Inv(RemoveAll(s, gone))
  {
    var t := RemoveAll(s, gone);
    forall e ensures e in t.edges <==> e in s.edges && e.depender !in gone {
      KeepEdgesHas(s.edges, gone, e);
    }
    RemovedParts(s, t, gone);
  }

  lemma DiscardKeeps(s: State, id: Id)
    requires Inv(s) && id != 0 && Unprovided(s, id)
    ensures Inv(Discard(s, id))
  {
    RemovedParts(s, Discard(s, id), {id});
  }
}
