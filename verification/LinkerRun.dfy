/** Whole runs of the ERL linker (ee/erl/src/erl.c): loads, exported globals, flag changes and unloads in any order. */
module LinkerRun {
  import opened Basics
  import opened SparseMemory
  import opened LinkerSpec
  import opened LinkerUnload

  datatype Op =
    | AddGlobal(sym: string, addr: word)
    | Load(id: Id, image: Image, left: Unset, fromFile: bool)
    | SetSticky(id: Id, sticky: bool)
    | UnloadModule(id: Id, rank: Id -> nat)

  function NameOf(ms: seq<Module>, id: Id): Option<string> {
    if ms == [] then None else if ms[0].id == id then ms[0].name else NameOf(ms[1..], id)
  }

  /** Rewrites the name, the declared dependencies and the sticky flag of a record. */
  function Amend(ms: seq<Module>, id: Id, name: Option<string>, deps: seq<string>, sticky: bool): seq<Module> {
    if ms == [] then []
    else if ms[0].id == id then [ms[0].(name := name, deps := deps, sticky := sticky)] + ms[1..]
    else [ms[0]] + Amend(ms[1..], id, name, deps, sticky)
  }

  /**
   * load_erl up to the loading of dependencies, which are further loads. A failed read from memory leaves its record
   * listed, with its name and dependencies unset.
   */
  function LoadImage(s: State, id: Id, image: Image, left: Unset, fromFile: bool): (State, bool) {
    FinishLoad(Allocate(s, id, image, left), id, image, fromFile)
  }

  /** The load of `id` from where the relocations `image.relocs` are still to be done. */
  function FinishLoad(s: State, id: Id, image: Image, fromFile: bool): (State, bool) {
    var (t, ok) := RelocateAll(s, id, image.relocs);
    if ok then
      var u := DefineAll(t, id, image.exports);
      (u.(modules := Amend(u.modules, id, image.name, image.deps, false)), true)
    else if fromFile then (Discard(t, id), false)
    else (t, false)
  }

  ghost predicate Legal(s: State, op: Op) {
    match op
    case AddGlobal(_, _) => true
    case Load(id, _, _, _) => id != 0 && !Loaded(s.modules, id)
    case SetSticky(id, _) => Loaded(s.modules, id)
    case UnloadModule(id, rank) => Loaded(s.modules, id) && Acyclic(s.modules, rank)
  }

  ghost function Apply(s: State, op: Op): State
    requires Legal(s, op)
  {
    match op
    case AddGlobal(sym, addr) => Define(s, 0, sym, addr)
    case Load(id, image, left, fromFile) => LoadImage(s, id, image, left, fromFile).0
    case SetSticky(id, sticky) => s.(modules := Amend(s.modules, id, NameOf(s.modules, id), DepsOf(s.modules, id), sticky))
    case UnloadModule(id, rank) => Unload(s, id, rank)
  }

  ghost predicate IsRun(s: State, ops: seq<Op>, t: State)
    decreases |ops|
  {
    if ops == [] then t == s else Legal(s, ops[0]) && IsRun(Apply(s, ops[0]), ops[1..], t)
  }

  function Start(mem: Bytes): State { State([], map[], map[], [], mem, {}, 0) }

  lemma {:induction false} AmendKeeps(ms: seq<Module>, id: Id, name: Option<string>, deps: seq<string>, sticky: bool,
                                      other: Id, y: string)
    ensures var r := Amend(ms, id, name, deps, sticky);
            && (Loaded(r, other) <==> Loaded(ms, other))
            && FindIn(r, y) == FindIn(ms, y)
  {
    if ms != [] {
      AmendKeeps(ms[1..], id, name, deps, sticky, other, y);
      assert Amend(ms, id, name, deps, sticky)[1..] == if ms[0].id == id then ms[1..] else Amend(ms[1..], id, name, deps, sticky);
    }
  }

  lemma {:induction false} AmendWellFormed(ms: seq<Module>, id: Id, name: Option<string>, deps: seq<string>, sticky: bool)
    requires WellFormed(ms) && UniqueIn(ms)
    ensures WellFormed(Amend(ms, id, name, deps, sticky)) && UniqueIn(Amend(ms, id, name, deps, sticky))
  {
    if ms != [] {
      AmendWellFormed(ms[1..], id, name, deps, sticky);
      var r := Amend(ms, id, name, deps, sticky);
      assert r[1..] == if ms[0].id == id then ms[1..] else Amend(ms[1..], id, name, deps, sticky);
      AmendKeeps(ms[1..], id, name, deps, sticky, ms[0].id, "");
      forall y | y in r[0].symbols && !IsLocal(y) ensures FindIn(r[1..], y).None? {
        AmendKeeps(ms[1..], id, name, deps, sticky, 0, y);
      }
    }
  }

  lemma AmendInv(s: State, id: Id, name: Option<string>, deps: seq<string>, sticky: bool)
    requires Inv(s)
    ensures Inv(s.(modules := Amend(s.modules, id, name, deps, sticky)))
  {
    var t := s.(modules := Amend(s.modules, id, name, deps, sticky));
    AmendWellFormed(s.modules, id, name, deps, sticky);
    forall other ensures Loaded(t.modules, other) <==> Loaded(s.modules, other) {
      AmendKeeps(s.modules, id, name, deps, sticky, other, "");
    }
    forall y ensures FindIn(t.modules, y) == FindIn(s.modules, y) {
      AmendKeeps(s.modules, id, name, deps, sticky, 0, y);
    }
    forall y | y in t.pending ensures Find(t, y).None? {
      assert y in s.pending;
    }
    forall e | e in t.edges ensures e.provider == 0 || Loaded(t.modules, e.provider) {
      assert e in s.edges;
    }
    forall u | u in t.uses && Loaded(t.modules, u.depender) && u.provider != 0 && u.provider != u.depender ensures u in t.edges {
      assert u in s.uses;
    }
  }

  lemma FinishKeeps(s: State, id: Id, image: Image, fromFile: bool)
    requires Inv(s) && id != 0 && Loaded(s.modules, id) && Unprovided(s, id)
    ensures Inv(FinishLoad(s, id, image, fromFile).0)
  {
    RelocateAllKeeps(s, id, image.relocs);
    var (t, ok) := RelocateAll(s, id, image.relocs);
    if ok {
      DefineAllKeeps(t, id, image.exports);
      AmendInv(DefineAll(t, id, image.exports), id, image.name, image.deps, false);
    } else if fromFile {
      DiscardKeeps(t, id);
    }
  }

  lemma ApplyKeeps(s: State, op: Op)
    requires Inv(s) && Legal(s, op)
    ensures Inv(Apply(s, op))
  {
    match op
    case AddGlobal(sym, addr) => DefineKeeps(s, 0, sym, addr);
    case Load(id, image, left, fromFile) =>
      AllocateKeeps(s, id, image, left);
      FinishKeeps(Allocate(s, id, image, left), id, image, fromFile);
    case SetSticky(id, sticky) => AmendInv(s, id, NameOf(s.modules, id), DepsOf(s.modules, id), sticky);
    case UnloadModule(id, rank) => UnloadKeeps(s, id, rank);
  }

  lemma {:induction false} RunKeepsInv(s: State, ops: seq<Op>, t: State)
    requires Inv(s) && IsRun(s, ops, t)
    ensures Inv(t)
    decreases |ops|
  {
    if ops != [] {
      ApplyKeeps(s, ops[0]);
      RunKeepsInv(Apply(s, ops[0]), ops[1..], t);
    }
  }

  /**
   * After any run from the empty linker: no name is both pending and defined, a name outside the local ones has one
   * definition, and a relocation that a loaded module holds leads to a global symbol or to a module still loaded.
   */
  lemma {:induction false} NoDanglingRelocation(mem: Bytes, ops: seq<Op>, t: State)
    requires IsRun(Start(mem), ops, t)
    ensures forall y :: y in t.pending ==> Find(t, y).None?
    ensures forall e :: e in t.edges ==> e.provider == 0 || Loaded(t.modules, e.provider)
    ensures forall u :: u in t.uses && Loaded(t.modules, u.depender) ==> u.provider == 0 || Loaded(t.modules, u.provider)
    ensures Unambiguous(t)
  {
    RunKeepsInv(Start(mem), ops, t);
  }

  /** A module whose symbols another loaded module was relocated to is not unloaded. */
  lemma UsedModuleStays(mem: Bytes, ops: seq<Op>, s: State, u: Edge, rank: Id -> nat)
    requires IsRun(Start(mem), ops, s)
    requires u in s.uses && Loaded(s.modules, u.depender) && Loaded(s.modules, u.provider) && u.provider != u.depender
    requires Acyclic(s.modules, rank)
    ensures Unload(s, u.provider, rank) == s
  {
    RunKeepsInv(Start(mem), ops, s);
    LoadedNonZero(s.modules, u.provider);
    ProvidesHas(s.edges, u.provider);
    assert u in s.edges;
  }
}
