/** unload_erl: recursive, dependency-guarded removal (ee/erl/src/erl.c). */
module LinkerUnload {
  import opened Basics
  import opened LinkerSpec

  // ---- Records by name and by identity ----

  /** find_erl */
  function FindErl(ms: seq<Module>, name: string): Option<Id> {
    if ms == [] then None
    else if ms[0].name == Some(name) then Some(ms[0].id)
    else FindErl(ms[1..], name)
  }

  function DepsOf(ms: seq<Module>, id: Id): seq<string> {
    if ms == [] then [] else if ms[0].id == id then ms[0].deps else DepsOf(ms[1..], id)
  }

  predicate Sticky(ms: seq<Module>, id: Id) {
    ms != [] && (if ms[0].id == id then ms[0].sticky else Sticky(ms[1..], id))
  }

  predicate Provides(es: seq<Edge>, id: Id) {
    es != [] && (es[0].provider == id || Provides(es[1..], id))
  }

  predicate Unloadable(s: State, id: Id) { !Sticky(s.modules, id) && !Provides(s.edges, id) }

  /** The declared dependencies have no cycle: they go down in rank. */
  ghost predicate Acyclic(ms: seq<Module>, rank: Id -> nat) {
    forall m, n {:trigger m in ms, n in ms} ::
      m in ms && n in ms && n.name.Some? && n.name.value in m.deps ==> rank(n.id) < rank(m.id)
  }

  ghost predicate Below(ms: seq<Module>, rank: Id -> nat, ds: seq<string>, bound: nat) {
    forall n {:trigger n in ms} :: n in ms && n.name.Some? && n.name.value in ds ==> rank(n.id) < bound
  }

  ghost predicate Sub(ms: seq<Module>, ns: seq<Module>) {
    forall m {:trigger m in ms} :: m in ms ==> m in ns
  }

  lemma {:induction false} FindErlNamed(ms: seq<Module>, name: string)
    requires FindErl(ms, name).Some?
    ensures exists n :: n in ms && n.name == Some(name) && n.id == FindErl(ms, name).value
    ensures Loaded(ms, FindErl(ms, name).value)
  {
    if ms[0].name == Some(name) {
      assert ms[0] in ms;
    } else {
      FindErlNamed(ms[1..], name);
      var n :| n in ms[1..] && n.name == Some(name) && n.id == FindErl(ms[1..], name).value;
      assert n in ms;
    }
  }

  lemma {:induction false} DepsBelow(ms: seq<Module>, id: Id, rank: Id -> nat)
    requires Acyclic(ms, rank)
    ensures Below(ms, rank, DepsOf(ms, id), rank(id))
  {
    DepsFrom(ms, id);
    if DepsOf(ms, id) != [] {
      var m :| m in ms && m.id == id && m.deps == DepsOf(ms, id);
    }
  }

  lemma {:induction false} DepsFrom(ms: seq<Module>, id: Id)
    ensures DepsOf(ms, id) == [] || exists m :: m in ms && m.id == id && m.deps == DepsOf(ms, id)
  {
    if ms != [] {
      if ms[0].id == id {
        assert ms[0] in ms;
      } else {
        DepsFrom(ms[1..], id);
        if DepsOf(ms, id) != [] {
          var m :| m in ms[1..] && m.id == id && m.deps == DepsOf(ms[1..], id);
          assert m in ms;
        }
      }
    }
  }

  lemma {:induction false} KeepSub(ms: seq<Module>, gone: set<Id>)
    ensures Sub(Keep(ms, gone), ms)
  {
    if ms != [] {
      KeepSub(ms[1..], gone);
      KeepSplit(ms, gone);
      forall m | m in Keep(ms, gone) ensures m in ms {
        if m != ms[0] { assert m in Keep(ms[1..], gone) && m in ms[1..]; }
      }
    }
  }

  lemma SubAcyclic(ms: seq<Module>, ns: seq<Module>, rank: Id -> nat, ds: seq<string>, bound: nat)
    requires Sub(ms, ns) && Acyclic(ns, rank) && Below(ns, rank, ds, bound)
    ensures Acyclic(ms, rank) && Below(ms, rank, ds, bound)
  {
  }

  // ---- Unloading ----

  /** unload_erl; refused, it changes nothing. */
  ghost function Unload(s: State, id: Id, rank: Id -> nat): (t: State)
    requires Acyclic(s.modules, rank)
    ensures Sub(t.modules, s.modules)
    decreases rank(id), 1, 0
  {
    if Unloadable(s, id) then
      DepsBelow(s.modules, id, rank);
      var u := UnloadDeps(s, DepsOf(s.modules, id), rank, rank(id));
      KeepSub(u.modules, {id});
      RemoveAll(u, {id})
    else s
  }

  /** r_unload_dependancies: the last declared dependency first. */
  ghost function UnloadDeps(s: State, ds: seq<string>, rank: Id -> nat, bound: nat): (t: State)
    requires Acyclic(s.modules, rank) && Below(s.modules, rank, ds, bound)
    ensures Sub(t.modules, s.modules)
    decreases bound, 0, |ds|
  {
    if ds == [] then s
    else
      var u := UnloadDeps(s, ds[1..], rank, bound);
      SubAcyclic(u.modules, s.modules, rank, ds, bound);
      match FindErl(u.modules, ds[0])
      case None => u
      case Some(e) => FindErlNamed(u.modules, ds[0]); Unload(u, e, rank)
  }

  // ---- What an unload removes ----

  lemma {:induction false} ProvidesHas(es: seq<Edge>, id: Id)
    ensures Provides(es, id) <==> exists e :: e in es && e.provider == id
  {
    if es != [] {
      ProvidesHas(es[1..], id);
      if es[0].provider == id {
        assert es[0] in es;
      } else if Provides(es[1..], id) {
        var e :| e in es[1..] && e.provider == id;
        assert e in es;
      }
    }
  }

  lemma {:induction false} KeepKeep(ms: seq<Module>, a: set<Id>, b: set<Id>)
    ensures Keep(Keep(ms, a), b) == Keep(ms, a + b)
  {
    if ms != [] {
      KeepKeep(ms[1..], a, b);
      KeepSplit(ms, a);
      KeepSplit(ms, a + b);
      if ms[0].id !in a { KeepSplit(Keep(ms, a), b); }
    }
  }

  lemma {:induction false} KeepEdgesKeep(es: seq<Edge>, a: set<Id>, b: set<Id>)
    ensures KeepEdges(KeepEdges(es, a), b) == KeepEdges(es, a + b)
  {
    if es != [] {
      KeepEdgesKeep(es[1..], a, b);
      var r := KeepEdges(es, a);
      if es[0].depender in a {
        assert r == KeepEdges(es[1..], a);
      } else {
        assert r[0] == es[0] && r[1..] == KeepEdges(es[1..], a);
      }
    }
  }

  lemma RemoveTwice(s: State, a: set<Id>, b: set<Id>)
    ensures RemoveAll(RemoveAll(s, a), b) == RemoveAll(s, a + b)
  {
    KeepKeep(s.modules, a, b);
    KeepEdgesKeep(s.edges, a, b);
    assert Without(Without(s.uses, a), b) == Without(s.uses, a + b);
  }

  lemma {:induction false} RemoveNone(s: State)
    ensures RemoveAll(s, {}) == s
  {
    KeepNone(s.modules);
    KeepEdgesNone(s.edges);
    assert Without(s.uses, {}) == s.uses;
  }

  lemma {:induction false} KeepNone(ms: seq<Module>)
    ensures Keep(ms, {}) == ms
  {
    if ms != [] { KeepNone(ms[1..]); }
  }

  lemma {:induction false} KeepEdgesNone(es: seq<Edge>)
    ensures KeepEdges(es, {}) == es
  {
    if es != [] { KeepEdgesNone(es[1..]); }
  }

  /** Modules that may go together: loaded, not sticky, all below `bound`, and used only from among themselves. */
  ghost predicate Removable(s: State, gone: set<Id>, rank: Id -> nat, bound: nat) {
    && (forall g {:trigger g in gone} :: g in gone ==> Loaded(s.modules, g) && !Sticky(s.modules, g) && rank(g) < bound)
    && forall e {:trigger e in s.edges} :: e in s.edges && e.provider in gone ==> e.depender in gone
  }

  lemma {:induction false} KeepSticky(ms: seq<Module>, gone: set<Id>, id: Id)
    requires id !in gone
    ensures Sticky(Keep(ms, gone), id) <==> Sticky(ms, id)
  {
    if ms != [] {
      KeepSticky(ms[1..], gone, id);
      KeepSplit(ms, gone);
    }
  }

  lemma RemovableTwice(s: State, a: set<Id>, b: set<Id>, rank: Id -> nat, bound: nat)
    requires Removable(s, a, rank, bound) && Removable(RemoveAll(s, a), b, rank, bound)
    ensures Removable(s, a + b, rank, bound)
  {
    var t := RemoveAll(s, a);
    forall g | g in a + b ensures Loaded(s.modules, g) && !Sticky(s.modules, g) && rank(g) < bound {
      if g !in a { assert g in b; KeepLoaded(s.modules, a, g); KeepSticky(s.modules, a, g); }
    }
    forall e | e in s.edges && e.provider in a + b ensures e.depender in a + b {
      if e.depender !in a {
        KeepEdgesHas(s.edges, a, e);
        assert e in t.edges;
      }
    }
  }

  /**
   * A successful unload of `id` removes `id` and some lower modules, exactly their records and the edges they depend by,
   * and no other module was linked to any of them. A lower module `id` itself is linked to stays loaded, since the edges
   * of `id` are dropped last.
   */
  lemma {:induction false} UnloadRemoves(s: State, id: Id, rank: Id -> nat) returns (gone: set<Id>)
    requires Acyclic(s.modules, rank) && Loaded(s.modules, id) && Unloadable(s, id)
    ensures id !in gone && Removable(s, gone, rank, rank(id))
    ensures forall e {:trigger e in s.edges} :: e in s.edges && e.provider in gone ==> e.depender != id
    ensures forall e {:trigger e in s.edges} :: e in s.edges ==> e.provider != id
    ensures Unload(s, id, rank) == RemoveAll(s, gone + {id})
    decreases rank(id), 1, 0
  {
    DepsBelow(s.modules, id, rank);
    gone := UnloadDepsRemoves(s, DepsOf(s.modules, id), rank, rank(id));
    RemoveTwice(s, gone, {id});
    ProvidesHas(s.edges, id);
    assert id !in gone;
  }

  lemma {:induction false} UnloadDepsRemoves(s: State, ds: seq<string>, rank: Id -> nat, bound: nat) returns (gone: set<Id>)
    requires Acyclic(s.modules, rank) && Below(s.modules, rank, ds, bound)
    ensures Removable(s, gone, rank, bound)
    ensures UnloadDeps(s, ds, rank, bound) == RemoveAll(s, gone)
    decreases bound, 0, |ds|
  {
    gone := {};
    RemoveNone(s);
    if ds != [] {
      gone := UnloadDepsRemoves(s, ds[1..], rank, bound);
      var u := UnloadDeps(s, ds[1..], rank, bound);
      SubAcyclic(u.modules, s.modules, rank, ds, bound);
      if FindErl(u.modules, ds[0]).Some? {
        FindErlNamed(u.modules, ds[0]);
        var e := FindErl(u.modules, ds[0]).value;
        if Unloadable(u, e) {
          var more := UnloadRemoves(u, e, rank);
          RemoveTwice(s, gone, more + {e});
          assert Removable(u, more + {e}, rank, bound);
          RemovableTwice(s, gone, more + {e}, rank, bound);
          gone := gone + (more + {e});
        }
      }
    }
  }

  /** unload_erl keeps the linker's invariant, whatever it removes. */
  lemma UnloadKeeps(s: State, id: Id, rank: Id -> nat)
    requires Inv(s) && Loaded(s.modules, id) && Acyclic(s.modules, rank)
    ensures Inv(Unload(s, id, rank))
  {
    if Unloadable(s, id) {
      var gone := UnloadRemoves(s, id, rank);
      forall g | g in gone + {id} ensures g != 0 { LoadedNonZero(s.modules, g); }
      RemoveAllKeeps(s, gone + {id});
    }
  }

  lemma {:induction false} LoadedNonZero(ms: seq<Module>, id: Id)
    requires WellFormed(ms) && Loaded(ms, id)
    ensures id != 0
  {
    if ms[0].id != id { LoadedNonZero(ms[1..], id); }
  }
}
