/**
 * The client side of the SIF RPC protocol (ee/kernel/src/sifrpc.c): any number of client structures share one packet
 * table and one id counter. Threads run the statements of SifBindRpc, SifCallRpc and SifRpcGetOtherData, and the
 * interrupts that answer a request come between any two of them.
 */
module RpcClient {
  import opened Basics

  /**
   * A packet header: rpc_id, and rec_id as its fields, the slot number in the high half, the bit 0x04 and the bit
   * PACKET_F_ALLOC.
   */
  datatype Packet = Packet(rid: nat, tag: bool, alloc: bool, id: int)

  const BLANK := Packet(0, false, false, 0)

  function Stamped(rid: nat, id: int): Packet { Packet(rid, true, true, id) }

  /** rpc_packet_free: the id and the allocation bit go, the rest of rec_id stays. */
  function Freed(k: Packet): Packet { k.(alloc := false, id := 0) }

  /** How the other processor answers: a request with rmode 0 only has its packet cleared. */
  datatype Reply = End | Clear

  datatype Flight = Flight(slot: nat, reply: Reply)

  /** Where the thread that uses a client structure stands. */
  datatype Pc =
    | Idle
    | Got(slot: nat, id: int)        // _rpc_get_packet returned
    | Addressed(slot: nat, id: int)  // hdr.pkt_addr stored
    | Identified(slot: nat)          // hdr.rpc_id stored
    | Unsignalled(slot: nat)         // hdr.sema_id = -1 stored, packet filled in
    | Armed(slot: nat)               // CreateSema returned
    | Waiting                        // the packet is sent
    | Awake                          // WaitSema returned

  /** `failed` is history: the last call returned an error after it had taken a packet. */
  datatype Client = Client(pkt: Option<nat>, id: int, sema: int, pc: Pc, flight: Option<Flight>, failed: bool)

  /** `leaked` is history: the packets that failed calls left allocated. */
  datatype State = State(packets: seq<Packet>, pid: int, clients: seq<Client>, semas: map<int, nat>, leaked: set<nat>)

  const MAX_INT := 0x7FFF_FFFF

  // ---- The packet table ----

  function FirstFree(ps: seq<Packet>): (p: nat)
    ensures p <= |ps|
    ensures p < |ps| ==> !ps[p].alloc
    ensures forall q :: 0 <= q < p ==> ps[q].alloc
  {
    if ps == [] || !ps[0].alloc then 0
    else
      var p := FirstFree(ps[1..]);
      assert forall q :: 0 < q < p + 1 ==> ps[q] == ps[1..][q - 1];
      1 + p
  }

  /** The id a new request gets and the counter after it: 0 is never used. */
  function NextId(pid: int): (int, int) { if pid != 0 then (pid + 1, pid + 1) else (1, 2) }

  /** _rpc_get_packet over the table in memory. */
  class RpcData {
    const table: array<Packet>
    var pid: int

    constructor (n: nat)
      ensures fresh(table) && table.Length == n && pid == 1
      ensures forall p :: 0 <= p < n ==> table[p] == BLANK
    {
      table := new Packet[n](_ => BLANK);
      pid := 1;
    }

    method GetPacket() returns (r: Option<nat>)
      requires pid < MAX_INT
      modifies this, table
      ensures r.None? <==> forall p :: 0 <= p < table.Length ==> old(table[p]).alloc
      ensures r.None? ==> pid == old(pid) && table[..] == old(table[..])
      ensures r.Some? ==>
        && r.value == FirstFree(old(table[..])) && r.value < table.Length && !old(table[r.value].alloc)
        && pid == (if old(pid) != 0 then old(pid) + 1 else 2) == NextId(old(pid)).1
        && table[..] == old(table[..])[r.value := Packet(r.value, true, true, if old(pid) != 0 then old(pid) + 1 else 1)]
    {
      var rid := 0;
      while rid < table.Length && table[rid].alloc
        invariant 0 <= rid <= table.Length
        invariant forall p :: 0 <= p < rid ==> table[p].alloc
      {
        rid := rid + 1;
      }
      assert forall p :: 0 <= p < table.Length ==> table[..][p] == table[p];
      if rid == table.Length { return None; }
      var id := pid;
      if pid != 0 {
        pid := pid + 1;
        id := pid;
      } else {
        pid := pid + 2;
        id := 1;
      }
      table[rid] := Stamped(rid, id);
      return Some(rid);
    }
  }

  // ---- Steps ----

  datatype Step =
    | Get(c: nat)
    | StoreAddr(c: nat)
    | StoreId(c: nat)
    | StoreNoSema(c: nat)
    | SendAsync(c: nat, reply: Reply)
    | CreateSema(c: nat, sema: int)
    | SendBlocking(c: nat)
    | SendFails(c: nat)          // of an asynchronous call
    | BlockingSendFails(c: nat)
    | SemaFails(c: nat)
    | WaitSema(c: nat)
    | DeleteSema(c: nat)
    | EndInterrupt(c: nat)
    | ClearPacket(c: nat)

  /** The call returns an error after it took a packet. */
  predicate CallFails(step: Step) { step.SendFails? || step.BlockingSendFails? || step.SemaFails? }

  ghost predicate Enabled(s: State, step: Step) {
    step.c < |s.clients| && var cl := s.clients[step.c];
    match step
    case Get(_) => cl.pc.Idle? && cl.flight.None? && s.pid < MAX_INT
    case StoreAddr(_) => cl.pc.Got?
    case StoreId(_) => cl.pc.Addressed? && cl.pc.slot < |s.packets|
    case StoreNoSema(_) => cl.pc.Identified?
    case SendAsync(_, _) => cl.pc.Unsignalled?
    case CreateSema(_, sema) => cl.pc.Unsignalled? && sema >= 0 && sema !in s.semas
    case SendBlocking(_) => cl.pc.Armed?
    case SendFails(_) => cl.pc.Unsignalled?
    case BlockingSendFails(_) => cl.pc.Armed?
    case SemaFails(_) => cl.pc.Unsignalled?
    case WaitSema(_) => cl.pc.Waiting? && cl.sema in s.semas && s.semas[cl.sema] > 0
    case DeleteSema(_) => cl.pc.Awake?
    case EndInterrupt(_) => cl.flight.Some? && cl.flight.value.reply.End? && cl.pkt.Some? && cl.pkt.value < |s.packets|
    case ClearPacket(_) => cl.flight.Some? && cl.flight.value.reply.Clear? && cl.flight.value.slot < |s.packets|
  }

  ghost function SetClient(s: State, c: nat, cl: Client): State
    requires c < |s.clients|
  {
    s.(clients := s.clients[c := cl])
  }

  /** iSignalSema on a semaphore of maximum count 1. */
  function Signal(semas: map<int, nat>, sema: int): map<int, nat> {
    if sema >= 0 && sema in semas && semas[sema] < 1 then semas[sema := semas[sema] + 1] else semas
  }

  ghost function Do(s: State, step: Step): State
    requires Enabled(s, step)
  {
    var c := step.c;
    var cl := s.clients[c];
    match step
    case Get(_) =>
      var p := FirstFree(s.packets);
      if p == |s.packets| then s
      else
        SetClient(s, c, cl.(pc := Got(p, NextId(s.pid).0))).(
          packets := s.packets[p := Stamped(p, NextId(s.pid).0)], pid := NextId(s.pid).1)
    case StoreAddr(_) => SetClient(s, c, cl.(pkt := Some(cl.pc.slot), pc := Addressed(cl.pc.slot, cl.pc.id), failed := false))
    case StoreId(_) => SetClient(s, c, cl.(id := s.packets[cl.pc.slot].id, pc := Identified(cl.pc.slot)))
    case StoreNoSema(_) => SetClient(s, c, cl.(sema := -1, pc := Unsignalled(cl.pc.slot)))
    case SendAsync(_, reply) => SetClient(s, c, cl.(pc := Idle, flight := Some(Flight(cl.pc.slot, reply))))
    case CreateSema(_, sema) => SetClient(s, c, cl.(sema := sema, pc := Armed(cl.pc.slot))).(semas := s.semas[sema := 0])
    case SendBlocking(_) => SetClient(s, c, cl.(pc := Waiting, flight := Some(Flight(cl.pc.slot, End))))
    case SendFails(_) => SetClient(s, c, cl.(pc := Idle, failed := true)).(leaked := s.leaked + {cl.pc.slot})
    case BlockingSendFails(_) => SetClient(s, c, cl.(pc := Idle, failed := true)).(leaked := s.leaked + {cl.pc.slot})
    case SemaFails(_) => SetClient(s, c, cl.(pc := Idle, failed := true)).(leaked := s.leaked + {cl.pc.slot})
    case WaitSema(_) => SetClient(s, c, cl.(pc := Awake)).(semas := s.semas[cl.sema := s.semas[cl.sema] - 1])
    case DeleteSema(_) => SetClient(s, c, cl.(pc := Idle)).(semas := s.semas - {cl.sema})
    case EndInterrupt(_) =>
      SetClient(s, c, cl.(pkt := None, flight := None)).(
        semas := Signal(s.semas, cl.sema), packets := s.packets[cl.pkt.value := Freed(s.packets[cl.pkt.value])])
    case ClearPacket(_) =>
      SetClient(s, c, cl.(flight := None)).(packets := s.packets[cl.flight.value.slot := BLANK])
  }

  ghost predicate IsRun(s: State, steps: seq<Step>, t: State)
    decreases |steps|
  {
    if steps == [] then t == s else Enabled(s, steps[0]) && IsRun(Do(s, steps[0]), steps[1..], t)
  }

  /** SifCheckStatRpc */
  predicate Busy(s: State, c: nat)
    requires c < |s.clients|
  {
    var cl := s.clients[c];
    && cl.pkt.Some? && cl.pkt.value < |s.packets|
    && cl.id == s.packets[cl.pkt.value].id && s.packets[cl.pkt.value].alloc
  }

  /** The start: every packet free, every client unused. */
  predicate Initial(s: State) {
    && s.pid == 1 && s.semas == map[] && s.leaked == {}
    && (forall p :: 0 <= p < |s.packets| ==> s.packets[p] == BLANK)
    && forall c :: 0 <= c < |s.clients| ==> s.clients[c] == Client(None, 0, -1, Idle, None, false)
  }

  // ---- The invariant ----

  /** The slot a client's request in progress occupies. */
  function Holds(cl: Client): Option<nat> {
    match cl.pc
    case Got(p, _) => Some(p)
    case Addressed(p, _) => Some(p)
    case Identified(p) => Some(p)
    case Unsignalled(p) => Some(p)
    case Armed(p) => Some(p)
    case _ => if cl.flight.Some? then Some(cl.flight.value.slot) else None
  }

  function RequestId(cl: Client): int { if cl.pc.Got? || cl.pc.Addressed? then cl.pc.id else cl.id }

  /** The client's own request is outstanding: its header is stored and no answer has come. */
  predicate Outstanding(cl: Client) { Holds(cl).Some? && !cl.pc.Got? && !cl.pc.Addressed? }

  predicate OwnsSema(cl: Client) { cl.pc.Armed? || cl.pc.Waiting? || cl.pc.Awake? }

  ghost predicate PacketOk(s: State, p: nat)
    requires p < |s.packets|
  {
    if s.packets[p].alloc then 1 <= s.packets[p].id <= s.pid else s.packets[p].id == 0
  }

  /** What one client structure is in, at each point of its thread. */
  ghost predicate ClientOk(s: State, c: nat)
    requires c < |s.clients|
  {
    var cl := s.clients[c];
    && 0 <= cl.id <= s.pid
    && (Holds(cl).Some? ==>
          && Holds(cl).value < |s.packets| && Holds(cl).value !in s.leaked
          && s.packets[Holds(cl).value] == Stamped(Holds(cl).value, RequestId(cl)))
    && (cl.flight.Some? ==> (cl.pc.Idle? && cl.sema == -1) || (cl.pc.Waiting? && cl.flight.value.reply.End?))
    && (Outstanding(cl) ==> cl.pkt == Holds(cl))
    && (cl.pc.Addressed? ==> cl.pkt == Some(cl.pc.slot))
    && (cl.pc.Unsignalled? ==> cl.sema == -1)
    && (OwnsSema(cl) ==> cl.sema >= 0 && cl.sema in s.semas
                         && s.semas[cl.sema] == if cl.pc.Waiting? && cl.flight.None? then 1 else 0)
    && (cl.failed ==> (cl.pc.Idle? || cl.pc.Got?) && cl.flight.None? && cl.pkt.Some? && LeakedWith(s, cl.pkt.value, cl.id))
    && (!Outstanding(cl) && !cl.failed ==> Retired(s, cl.id) && (cl.pkt.Some? ==> !LeakedWith(s, cl.pkt.value, cl.id)))
  }

  /** The slot was left allocated, with that id, by a failed call. */
  ghost predicate LeakedWith(s: State, p: nat, id: int) {
    p in s.leaked && p < |s.packets| && s.packets[p].id == id
  }

  /** No request in progress carries the id. */
  ghost predicate Retired(s: State, id: int) {
    forall p {:trigger s.packets[p]} ::
      0 <= p < |s.packets| && s.packets[p].alloc && p !in s.leaked ==> s.packets[p].id != id
  }

  ghost predicate Apart(a: Client, b: Client) {
    && (Holds(a).Some? && Holds(b).Some? ==> Holds(a) != Holds(b))
    && (OwnsSema(a) && OwnsSema(b) ==> a.sema != b.sema)
  }

  ghost predicate Inv(s: State) {
    && 1 <= s.pid
    && (forall p {:trigger PacketOk(s, p)} :: 0 <= p < |s.packets| ==> PacketOk(s, p))
    && (forall p, q {:trigger s.packets[p], s.packets[q]} ::
          0 <= p < q < |s.packets| && s.packets[p].alloc && s.packets[q].alloc ==> s.packets[p].id != s.packets[q].id)
    && (forall c {:trigger ClientOk(s, c)} :: 0 <= c < |s.clients| ==> ClientOk(s, c))
    && (forall c, d {:trigger Apart(s.clients[c], s.clients[d])} ::
          0 <= c < |s.clients| && 0 <= d < |s.clients| && c != d ==> Apart(s.clients[c], s.clients[d]))
    && (forall p {:trigger p in s.leaked} :: p in s.leaked ==> p < |s.packets| && s.packets[p].alloc)
    && (forall p {:trigger Held(s, p)} :: 0 <= p < |s.packets| && s.packets[p].alloc && p !in s.leaked ==> Held(s, p))
  }

  /** Some client's request occupies the slot. */
  ghost predicate Held(s: State, p: nat) {
    exists c {:trigger Holds(s.clients[c])} :: 0 <= c < |s.clients| && Holds(s.clients[c]) == Some(p)
  }

  // ---- Every step keeps the invariant ----

  /** Only client `c` moved, and every other client's semaphore is what it was. */
  ghost predicate Moved(s: State, t: State, c: nat) {
    && |t.clients| == |s.clients| && c < |s.clients| && |t.packets| == |s.packets|
    && (forall d {:trigger t.clients[d]} :: 0 <= d < |s.clients| && d != c ==> t.clients[d] == s.clients[d])
    && (forall d {:trigger t.clients[d]} :: 0 <= d < |s.clients| && d != c && OwnsSema(s.clients[d]) ==>
          && s.clients[d].sema in s.semas && s.clients[d].sema in t.semas
          && t.semas[s.clients[d].sema] == s.semas[s.clients[d].sema]
          && (OwnsSema(t.clients[c]) ==> t.clients[c].sema != s.clients[d].sema))
  }

  /** A step of one client's thread that leaves the packet table alone. */
  lemma QuietKeeps(s: State, t: State, c: nat)
    requires Inv(s) && Moved(s, t, c) && t.packets == s.packets && t.pid == s.pid && t.leaked == s.leaked
    requires Holds(t.clients[c]) == Holds(s.clients[c]) && ClientOk(t, c)
    ensures Inv(t)
  {
    forall p | 0 <= p < |t.packets| ensures PacketOk(t, p) {
      assert PacketOk(s, p);
    }
    forall d | 0 <= d < |t.clients| ensures ClientOk(t, d) {
      if d != c { assert ClientOk(s, d) && t.clients[d] == s.clients[d]; }
    }
    forall d, e | 0 <= d < |t.clients| && 0 <= e < |t.clients| && d != e ensures Apart(t.clients[d], t.clients[e]) {
      assert Apart(s.clients[d], s.clients[e]);
    }
    forall p | 0 <= p < |t.packets| && t.packets[p].alloc && p !in t.leaked ensures Held(t, p) {
      assert Held(s, p);
      var d :| 0 <= d < |s.clients| && Holds(s.clients[d]) == Some(p);
      assert Holds(t.clients[d]) == Some(p);
    }
  }

  /** An answer: the packet of client `c` is freed and its request is over. */
  lemma FreeKeeps(s: State, t: State, c: nat, p: nat, k: Packet)
    requires Inv(s) && Moved(s, t, c) && p < |s.packets| && t.packets == s.packets[p := k] && !k.alloc && k.id == 0
    requires t.pid == s.pid && t.leaked == s.leaked
    requires Holds(s.clients[c]) == Some(p) && Outstanding(s.clients[c]) && Holds(t.clients[c]).None?
    requires t.clients[c].id == s.clients[c].id && (OwnsSema(t.clients[c]) ==> OwnsSema(s.clients[c]))
    requires !s.clients[c].failed && (Retired(t, t.clients[c].id) ==> ClientOk(t, c))
    ensures Inv(t)
  {
    assert ClientOk(s, c);
    forall q | 0 <= q < |t.packets| ensures PacketOk(t, q) {
      assert PacketOk(s, q);
    }
    assert Retired(t, t.clients[c].id) by {
      assert s.packets[p] == Stamped(p, s.clients[c].id);
    }
    forall d | 0 <= d < |t.clients| ensures ClientOk(t, d) {
      if d != c {
        assert ClientOk(s, d) && t.clients[d] == s.clients[d];
        assert Apart(s.clients[c], s.clients[d]);
      }
    }
    forall d, e | 0 <= d < |t.clients| && 0 <= e < |t.clients| && d != e ensures Apart(t.clients[d], t.clients[e]) {
      assert Apart(s.clients[d], s.clients[e]);
    }
    forall q | 0 <= q < |t.packets| && t.packets[q].alloc && q !in t.leaked ensures Held(t, q) {
      assert Held(s, q);
      var d :| 0 <= d < |s.clients| && Holds(s.clients[d]) == Some(q);
      assert Holds(t.clients[d]) == Some(q);
    }
  }

  lemma GetClient(s: State, c: nat, d: nat)
    requires Inv(s) && Enabled(s, Get(c)) && FirstFree(s.packets) < |s.packets| && d < |s.clients|
    ensures ClientOk(Do(s, Get(c)), d)
  {
    assert ClientOk(s, d);
  }

  lemma GetApart(s: State, c: nat, d: nat, e: nat)
    requires Inv(s) && Enabled(s, Get(c)) && FirstFree(s.packets) < |s.packets| && d < |s.clients| && e < |s.clients| && d != e
    ensures Apart(Do(s, Get(c)).clients[d], Do(s, Get(c)).clients[e])
  {
    assert Apart(s.clients[d], s.clients[e]);
    assert ClientOk(s, d) && ClientOk(s, e);
  }

  lemma GetKeeps(s: State, c: nat)
    requires Inv(s) && Enabled(s, Get(c))
    ensures Inv(Do(s, Get(c)))
  {
    var p := FirstFree(s.packets);
    if p < |s.packets| {
      var t := Do(s, Get(c));
      var id := NextId(s.pid).0;
      forall q | 0 <= q < |t.packets| ensures PacketOk(t, q) {
        assert PacketOk(s, q);
      }
      forall q | 0 <= q < |s.packets| ensures s.packets[q].alloc ==> s.packets[q].id < id {
        assert PacketOk(s, q);
      }
      forall d | 0 <= d < |t.clients| ensures ClientOk(t, d) {
        GetClient(s, c, d);
      }
      forall d, e | 0 <= d < |t.clients| && 0 <= e < |t.clients| && d != e ensures Apart(t.clients[d], t.clients[e]) {
        GetApart(s, c, d, e);
      }
      forall q | 0 <= q < |t.packets| && t.packets[q].alloc && q !in t.leaked ensures Held(t, q) {
        if q == p {
          assert Holds(t.clients[c]) == Some(p);
        } else {
          assert Held(s, q);
          var d :| 0 <= d < |s.clients| && Holds(s.clients[d]) == Some(q);
          assert Holds(t.clients[d]) == Some(q);
        }
      }
    }
  }

  lemma StepKeeps(s: State, step: Step)
    requires Inv(s) && Enabled(s, step)
    ensures Inv(Do(s, step))
  {
    var c := step.c;
    var t := Do(s, step);
    assert ClientOk(s, c);
    if step.Get? {
      GetKeeps(s, c);
    } else {
      forall d | 0 <= d < |s.clients| && d != c ensures ClientOk(s, d) && Apart(s.clients[c], s.clients[d]) {
      }
      MovedStep(s, step);
      if step.EndInterrupt? {
        FreeKeeps(s, t, c, s.clients[c].pkt.value, Freed(s.packets[s.clients[c].pkt.value]));
      } else if step.ClearPacket? {
        FreeKeeps(s, t, c, s.clients[c].flight.value.slot, BLANK);
      } else if CallFails(step) {
        LeakKeeps(s, t, c, s.clients[c].pc.slot);
      } else {
        QuietClient(s, step);
        QuietKeeps(s, t, c);
      }
    }
  }

  /** An error return: the packet of client `c` stays allocated and nobody's. */
  lemma LeakKeeps(s: State, t: State, c: nat, p: nat)
    requires Inv(s) && Moved(s, t, c) && t.packets == s.packets && t.pid == s.pid && t.leaked == s.leaked + {p}
    requires Holds(s.clients[c]) == Some(p) && Outstanding(s.clients[c]) && s.clients[c].flight.None?
    requires t.clients[c] == s.clients[c].(pc := Idle, failed := true)
    ensures Inv(t)
  {
    assert ClientOk(s, c);
    forall q | 0 <= q < |t.packets| ensures PacketOk(t, q) {
      assert PacketOk(s, q);
    }
    forall d | 0 <= d < |t.clients| ensures ClientOk(t, d) {
      if d != c {
        assert ClientOk(s, d) && t.clients[d] == s.clients[d];
        assert Apart(s.clients[c], s.clients[d]);
        assert s.packets[p] == Stamped(p, s.clients[c].id);
      }
    }
    forall d, e | 0 <= d < |t.clients| && 0 <= e < |t.clients| && d != e ensures Apart(t.clients[d], t.clients[e]) {
      assert Apart(s.clients[d], s.clients[e]);
    }
    forall q | 0 <= q < |t.packets| && t.packets[q].alloc && q !in t.leaked ensures Held(t, q) {
      assert Held(s, q);
      var d :| 0 <= d < |s.clients| && Holds(s.clients[d]) == Some(q);
      assert Holds(t.clients[d]) == Some(q);
    }
  }

  lemma MovedStep(s: State, step: Step)
    requires Inv(s) && Enabled(s, step) && !step.Get?
    ensures Moved(s, Do(s, step), step.c)
  {
    var c := step.c;
    var t := Do(s, step);
    assert ClientOk(s, c);
    forall d | 0 <= d < |s.clients| && d != c && OwnsSema(s.clients[d])
      ensures && s.clients[d].sema in s.semas && s.clients[d].sema in t.semas
              && t.semas[s.clients[d].sema] == s.semas[s.clients[d].sema]
              && (OwnsSema(t.clients[c]) ==> t.clients[c].sema != s.clients[d].sema)
    {
      assert ClientOk(s, d) && Apart(s.clients[c], s.clients[d]);
    }
  }

  lemma QuietClient(s: State, step: Step)
    requires Inv(s) && Enabled(s, step) && !step.Get? && !step.EndInterrupt? && !step.ClearPacket?
    requires !CallFails(step)
    ensures ClientOk(Do(s, step), step.c) && Holds(Do(s, step).clients[step.c]) == Holds(s.clients[step.c])
  {
    assert ClientOk(s, step.c);
    if step.StoreId? { assert PacketOk(s, s.clients[step.c].pc.slot); }
  }

  lemma {:induction false} RunKeepsInv(s: State, steps: seq<Step>, t: State)
    requires Inv(s) && IsRun(s, steps, t)
    ensures Inv(t)
    decreases |steps|
  {
    if steps != [] {
      StepKeeps(s, steps[0]);
      RunKeepsInv(Do(s, steps[0]), steps[1..], t);
    }
  }

  lemma InitialInv(s: State)
    requires Initial(s)
    ensures Inv(s)
  {
  }

  // ---- What every run guarantees ----

  /** Outstanding clients own distinct allocated packets that carry their own, distinct, ids. */
  lemma OwnPackets(s: State, steps: seq<Step>, t: State, c: nat, d: nat)
    requires Initial(s) && IsRun(s, steps, t)
    requires c < |t.clients| && d < |t.clients| && c != d && Outstanding(t.clients[c]) && Outstanding(t.clients[d])
    ensures var p, q := t.clients[c].pkt, t.clients[d].pkt;
            && p.Some? && q.Some? && p != q && p.value < |t.packets| && q.value < |t.packets|
            && t.packets[p.value] == Stamped(p.value, t.clients[c].id) && t.packets[q.value] == Stamped(q.value, t.clients[d].id)
            && t.clients[c].id != t.clients[d].id
  {
    InitialInv(s);
    RunKeepsInv(s, steps, t);
    assert ClientOk(t, c) && ClientOk(t, d) && Apart(t.clients[c], t.clients[d]);
    var p, q := t.clients[c].pkt.value, t.clients[d].pkt.value;
    assert t.packets[p].id == t.clients[c].id && t.packets[q].id == t.clients[d].id;
  }

  /**
   * SifCheckStatRpc answers for the client's own request, even after its slot was cleared remotely and taken again. A client
   * whose last call failed is also reported busy.
   */
  lemma StatusExact(s: State, steps: seq<Step>, t: State, c: nat)
    requires Initial(s) && IsRun(s, steps, t) && c < |t.clients|
    ensures Busy(t, c) <==> Outstanding(t.clients[c]) || t.clients[c].failed
  {
    InitialInv(s);
    RunKeepsInv(s, steps, t);
    assert ClientOk(t, c);
  }

  /**
   * A blocked caller can go on exactly when its END has been delivered; until then that END can be delivered. When it
   * goes on, its structure names no packet and no packet carries its id.
   */
  lemma BlockedExact(s: State, steps: seq<Step>, t: State, c: nat)
    requires Initial(s) && IsRun(s, steps, t) && c < |t.clients| && t.clients[c].pc.Waiting?
    ensures Enabled(t, WaitSema(c)) <==> t.clients[c].flight.None?
    ensures Enabled(t, EndInterrupt(c)) <==> t.clients[c].flight.Some?
    ensures Enabled(t, WaitSema(c)) ==> !Busy(t, c) && Retired(t, t.clients[c].id)
  {
    InitialInv(s);
    RunKeepsInv(s, steps, t);
    assert ClientOk(t, c);
  }

  /** The one step that lets a blocked caller go on is the END for its own request. */
  lemma ReleasedByOwnEnd(s: State, steps: seq<Step>, t: State, step: Step, c: nat)
    requires Initial(s) && IsRun(s, steps, t) && Enabled(t, step) && c < |t.clients|
    requires t.clients[c].pc.Waiting? && !Enabled(t, WaitSema(c)) && Enabled(Do(t, step), WaitSema(c))
    ensures step == EndInterrupt(c) && t.clients[c].flight.Some?
  {
    InitialInv(s);
    RunKeepsInv(s, steps, t);
    StepKeeps(t, step);
    assert ClientOk(t, c) && ClientOk(Do(t, step), c);
  }

  /** The table is full only when every slot is some client's request in progress or was left behind by a failed call. */
  lemma PoolConserved(s: State, steps: seq<Step>, t: State, p: nat)
    requires Initial(s) && IsRun(s, steps, t) && p < |t.packets|
    ensures t.packets[p].alloc <==> Held(t, p) || p in t.leaked
    ensures p in t.leaked ==> !Held(t, p)
    ensures FirstFree(t.packets) == |t.packets| ==> Held(t, p) || p in t.leaked
  {
    InitialInv(s);
    RunKeepsInv(s, steps, t);
    if Held(t, p) {
      var c :| 0 <= c < |t.clients| && Holds(t.clients[c]) == Some(p);
      assert ClientOk(t, c);
    }
  }

  lemma {:induction false} LeaksGrow(s: State, steps: seq<Step>, t: State)
    requires IsRun(s, steps, t)
    ensures s.leaked <= t.leaked
    ensures (forall i :: 0 <= i < |steps| ==> !CallFails(steps[i])) ==> t.leaked == s.leaked
    ensures forall i :: 0 <= i < |steps| && CallFails(steps[i]) ==> t.leaked != {}
    decreases |steps|
  {
    if steps != [] {
      var u := Do(s, steps[0]);
      LeaksGrow(u, steps[1..], t);
      if CallFails(steps[0]) { assert s.clients[steps[0].c].pc.slot in t.leaked; }
    }
  }

  /** A packet is allocated that no client's request occupies if and only if some send or semaphore creation failed. */
  lemma LeakExact(s: State, steps: seq<Step>, t: State)
    requires Initial(s) && IsRun(s, steps, t)
    ensures (exists p :: 0 <= p < |t.packets| && t.packets[p].alloc && !Held(t, p)) <==>
            exists i :: 0 <= i < |steps| && CallFails(steps[i])
  {
    InitialInv(s);
    RunKeepsInv(s, steps, t);
    forall p | 0 <= p < |t.packets| ensures t.packets[p].alloc && !Held(t, p) <==> p in t.leaked {
      PoolConserved(s, steps, t, p);
    }
    LeaksGrow(s, steps, t);
    if t.leaked != {} {
      var p :| p in t.leaked;
      assert !Held(t, p);
    }
  }

  // ---- Semaphores ----

  ghost predicate SemaOwned(s: State, x: int) {
    exists c {:trigger OwnsSema(s.clients[c])} :: 0 <= c < |s.clients| && OwnsSema(s.clients[c]) && s.clients[c].sema == x
  }

  /** The semaphore exists and no client will delete it. */
  ghost predicate Orphan(s: State, x: int) { x in s.semas && !SemaOwned(s, x) }

  lemma OrphanStays(s: State, step: Step, x: int)
    requires Inv(s) && Enabled(s, step) && Orphan(s, x)
    ensures Orphan(Do(s, step), x)
  {
    var t := Do(s, step);
    assert ClientOk(s, step.c);
    assert OwnsSema(s.clients[step.c]) ==> s.clients[step.c].sema != x;
    forall c | 0 <= c < |t.clients| && OwnsSema(t.clients[c]) ensures t.clients[c].sema != x {
      assert c != step.c ==> OwnsSema(s.clients[c]);
    }
  }

  lemma OrphanMade(s: State, c: nat)
    requires Inv(s) && Enabled(s, BlockingSendFails(c))
    ensures Orphan(Do(s, BlockingSendFails(c)), s.clients[c].sema)
  {
    var t := Do(s, BlockingSendFails(c));
    assert ClientOk(s, c);
    forall d | 0 <= d < |t.clients| && OwnsSema(t.clients[d]) ensures t.clients[d].sema != s.clients[c].sema {
      assert Apart(s.clients[c], s.clients[d]);
    }
  }

  /** Every other step leaves no semaphore behind. */
  lemma OwnedStays(s: State, step: Step, x: int)
    requires Inv(s) && Enabled(s, step) && !step.BlockingSendFails? && x in Do(s, step).semas
    requires x in s.semas ==> SemaOwned(s, x)
    ensures SemaOwned(Do(s, step), x)
  {
    var t := Do(s, step);
    assert ClientOk(s, step.c);
    if x in s.semas {
      var d :| 0 <= d < |s.clients| && OwnsSema(s.clients[d]) && s.clients[d].sema == x;
      assert OwnsSema(t.clients[d]);
    } else {
      assert OwnsSema(t.clients[step.c]);
    }
  }

  lemma {:induction false} OrphansExact(s: State, steps: seq<Step>, t: State)
    requires Inv(s) && IsRun(s, steps, t)
    ensures (exists x :: Orphan(t, x)) <==>
            (exists x :: Orphan(s, x)) || exists i :: 0 <= i < |steps| && steps[i].BlockingSendFails?
    decreases |steps|
  {
    if steps != [] {
      var u := Do(s, steps[0]);
      StepKeeps(s, steps[0]);
      OrphansExact(u, steps[1..], t);
      if x :| Orphan(s, x) { OrphanStays(s, steps[0], x); }
      if steps[0].BlockingSendFails? {
        OrphanMade(s, steps[0].c);
      } else if x :| Orphan(u, x) {
        if !Orphan(s, x) { OwnedStays(s, steps[0], x); }
      }
      assert (exists i :: 0 <= i < |steps| && steps[i].BlockingSendFails?) <==>
             steps[0].BlockingSendFails? || exists i :: 0 <= i < |steps[1..]| && steps[1..][i].BlockingSendFails? by {
        assert forall i :: 0 <= i < |steps[1..]| ==> steps[1..][i] == steps[i + 1];
        assert forall i :: 1 <= i < |steps| ==> steps[i] == steps[1..][i - 1];
      }
    }
  }

  /** A semaphore exists that no client owns if and only if some send failed after its semaphore was created. */
  lemma SemaLeakExact(s: State, steps: seq<Step>, t: State)
    requires Initial(s) && IsRun(s, steps, t)
    ensures (exists x :: x in t.semas && !SemaOwned(t, x)) <==> exists i :: 0 <= i < |steps| && steps[i].BlockingSendFails?
  {
    InitialInv(s);
    OrphansExact(s, steps, t);
    if x :| Orphan(t, x) { assert x in t.semas && !SemaOwned(t, x); }
    if x :| x in t.semas && !SemaOwned(t, x) { assert Orphan(t, x); }
  }

  // ---- One whole call ----

  lemma RunFirst(s: State, step: Step, rest: seq<Step>, u: State)
    requires Enabled(s, step) && IsRun(Do(s, step), rest, u)
    ensures IsRun(s, [step] + rest, u)
  {
    assert ([step] + rest)[1..] == rest;
  }

  lemma {:induction false} RunThen(s: State, xs: seq<Step>, t: State, ys: seq<Step>, u: State)
    requires IsRun(s, xs, t) && IsRun(t, ys, u)
    ensures IsRun(s, xs + ys, u)
    decreases |xs|
  {
    if xs == [] {
      assert xs + ys == ys;
    } else {
      RunThen(Do(s, xs[0]), xs[1..], t, ys, u);
      assert (xs + ys)[1..] == xs[1..] + ys;
    }
  }

  /** The caller takes a packet and stores the header. */
  function HeaderSteps(c: nat): seq<Step> { [Get(c), StoreAddr(c), StoreId(c), StoreNoSema(c)] }

  lemma HeaderStored(s: State, c: nat, p: nat) returns (t: State)
    requires s.pid > 0 && c < |s.clients| && s.clients[c].pc.Idle? && s.clients[c].flight.None? && s.pid < MAX_INT
    requires p == FirstFree(s.packets) < |s.packets|
    ensures IsRun(s, HeaderSteps(c), t)
    ensures t == State(s.packets[p := Stamped(p, s.pid + 1)], s.pid + 1,
                       s.clients[c := Client(Some(p), s.pid + 1, -1, Unsignalled(p), None, false)], s.semas, s.leaked)
  {
    var a := Do(s, Get(c));
    var b := Do(a, StoreAddr(c));
    var d := Do(b, StoreId(c));
    t := Do(d, StoreNoSema(c));
    assert t.clients == s.clients[c := Client(Some(p), s.pid + 1, -1, Unsignalled(p), None, false)];
    RunFirst(d, StoreNoSema(c), [], t);
    RunFirst(b, StoreId(c), [StoreNoSema(c)], t);
    RunFirst(a, StoreAddr(c), [StoreId(c), StoreNoSema(c)], t);
    RunFirst(s, Get(c), [StoreAddr(c), StoreId(c), StoreNoSema(c)], t);
    assert HeaderSteps(c) == [Get(c)] + [StoreAddr(c), StoreId(c), StoreNoSema(c)];
  }

  /** It makes a semaphore and sends. */
  function SendSteps(c: nat, sema: int): seq<Step> { [CreateSema(c, sema), SendBlocking(c)] }

  lemma Sent(s: State, c: nat, p: nat, sema: int) returns (t: State)
    requires c < |s.clients| && s.clients[c].pc == Unsignalled(p) && sema >= 0 && sema !in s.semas
    ensures IsRun(s, SendSteps(c, sema), t)
    ensures t == s.(clients := s.clients[c := s.clients[c].(sema := sema, pc := Waiting, flight := Some(Flight(p, End)))],
                    semas := s.semas[sema := 0])
  {
    var a := Do(s, CreateSema(c, sema));
    t := Do(a, SendBlocking(c));
    assert t.clients == s.clients[c := s.clients[c].(sema := sema, pc := Waiting, flight := Some(Flight(p, End)))];
    RunFirst(a, SendBlocking(c), [], t);
    RunFirst(s, CreateSema(c, sema), [SendBlocking(c)], t);
    assert SendSteps(c, sema) == [CreateSema(c, sema)] + [SendBlocking(c)];
  }

  /** The END comes and it goes on. */
  function EndSteps(c: nat): seq<Step> { [EndInterrupt(c), WaitSema(c), DeleteSema(c)] }

  lemma Answered(s: State, c: nat, p: nat) returns (t: State)
    requires c < |s.clients| && p < |s.packets| && s.clients[c].pkt == Some(p) && s.clients[c].flight == Some(Flight(p, End))
    requires s.clients[c].pc.Waiting? && s.clients[c].sema >= 0 && s.clients[c].sema in s.semas && s.semas[s.clients[c].sema] == 0
    ensures IsRun(s, EndSteps(c), t)
    ensures t == s.(packets := s.packets[p := Freed(s.packets[p])], semas := s.semas - {s.clients[c].sema},
                    clients := s.clients[c := s.clients[c].(pkt := None, pc := Idle, flight := None)])
  {
    var a := Do(s, EndInterrupt(c));
    var b := Do(a, WaitSema(c));
    t := Do(b, DeleteSema(c));
    assert t.semas == s.semas - {s.clients[c].sema};
    assert t.clients == s.clients[c := s.clients[c].(pkt := None, pc := Idle, flight := None)];
    RunFirst(b, DeleteSema(c), [], t);
    RunFirst(a, WaitSema(c), [DeleteSema(c)], t);
    RunFirst(s, EndInterrupt(c), [WaitSema(c), DeleteSema(c)], t);
    assert EndSteps(c) == [EndInterrupt(c)] + [WaitSema(c), DeleteSema(c)];
  }

  /** A blocking call that nothing comes between gives back all it took: the packet is free, the semaphore gone, the client idle. */
  lemma CallGivesBack(s: State, c: nat, sema: int) returns (t: State)
    requires s.pid > 0 && c < |s.clients| && s.clients[c].pc.Idle? && s.clients[c].flight.None? && s.pid < MAX_INT
    requires FirstFree(s.packets) < |s.packets| && sema >= 0 && sema !in s.semas
    ensures IsRun(s, HeaderSteps(c) + SendSteps(c, sema) + EndSteps(c), t)
    ensures var p := FirstFree(s.packets);
            t == State(s.packets[p := Packet(p, true, false, 0)], s.pid + 1,
                       s.clients[c := Client(None, s.pid + 1, sema, Idle, None, false)], s.semas, s.leaked)
  {
    var p := FirstFree(s.packets);
    var a := HeaderStored(s, c, p);
    var b := Sent(a, c, p, sema);
    RunThen(s, HeaderSteps(c), a, SendSteps(c, sema), b);
    t := Answered(b, c, p);
    RunThen(s, HeaderSteps(c) + SendSteps(c, sema), b, EndSteps(c), t);
    assert t.packets == s.packets[p := Packet(p, true, false, 0)];
    assert t.clients == s.clients[c := Client(None, s.pid + 1, sema, Idle, None, false)];
    assert t.semas == s.semas;
  }

  /** How the answer to an asynchronous call arrives. */
  function ReplyStep(c: nat, reply: Reply): Step { if reply.End? then EndInterrupt(c) else ClearPacket(c) }

  /**
   * An asynchronous call that nothing comes between: before the answer the client is busy, after it the packet is free again
   * and the client is not busy. An END also clears the client's packet address; the other answer blanks the whole header.
   */
  lemma AsyncCallGivesBack(s: State, c: nat, reply: Reply) returns (mid: State, t: State)
    requires s.pid > 0 && c < |s.clients| && s.clients[c].pc.Idle? && s.clients[c].flight.None? && s.pid < MAX_INT
    requires FirstFree(s.packets) < |s.packets|
    ensures IsRun(s, HeaderSteps(c) + [SendAsync(c, reply)], mid) && |mid.clients| == |s.clients| && Busy(mid, c)
    ensures IsRun(mid, [ReplyStep(c, reply)], t) && |t.clients| == |s.clients| && !Busy(t, c)
    ensures var p := FirstFree(s.packets);
            t == State(s.packets[p := if reply.End? then Packet(p, true, false, 0) else Packet(0, false, false, 0)], s.pid + 1,
                       s.clients[c := Client(if reply.End? then None else Some(p), s.pid + 1, -1, Idle, None, false)],
                       s.semas, s.leaked)
  {
    var p := FirstFree(s.packets);
    var a := HeaderStored(s, c, p);
    mid := Do(a, SendAsync(c, reply));
    assert mid.clients == s.clients[c := Client(Some(p), s.pid + 1, -1, Idle, Some(Flight(p, reply)), false)];
    RunFirst(a, SendAsync(c, reply), [], mid);
    assert [SendAsync(c, reply)] + [] == [SendAsync(c, reply)];
    RunThen(s, HeaderSteps(c), a, [SendAsync(c, reply)], mid);
    t := Do(mid, ReplyStep(c, reply));
    RunFirst(mid, ReplyStep(c, reply), [], t);
    assert [ReplyStep(c, reply)] + [] == [ReplyStep(c, reply)];
    assert t.packets == s.packets[p := if reply.End? then Packet(p, true, false, 0) else Packet(0, false, false, 0)];
    assert t.clients == s.clients[c := Client(if reply.End? then None else Some(p), s.pid + 1, -1, Idle, None, false)];
  }

  /** A call whose send fails: the client is reported busy although nothing is outstanding, and its packet is lost. */
  lemma FailedCallStaysBusy(s: State, c: nat) returns (t: State)
    requires Initial(s) && c < |s.clients| && 0 < |s.packets|
    ensures IsRun(s, HeaderSteps(c) + [SendFails(c)], t)
    ensures c < |t.clients| && Busy(t, c) && !Outstanding(t.clients[c]) && 0 in t.leaked
  {
    assert FirstFree(s.packets) == 0;
    var mid := HeaderStored(s, c, 0);
    t := Do(mid, SendFails(c));
    assert [SendFails(c)][1..] == [];
    assert IsRun(t, [], t);
    assert IsRun(mid, [SendFails(c)], t);
    RunThen(s, HeaderSteps(c), mid, [SendFails(c)], t);
  }
}
