/**
 * The "top thread" request ring (ee/kernel/src/thread.c): interrupt handlers post requests, one thread executes them,
 * and an interrupt may come between any two statements of that thread.
 */
module TopThread {
  import opened BitMask

  const MAX_COUNT := 255

  datatype Mode = Wakeup | Rotate | Suspend

  /** What a handler was asked for, and the two bytes it leaves in the ring. */
  datatype Ask = Ask(mode: Mode, value: int)
  datatype Slot = Slot(mode: Mode, data: int)

  /** The tests on lines 116, 139 and 161. */
  predicate Accepted(a: Ask) { if a.mode.Rotate? then a.value < 128 else a.value < 256 }

  /** Storing a value in a byte keeps it modulo 256. */
  function Stored(a: Ask): Slot { Slot(a.mode, a.value % 256) }

  function StoredAll(q: seq<Ask>): (r: seq<Slot>)
    ensures |r| == |q| && forall k :: 0 <= k < |q| ==> r[k] == Stored(q[k])
  {
    if q == [] then [] else [Stored(q[0])] + StoredAll(q[1..])
  }

  /** The consumer's next statement. */
  datatype Pc =
    | AtWait
    | Woken                        // WaitSema returned
    | Indexed(index: nat)          // index computed
    | Advanced(index: nat)         // requestOut stored
    | Chosen(index: nat, mode: Mode)  // the switch has read the mode

  /** `queued` and `done` are history: every accepted request and every executed one, oldest first. */
  datatype State = State(ring: seq<Slot>, requestIn: nat, requestOut: nat, sema: nat, pc: Pc, queued: seq<Ask>, done: seq<Slot>)

  datatype Step = Post(ask: Ask) | WaitSema | TakeIndex | StoreOut | ReadMode | Execute

  function Mask(x: nat): nat { x % 512 }

  /** The index the source computes. */
  lemma MaskIsAnd(x: nat)
    ensures Mask(x) == BitAnd(x, 0x1FF)
  {
    MaskIsRemainder(x, 9);
    assert Pow2(4) == 16;
    assert Pow2(8) == 256;
  }

  predicate Enabled(s: State, step: Step) {
    match step
    case Post(a) => Accepted(a)
    case WaitSema => s.pc.AtWait? && s.sema > 0
    case TakeIndex => s.pc.Woken?
    case StoreOut => s.pc.Indexed?
    case ReadMode => s.pc.Advanced? && s.pc.index < |s.ring|
    case Execute => s.pc.Chosen? && s.pc.index < |s.ring|
  }

  /** A handler runs with interrupts off, so it is one step; the semaphore does not count past its maximum. */
  function Posted(s: State, a: Ask): State
    requires |s.ring| == 512
  {
    var index := Mask(s.requestIn);
    s.(requestIn := index + 1, ring := s.ring[index := Stored(a)],
       sema := if s.sema < MAX_COUNT then s.sema + 1 else s.sema, queued := s.queued + [a])
  }

  function Do(s: State, step: Step): State
    requires |s.ring| == 512 && Enabled(s, step)
  {
    match step
    case Post(a) => Posted(s, a)
    case WaitSema => s.(sema := s.sema - 1, pc := Woken)
    case TakeIndex => s.(pc := Indexed(Mask(s.requestOut)))
    case StoreOut => s.(requestOut := s.pc.index + 1, pc := Advanced(s.pc.index))
    case ReadMode => s.(pc := Chosen(s.pc.index, s.ring[s.pc.index].mode))
    case Execute => s.(pc := AtWait, done := s.done + [Slot(s.pc.mode, s.ring[s.pc.index].data)])
  }

  predicate Initial(s: State) {
    |s.ring| == 512 && s.requestIn == 0 && s.requestOut == 0 && s.sema == 0 && s.pc.AtWait? && s.queued == [] && s.done == []
  }

  ghost predicate IsRun(s: State, steps: seq<Step>, t: State)
    decreases |steps|
  {
    if steps == [] then t == s else |s.ring| == 512 && Enabled(s, steps[0]) && IsRun(Do(s, steps[0]), steps[1..], t)
  }

  /** The semaphore is below its maximum whenever a handler posts. */
  ghost predicate NoneLost(s: State, steps: seq<Step>, t: State)
    requires IsRun(s, steps, t)
    decreases |steps|
  {
    steps == [] || ((steps[0].Post? ==> s.sema < MAX_COUNT) && NoneLost(Do(s, steps[0]), steps[1..], t))
  }

  /** Fewer than 512 requests wait whenever a handler posts. */
  ghost predicate NoneOverwritten(s: State, steps: seq<Step>, t: State)
    requires IsRun(s, steps, t)
    decreases |steps|
  {
    steps == [] ||
    ((steps[0].Post? ==> |s.queued| - |s.done| < 512) && NoneOverwritten(Do(s, steps[0]), steps[1..], t))
  }

  // ---- The invariant ----

  /** Signals taken so far, and requestOut stores made so far. */
  function Taken(s: State): nat { if s.pc.AtWait? then |s.done| else |s.done| + 1 }
  function Passed(s: State): nat { if s.pc.Advanced? || s.pc.Chosen? then |s.done| + 1 else |s.done| }

  /** The slot of the k-th request still holds it. */
  ghost predicate InRing(s: State, k: nat)
    requires k < |s.queued|
  {
    |s.ring| == 512 && s.ring[Mask(k)] == Stored(s.queued[k])
  }

  /** Requests are executed in order and every one that waits still stands in its slot; signals may have been lost. */
  ghost predicate InOrder(s: State) {
    && |s.ring| == 512
    && Taken(s) <= |s.queued| <= |s.done| + 512 && s.sema <= |s.queued| - Taken(s)
    && Mask(s.requestIn) == Mask(|s.queued|)
    && Mask(s.requestOut) == Mask(Passed(s))
    && (s.pc.Indexed? || s.pc.Advanced? || s.pc.Chosen? ==> s.pc.index == Mask(|s.done|))
    && (s.pc.Chosen? ==> s.pc.mode == s.queued[|s.done|].mode)
    && (forall k {:trigger InRing(s, k)} :: |s.done| <= k < |s.queued| ==> InRing(s, k))
    && s.done == StoredAll(s.queued)[..|s.done|]
  }

  /** Moreover every waiting request has its signal. */
  ghost predicate Inv(s: State) {
    InOrder(s) && s.sema == |s.queued| - Taken(s) && s.sema <= MAX_COUNT
  }

  lemma MaskNext(x: nat, y: nat)
    requires Mask(x) == Mask(y)
    ensures Mask(Mask(x) + 1) == Mask(y + 1)
  {
  }

  lemma MaskApart(a: nat, b: nat)
    requires a < b < a + 512
    ensures Mask(a) != Mask(b)
  {
  }

  lemma MaskSame(a: nat)
    ensures Mask(a + 512) == Mask(a)
  {
  }

  /** With fewer than 512 requests waiting a post lands in a slot that none of them occupies. */
  lemma PostInOrder(s: State, a: Ask)
    requires InOrder(s) && |s.queued| - |s.done| < 512
    ensures InOrder(Posted(s, a))
    ensures forall k :: |s.done| <= k < |s.queued| ==> Mask(k) != Mask(s.requestIn)
  {
    var t := Posted(s, a);
    MaskNext(s.requestIn, |s.queued|);
    forall k | |s.done| <= k < |s.queued| ensures Mask(k) != Mask(s.requestIn) {
      MaskApart(k, |s.queued|);
    }
    forall k | |t.done| <= k < |t.queued| ensures InRing(t, k) {
      if k < |s.queued| { assert InRing(s, k); }
    }
    assert StoredAll(t.queued)[..|t.done|] == StoredAll(s.queued)[..|s.done|];
  }

  lemma PostKeeps(s: State, a: Ask)
    requires Inv(s) && s.sema < MAX_COUNT
    ensures Inv(Posted(s, a))
    ensures forall k :: |s.done| <= k < |s.queued| ==> Mask(k) != Mask(s.requestIn)
  {
    PostInOrder(s, a);
  }

  lemma ConsumeKeeps(s: State, step: Step)
    requires InOrder(s) && Enabled(s, step) && !step.Post? && !step.Execute?
    ensures InOrder(Do(s, step)) && (Inv(s) ==> Inv(Do(s, step)))
  {
    var t := Do(s, step);
    if step.StoreOut? { MaskNext(|s.done|, |s.done|); }
    forall k | |t.done| <= k < |t.queued| ensures InRing(t, k) {
      assert InRing(s, k);
    }
    if step.ReadMode? { assert InRing(s, |s.done|); }
  }

  lemma ExecuteKeeps(s: State)
    requires InOrder(s) && Enabled(s, Execute)
    ensures InOrder(Do(s, Execute)) && (Inv(s) ==> Inv(Do(s, Execute)))
  {
    var t := Do(s, Execute);
    forall k | |t.done| <= k < |t.queued| ensures InRing(t, k) {
      assert InRing(s, k);
    }
    assert InRing(s, |s.done|);
    PrefixNext(s.queued, |s.done|);
  }

  lemma {:induction false} PrefixNext(q: seq<Ask>, n: nat)
    requires n < |q|
    ensures StoredAll(q)[..n + 1] == StoredAll(q)[..n] + [Stored(q[n])]
  {
    var r := StoredAll(q);
    assert r[..n + 1] == r[..n] + [r[n]];
  }

  lemma {:induction false} RunKeepsInv(s: State, steps: seq<Step>, t: State)
    requires Inv(s) && IsRun(s, steps, t) && NoneLost(s, steps, t)
    ensures Inv(t)
    decreases |steps|
  {
    if steps != [] {
      if steps[0].Post? {
        PostKeeps(s, steps[0].ask);
      } else if steps[0].Execute? {
        ExecuteKeeps(s);
      } else {
        ConsumeKeeps(s, steps[0]);
      }
      RunKeepsInv(Do(s, steps[0]), steps[1..], t);
    }
  }

  lemma {:induction false} RunKeepsOrder(s: State, steps: seq<Step>, t: State)
    requires InOrder(s) && IsRun(s, steps, t) && NoneOverwritten(s, steps, t)
    ensures InOrder(t)
    decreases |steps|
  {
    if steps != [] {
      if steps[0].Post? {
        PostInOrder(s, steps[0].ask);
      } else if steps[0].Execute? {
        ExecuteKeeps(s);
      } else {
        ConsumeKeeps(s, steps[0]);
      }
      RunKeepsOrder(Do(s, steps[0]), steps[1..], t);
    }
  }

  // ---- The ring is a queue ----

  /**
   * What has been executed is what was posted, in order and once each; while the thread sleeps with something left to
   * do it can be woken; and a request that waits still stands in its slot.
   */
  lemma FirstInFirstOut(s: State, steps: seq<Step>, t: State)
    requires Initial(s) && IsRun(s, steps, t) && NoneLost(s, steps, t)
    ensures |t.done| <= |t.queued| && t.done == StoredAll(t.queued)[..|t.done|]
    ensures t.pc.AtWait? && |t.done| < |t.queued| ==> Enabled(t, WaitSema)
    ensures |t.queued| - |t.done| <= 256
    ensures forall k :: |t.done| <= k < |t.queued| ==> InRing(t, k)
  {
    RunKeepsInv(s, steps, t);
  }

  /** Order needs less: lost signals delay requests but do not reorder them as long as no post meets 512 waiting requests. */
  lemma OrderKept(s: State, steps: seq<Step>, t: State)
    requires Initial(s) && IsRun(s, steps, t) && NoneOverwritten(s, steps, t)
    ensures |t.done| <= |t.queued| && t.done == StoredAll(t.queued)[..|t.done|]
    ensures forall k :: |t.done| <= k < |t.queued| ==> InRing(t, k)
  {
    RunKeepsOrder(s, steps, t);
  }

  /** A post leaves every waiting request in its slot if and only if fewer than 512 wait or the oldest is the same request. */
  lemma OverwriteExact(s: State, a: Ask)
    requires InOrder(s)
    ensures (forall k {:trigger InRing(Posted(s, a), k)} :: |s.done| <= k < |s.queued| ==> InRing(Posted(s, a), k)) <==>
            (|s.queued| - |s.done| < 512 || Stored(a) == Stored(s.queued[|s.done|]))
  {
    var t := Posted(s, a);
    if |s.queued| - |s.done| < 512 {
      PostInOrder(s, a);
    } else {
      var oldest := |s.done|;
      MaskSame(oldest);
      assert InRing(s, oldest);
      assert Mask(s.requestIn) == Mask(oldest);
      assert InRing(t, oldest) <==> Stored(a) == Stored(s.queued[oldest]);
      forall k | oldest < k < |s.queued| ensures InRing(t, k) {
        MaskApart(oldest, k);
        assert InRing(s, k);
      }
    }
  }

  /** Requests posted but neither executed nor signalled. */
  function Unsignalled(s: State): int { |s.queued| - Taken(s) - s.sema }

  lemma {:induction false} LostForever(s: State, steps: seq<Step>, t: State)
    requires IsRun(s, steps, t)
    ensures Unsignalled(t) >= Unsignalled(s)
    ensures Unsignalled(t) == Unsignalled(s) <==> NoneLost(s, steps, t)
    decreases |steps|
  {
    if steps != [] { LostForever(Do(s, steps[0]), steps[1..], t); }
  }

  /**
   * When the thread is back asleep with no signal left, everything posted has been executed if and only if no handler
   * posted while 255 signals were pending.
   */
  lemma AllExecutedExact(s: State, steps: seq<Step>, t: State)
    requires Initial(s) && IsRun(s, steps, t) && t.pc.AtWait? && t.sema == 0
    ensures t.done == StoredAll(t.queued) <==> NoneLost(s, steps, t)
  {
    LostForever(s, steps, t);
    if NoneLost(s, steps, t) { RunKeepsInv(s, steps, t); }
  }

  /** A request is executed with the number that was asked for exactly when that number is not negative. */
  lemma ExecutedAsAsked(s: State, steps: seq<Step>, t: State, k: nat)
    requires Initial(s) && IsRun(s, steps, t) && NoneOverwritten(s, steps, t) && k < |t.done|
    ensures k < |t.queued| && t.done[k].mode == t.queued[k].mode
    ensures t.done[k].data == t.queued[k].value <==> 0 <= t.queued[k].value
  {
    RunKeepsOrder(s, steps, t);
    QueuedAccepted(s, steps, t);
    assert t.done[k] == StoredAll(t.queued)[k];
    assert Accepted(t.queued[k]);
  }

  lemma {:induction false} QueuedAccepted(s: State, steps: seq<Step>, t: State)
    requires IsRun(s, steps, t) && forall k :: 0 <= k < |s.queued| ==> Accepted(s.queued[k])
    ensures forall k :: 0 <= k < |t.queued| ==> Accepted(t.queued[k])
    decreases |steps|
  {
    if steps != [] { QueuedAccepted(Do(s, steps[0]), steps[1..], t); }
  }

  // ---- Runs that lose a signal, a number or a request ----

  function Posts(a: Ask, n: nat): seq<Step> {
    if n == 0 then [] else [Post(a)] + Posts(a, n - 1)
  }

  /** `n` posts of one request while the thread sleeps. */
  lemma {:induction false} PostsRun(s: State, a: Ask, n: nat) returns (t: State)
    requires |s.ring| == 512 && Accepted(a) && s.pc.AtWait? && s.sema <= MAX_COUNT
    ensures IsRun(s, Posts(a, n), t) && |t.ring| == 512
    ensures t.pc.AtWait? && t.done == s.done && t.requestOut == s.requestOut
    ensures |t.queued| == |s.queued| + n && t.queued[..|s.queued|] == s.queued
    ensures forall k :: |s.queued| <= k < |t.queued| ==> t.queued[k] == a
    ensures t.sema == if s.sema + n <= MAX_COUNT then s.sema + n else MAX_COUNT
    ensures NoneLost(s, Posts(a, n), t) <==> s.sema + n <= MAX_COUNT
    ensures NoneOverwritten(s, Posts(a, n), t) <==> n == 0 || |s.queued| + n - |s.done| <= 512
    decreases n
  {
    t := s;
    if n > 0 {
      var u := Posted(s, a);
      t := PostsRun(u, a, n - 1);
      assert Posts(a, n)[1..] == Posts(a, n - 1) && Posts(a, n)[0] == Post(a);
      assert t.queued[|s.queued|] == u.queued[|s.queued|];
      assert t.queued[..|s.queued|] == u.queued[..|s.queued|];
    }
  }

  /** 256 posts before the thread first runs: the last one gets no signal. */
  lemma SignalLost(s: State, a: Ask) returns (t: State)
    requires Initial(s) && Accepted(a)
    ensures IsRun(s, Posts(a, 256), t) && !NoneLost(s, Posts(a, 256), t)
    ensures |t.queued| == 256 && t.sema == 255 && Unsignalled(t) == 1
  {
    t := PostsRun(s, a, 256);
  }

  const TURN: seq<Step> := [WaitSema, TakeIndex, StoreOut, ReadMode, Execute]

  /** One turn of the loop with no post inside it. */
  lemma TurnRun(s: State) returns (t: State)
    requires |s.ring| == 512 && s.pc.AtWait? && s.sema > 0
    ensures IsRun(s, TURN, t) && NoneLost(s, TURN, t)
    ensures t == s.(sema := s.sema - 1, requestOut := Mask(s.requestOut) + 1, done := s.done + [s.ring[Mask(s.requestOut)]])
  {
    var a := Do(s, WaitSema);
    var b := Do(a, TakeIndex);
    var c := Do(b, StoreOut);
    var d := Do(c, ReadMode);
    t := Do(d, Execute);
    RunStep(d, Execute, [], t);
    RunStep(c, ReadMode, [Execute], t);
    RunStep(b, StoreOut, [ReadMode, Execute], t);
    RunStep(a, TakeIndex, [StoreOut, ReadMode, Execute], t);
    RunStep(s, WaitSema, [TakeIndex, StoreOut, ReadMode, Execute], t);
    assert TURN == [WaitSema] + [TakeIndex, StoreOut, ReadMode, Execute];
  }

  lemma RunStep(s: State, step: Step, rest: seq<Step>, t: State)
    requires |s.ring| == 512 && Enabled(s, step) && IsRun(Do(s, step), rest, t) && NoneLost(Do(s, step), rest, t)
    requires step.Post? ==> s.sema < MAX_COUNT
    ensures IsRun(s, [step] + rest, t) && NoneLost(s, [step] + rest, t)
  {
    assert ([step] + rest)[1..] == rest;
  }

  /** A posted rotation of priority -1 is executed as one of priority 255. */
  lemma NegativePriority(s: State) returns (t: State)
    requires Initial(s)
    ensures IsRun(s, [Post(Ask(Rotate, -1))] + TURN, t) && NoneLost(s, [Post(Ask(Rotate, -1))] + TURN, t)
    ensures t.queued == [Ask(Rotate, -1)] && t.done == [Slot(Rotate, 255)]
  {
    var a := Do(s, Post(Ask(Rotate, -1)));
    t := TurnRun(a);
    RunStep(s, Post(Ask(Rotate, -1)), TURN, t);
  }

  /** 513 posts before the thread first runs: the last one is executed first, in the place of the first one. */
  lemma RequestOverwritten(s: State, a: Ask, b: Ask) returns (u: State, t: State)
    requires Initial(s) && Accepted(a) && Accepted(b) && Stored(a) != Stored(b)
    ensures IsRun(s, Posts(a, 512), u) && NoneOverwritten(s, Posts(a, 512), u)
    ensures |u.ring| == 512 && IsRun(Posted(u, b), TURN, t)
    ensures t.queued[0] == a && t.done == [Stored(b)] && !(t.done <= StoredAll(t.queued))
  {
    u := PostsRun(s, a, 512);
    RunKeepsOrder(s, Posts(a, 512), u);
    t := TurnRun(Posted(u, b));
    assert Mask(u.requestIn) == Mask(512) == 0;
    assert t.done[0] == Stored(b) && StoredAll(t.queued)[0] == Stored(a);
  }

  /** One uninterrupted turn of the loop. */
  lemma TurnKeeps(s: State)
    requires Inv(s) && s.pc.AtWait? && s.sema > 0
    ensures |s.done| < |s.queued| && s.ring[Mask(s.requestOut)] == Stored(s.queued[|s.done|])
    ensures Inv(s.(sema := s.sema - 1, requestOut := Mask(s.requestOut) + 1, done := s.done + [Stored(s.queued[|s.done|])]))
  {
    assert InRing(s, |s.done|);
    var t := TurnRun(s);
    RunKeepsInv(s, TURN, t);
  }

  // ---- The handlers and the thread over the ring in memory ----

  /** `t` is `s` with one more request in the next of the 512 slots, as a mode and a byte, and one more signal, up to 255. */
  ghost predicate Carries(s: State, mode: Mode, value: int, t: State) {
    && |s.ring| == 512
    && t == State(s.ring[s.requestIn % 512 := Slot(mode, value % 256)], s.requestIn % 512 + 1, s.requestOut,
                  if s.sema < 255 then s.sema + 1 else s.sema, s.pc, s.queued + [Ask(mode, value)], s.done)
  }

  class TopArg {
    const request: array<Slot>
    var requestOut: nat
    var requestIn: nat
    var sema: nat
    ghost var pc: Pc
    ghost var queued: seq<Ask>
    ghost var done: seq<Slot>

    ghost function S(): State
      reads this, request
    {
      State(request[..], requestIn, requestOut, sema, pc, queued, done)
    }

    constructor ()
      ensures Initial(S()) && fresh(request)
    {
      request := new Slot[512](_ => Slot(Wakeup, 0));
      requestOut, requestIn, sema, pc, queued, done := 0, 0, 0, AtWait, [], [];
    }

    method Enqueue(mode: Mode, value: int)
      requires request.Length == 512
      modifies this, request
      ensures S() == Posted(old(S()), Ask(mode, value))
    {
      var index := Mask(requestIn);
      requestIn := index + 1;
      request[index] := Slot(mode, value % 256);
      if sema < MAX_COUNT { sema := sema + 1; }
      queued := queued + [Ask(mode, value)];
    }

    /** iWakeupThread, iSuspendThread: a thread other than the running one goes to the kernel's own call. */
    method WakeOrSuspend(mode: Mode, running: int, thread: int, topId: int, kernelResult: int) returns (r: int)
      requires request.Length == 512 && !mode.Rotate?
      modifies this, request
      ensures r == if running != thread then kernelResult else if thread < 256 && topId != 0 then 0 else -1
      ensures if running == thread && thread < 256 && topId != 0 then Carries(old(S()), mode, thread, S()) else S() == old(S())
      ensures S() == if running == thread && topId != 0 && Enabled(old(S()), Post(Ask(mode, thread))) then
                       Do(old(S()), Post(Ask(mode, thread))) else old(S())
    {
      if running == thread {
        if thread < 256 && topId != 0 {
          Enqueue(mode, thread);
          return 0;
        } else {
          return -1;
        }
      } else {
        return kernelResult;
      }
    }

    method RotateReadyQueue(priority: int, topId: int) returns (r: int)
      requires request.Length == 512
      modifies this, request
      ensures r == if priority < 128 && topId != 0 then 0 else -1
      ensures if priority < 128 && topId != 0 then Carries(old(S()), Rotate, priority, S()) else S() == old(S())
      ensures S() == if topId != 0 && Enabled(old(S()), Post(Ask(Rotate, priority))) then
                       Do(old(S()), Post(Ask(Rotate, priority))) else old(S())
    {
      if priority < 128 && topId != 0 {
        Enqueue(Rotate, priority);
        return 0;
      } else {
        return -1;
      }
    }

    /** One turn of topThread with no interrupt inside it: it executes the oldest request. */
    method Turn() returns (executed: Slot)
      requires request.Length == 512 && pc.AtWait? && sema > 0 && Inv(S())
      modifies this`sema, this`requestOut, this`done
      ensures Inv(S()) && queued == old(queued)
      ensures |old(done)| < |queued| && executed == Stored(queued[|old(done)|]) && done == old(done) + [executed]
    {
      TurnKeeps(S());
      sema := sema - 1;
      var index := Mask(requestOut);
      requestOut := index + 1;
      assert request[..][index] == request[index];
      executed := Slot(request[index].mode, request[index].data);
      done := done + [executed];
    }
  }
}
