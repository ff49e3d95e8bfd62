/** The lock protocol of memory checking (crypto/mem_dbg.c): CRYPTO_mem_ctrl's DISABLE and ENABLE
    cases and CRYPTO_is_mem_check_on, as one step per shared access, interleaved over any threads.
    MALLOC is held briefly; MALLOC2 is held for as long as checking is disabled. */
module MemCheckLocks {
  import opened Options

  type Thread = nat

  // Where a thread is. "Want" states wait for a lock.
  datatype PC =
    | Idle
    | OffWant | OffTest | OffWant2 | OffRetake | OffMode | OffId | OffCount
    | OnWant | OnCount | OnMode | OnUnlock2
    | Leave
    | CheckWant | CheckRead | CheckLeave(answer: bool)

  datatype State = State(
    on: bool,            // mh_mode & CRYPTO_MEM_CHECK_ON
    enable: bool,        // mh_mode & CRYPTO_MEM_CHECK_ENABLE
    numDisable: nat,
    disabling: Thread,
    malloc: Option<Thread>,
    readers: set<Thread>,
    malloc2: Option<Thread>,
    pc: seq<PC>,         // by thread
    depth: seq<nat>)   // calls of MemCheck_off less calls of MemCheck_on

  predicate Shaped(s: State) { |s.depth| == |s.pc| }

  function Goto(s: State, t: Thread, pc: PC): State
    requires t < |s.pc|
  {
    s.(pc := s.pc[t := pc])
  }

  // What thread t does next on its own; None when it waits for a lock or is idle.
  function Advance(s: State, t: Thread): Option<State>
    requires Shaped(s) && t < |s.pc|
  {
    match s.pc[t]
    case Idle => None
    case OffWant => if s.malloc.None? && s.readers == {} then Some(Goto(s.(malloc := Some(t)), t, OffTest)) else None
    case OffTest =>
      if !s.on then Some(Goto(s.(depth := s.depth[t := s.depth[t] + 1]), t, Leave))
      else if s.numDisable == 0 || s.disabling != t then Some(Goto(s.(malloc := None), t, OffWant2))
      else Some(Goto(s, t, OffCount))
    case OffWant2 => if s.malloc2.None? then Some(Goto(s.(malloc2 := Some(t)), t, OffRetake)) else None
    case OffRetake => if s.malloc.None? && s.readers == {} then Some(Goto(s.(malloc := Some(t)), t, OffMode)) else None
    case OffMode => Some(Goto(s.(enable := false), t, OffId))
    case OffId => Some(Goto(s.(disabling := t), t, OffCount))
    case OffCount => Some(Goto(s.(numDisable := s.numDisable + 1, depth := s.depth[t := s.depth[t] + 1]), t, Leave))
    case OnWant => if s.malloc.None? && s.readers == {} then Some(Goto(s.(malloc := Some(t)), t, OnCount)) else None
    case OnCount =>
      var d := s.depth[t := if s.depth[t] > 0 then s.depth[t] - 1 else 0];
      if !s.on || s.numDisable == 0 then Some(Goto(s.(depth := d), t, Leave))
      else Some(Goto(s.(numDisable := s.numDisable - 1, depth := d), t, if s.numDisable == 1 then OnMode else Leave))
    case OnMode => Some(Goto(s.(enable := true), t, OnUnlock2))
    case OnUnlock2 => Some(Goto(s.(malloc2 := None), t, Leave))
    case Leave => Some(Goto(s.(malloc := None), t, Idle))
    case CheckWant => if s.malloc.None? then Some(Goto(s.(readers := s.readers + {t}), t, CheckRead)) else None
    case CheckRead => Some(Goto(s, t, CheckLeave(s.enable || s.disabling != t)))
    case CheckLeave(_) => Some(Goto(s.(readers := s.readers - {t}), t, Idle))
  }

  // An idle thread calls MemCheck_off, MemCheck_on if it owes one, or is_MemCheck_on when checking is on.
  predicate Call(s: State, t: Thread, s': State)
    requires Shaped(s)
  {
    && t < |s.pc| && s.pc[t] == Idle
    && (s' == Goto(s, t, OffWant) || (s.depth[t] > 0 && s' == Goto(s, t, OnWant)) || (s.on && s' == Goto(s, t, CheckWant)))
  }

  predicate Step(s: State, t: Thread, s': State)
    requires Shaped(s)
  {
    t < |s.pc| && (Advance(s, t) == Some(s') || Call(s, t, s'))
  }

  predicate Initial(s: State) {
    && Shaped(s) && s.enable == s.on && s.numDisable == 0 && s.malloc == None && s.readers == {} && s.malloc2 == None
    && (forall t :: 0 <= t < |s.pc| ==> s.pc[t] == Idle && s.depth[t] == 0)
  }

  // ---------- the invariant ----------

  predicate HoldsMalloc(pc: PC) {
    pc.OffTest? || pc.OffMode? || pc.OffId? || pc.OffCount? || pc.OnCount? || pc.OnMode? || pc.OnUnlock2? || pc.Leave?
  }

  predicate Reading(pc: PC) { pc.CheckRead? || pc.CheckLeave? }

  // Between taking MALLOC2 and counting the first disable, and between the last count and giving it back.
  predicate Transit(pc: PC) { pc.OffRetake? || pc.OffMode? || pc.OffId? || pc.OnMode? || pc.OnUnlock2? }

  predicate Owns(s: State, t: Thread)
    requires Shaped(s) && t < |s.pc|
  {
    s.on && (s.depth[t] > 0 || Transit(s.pc[t]) || s.pc[t].OffCount?)
  }

  predicate ThreadOk(s: State, t: Thread)
    requires Shaped(s) && t < |s.pc|
  {
    && (HoldsMalloc(s.pc[t]) <==> s.malloc == Some(t))
    && (Reading(s.pc[t]) <==> t in s.readers)
    && (Owns(s, t) <==> s.malloc2 == Some(t))
    && (Transit(s.pc[t]) || s.pc[t].OffWant2? ==> s.on && s.depth[t] == 0)
    && (s.pc[t].OffCount? ==> s.on)
    && (s.pc[t].OnWant? || s.pc[t].OnCount? ==> s.depth[t] > 0)
    && (s.pc[t].CheckWant? || Reading(s.pc[t]) ==> s.on)
  }

  // The shared variables, from the owner of MALLOC2.
  predicate SharedOk(s: State)
    requires Shaped(s)
  {
    && (s.malloc.Some? ==> s.malloc.value < |s.pc| && s.readers == {})
    && (forall r :: r in s.readers ==> r < |s.pc|)
    && match s.malloc2
       case None => s.numDisable == 0 && s.enable == s.on
       case Some(t) =>
         && t < |s.pc| && s.on && s.numDisable == s.depth[t]
         && (s.enable <==> s.pc[t].OffRetake? || s.pc[t].OffMode? || s.pc[t].OnUnlock2?)
         && (s.pc[t].OffRetake? || s.pc[t].OffMode? || s.pc[t].OffId? || s.disabling == t)
  }

  predicate Inv(s: State) {
    Shaped(s) && SharedOk(s) && forall t :: 0 <= t < |s.pc| ==> ThreadOk(s, t)
  }

  lemma InitialInv(s: State)
    requires Initial(s)
    ensures Inv(s)
  {}

  lemma CallInv(s: State, t: Thread, s': State)
    requires Inv(s) && Call(s, t, s')
    ensures Inv(s')
  {
    forall u | 0 <= u < |s'.pc| ensures ThreadOk(s', u) { assert ThreadOk(s, u); }
  }

  lemma AdvanceShared(s: State, t: Thread, s': State)
    requires Shaped(s) && SharedOk(s) && t < |s.pc| && ThreadOk(s, t) && (s.malloc2.Some? ==> ThreadOk(s, s.malloc2.value))
    requires Advance(s, t) == Some(s')
    ensures Shaped(s') && |s'.pc| == |s.pc| && SharedOk(s')
  {}

  lemma AdvanceSelf(s: State, t: Thread, s': State)
    requires Shaped(s) && SharedOk(s) && t < |s.pc| && ThreadOk(s, t) && (s.malloc2.Some? ==> ThreadOk(s, s.malloc2.value))
    requires Advance(s, t) == Some(s')
    ensures Shaped(s') && t < |s'.pc| && ThreadOk(s', t)
  {}

  lemma AdvanceOther(s: State, t: Thread, s': State, u: Thread)
    requires Shaped(s) && SharedOk(s) && t < |s.pc| && u < |s.pc| && u != t && ThreadOk(s, t) && ThreadOk(s, u)
    requires Advance(s, t) == Some(s')
    ensures Shaped(s') && u < |s'.pc| && ThreadOk(s', u)
  {}

  /** Every step keeps the invariant. */
  lemma {:induction false} StepInv(s: State, t: Thread, s': State)
    requires Inv(s) && Step(s, t, s')
    ensures Inv(s') && |s'.pc| == |s.pc| && s'.on == s.on
  {
    if Call(s, t, s') {
      CallInv(s, t, s');
    } else {
      hide ThreadOk, SharedOk, Advance;
      AdvanceShared(s, t, s');
      forall u | 0 <= u < |s'.pc| ensures ThreadOk(s', u) {
        if u == t { AdvanceSelf(s, t, s'); } else { AdvanceOther(s, t, s', u); }
      }
      AdvanceKeepsMode(s, t, s');
    }
  }

  lemma AdvanceKeepsMode(s: State, t: Thread, s': State)
    requires Shaped(s) && t < |s.pc| && Advance(s, t) == Some(s')
    ensures s'.on == s.on
  {}

  // A run: states, each reached from the one before by a step of some thread.
  ghost predicate Run(h: seq<State>) {
    |h| > 0 && Initial(h[0]) && forall i :: 0 < i < |h| ==> Reached(h[i - 1], h[i])
  }

  ghost predicate Reached(s: State, s': State) { Shaped(s) && exists t :: Step(s, t, s') }

  /** The invariant holds in every state of every interleaving. */
  lemma {:induction false} RunInv(h: seq<State>, i: nat)
    requires Run(h) && i < |h|
    ensures Inv(h[i])
  {
    hide Inv, Step, Initial;
    if i == 0 {
      InitialInv(h[0]);
    } else {
      RunInv(h, i - 1);
      assert Reached(h[i - 1], h[i]);
      var t :| Step(h[i - 1], t, h[i]);
      StepInv(h[i - 1], t, h[i]);
    }
  }

  // ---------- what the source promises ----------

  // No thread is between its two writes of the mode and the count.
  predicate Settled(s: State)
    requires Shaped(s)
  {
    forall t :: 0 <= t < |s.pc| ==> !(s.pc[t].OffId? || s.pc[t].OffCount? || s.pc[t].OnMode?)
  }

  /** num_disable > 0 exactly when checking is on but not enabled; then MALLOC2 is held by
      disabling_threadid, and num_disable is that thread's nesting depth. */
  lemma {:induction false} DisabledState(h: seq<State>, i: nat)
    requires Run(h) && i < |h|
    ensures var s := h[i];
            && Shaped(s)
            && (Settled(s) ==> (s.numDisable > 0 <==> s.on && !s.enable))
            && (s.numDisable > 0 ==> s.malloc2 == Some(s.disabling) && s.disabling < |s.pc| && s.numDisable == s.depth[s.disabling])
            && (s.malloc == None ==> Settled(s))
  {
    RunInv(h, i);
    var s := h[i];
    forall t | 0 <= t < |s.pc| && s.malloc == None ensures !(s.pc[t].OffId? || s.pc[t].OffCount? || s.pc[t].OnMode?) {
      assert ThreadOk(s, t);
    }
    if s.malloc2.Some? { assert ThreadOk(s, s.malloc2.value); }
  }

  /** No thread waits for MALLOC2 while it holds MALLOC, for writing or for reading. */
  lemma {:induction false} NoWaitUnderMalloc(h: seq<State>, i: nat, t: Thread)
    requires Run(h) && i < |h| && t < |h[i].pc| && h[i].pc[t] == OffWant2
    ensures h[i].malloc != Some(t) && t !in h[i].readers
  {
    RunInv(h, i);
    assert ThreadOk(h[i], t);
  }

  /** is_MemCheck_on answers no exactly to the thread that has checking disabled. */
  lemma {:induction false} CheckAnswer(h: seq<State>, i: nat, t: Thread)
    requires Run(h) && i < |h| && t < |h[i].pc| && h[i].pc[t] == CheckRead
    ensures Shaped(h[i]) && Advance(h[i], t) == Some(Goto(h[i], t, CheckLeave(!(h[i].numDisable > 0 && h[i].disabling == t))))
  {
    RunInv(h, i);
    var s := h[i];
    assert ThreadOk(s, t);
    if s.malloc2.Some? { assert ThreadOk(s, s.malloc2.value); }
  }

  /** Only the owner of MALLOC2 has calls of MemCheck_off outstanding. */
  lemma {:induction false} OneDisabler(h: seq<State>, i: nat, t: Thread, u: Thread)
    requires Run(h) && i < |h| && t < |h[i].pc| && u < |h[i].pc| && h[i].on
    requires Shaped(h[i]) && h[i].depth[t] > 0 && h[i].depth[u] > 0
    ensures t == u
  {
    RunInv(h, i);
    assert ThreadOk(h[i], t) && ThreadOk(h[i], u);
  }

  // ---------- counting calls ----------

  // Thread t enters a call.
  predicate Begins(s: State, s': State, t: Thread, want: PC) {
    t < |s.pc| && t < |s'.pc| && s.pc[t] == Idle && s'.pc[t] == want
  }

  // The calls of one kind that t has made, from the history of program counters alone.
  function Calls(h: seq<State>, i: nat, t: Thread, want: PC): nat
    requires i < |h|
  {
    if i == 0 then 0 else Calls(h, i - 1, t, want) + (if Begins(h[i - 1], h[i], t, want) then 1 else 0)
  }

  function Offs(h: seq<State>, i: nat, t: Thread): nat requires i < |h| { Calls(h, i, t, OffWant) }

  function Ons(h: seq<State>, i: nat, t: Thread): nat requires i < |h| { Calls(h, i, t, OnWant) }

  // A call of MemCheck_off, or of MemCheck_on, that has begun and not yet counted.
  predicate OffOpen(pc: PC) {
    pc.OffWant? || pc.OffTest? || pc.OffWant2? || pc.OffRetake? || pc.OffMode? || pc.OffId? || pc.OffCount?
  }

  predicate OnOpen(pc: PC) { pc.OnWant? || pc.OnCount? }

  function Balance(s: State, t: Thread): int
    requires Shaped(s) && t < |s.pc|
  {
    var d: int := s.depth[t];
    d + (if OffOpen(s.pc[t]) then 1 else 0) - (if OnOpen(s.pc[t]) then 1 else 0)
  }

  lemma AdvanceBalance(s: State, t: Thread, s': State, u: Thread)
    requires Shaped(s) && t < |s.pc| && u < |s.pc| && Advance(s, t) == Some(s') && (s.pc[t].OnCount? ==> s.depth[t] > 0)
    ensures Shaped(s') && |s'.pc| == |s.pc| && Balance(s', u) == Balance(s, u)
    ensures !Begins(s, s', u, OffWant) && !Begins(s, s', u, OnWant)
  {
    match s.pc[t] {
      case OffCount => assert s'.depth[t] == s.depth[t] + 1;
      case OnCount => assert s'.depth[t] == s.depth[t] - 1;
      case _ =>
    }
  }

  lemma CountOwed(s: State, t: Thread)
    requires Inv(s) && t < |s.pc|
    ensures s.pc[t].OnCount? ==> s.depth[t] > 0
  {
    assert ThreadOk(s, t);
  }

  lemma StepBalance(s: State, t: Thread, s': State, u: Thread)
    requires Inv(s) && Step(s, t, s') && u < |s.pc|
    ensures Shaped(s') && |s'.pc| == |s.pc|
    ensures Balance(s', u) == Balance(s, u) + (if Begins(s, s', u, OffWant) then 1 else 0) - (if Begins(s, s', u, OnWant) then 1 else 0)
  {
    hide ThreadOk, SharedOk, Advance;
    if Advance(s, t) == Some(s') {
      CountOwed(s, t);
      AdvanceBalance(s, t, s', u);
    }
  }

  /** At every moment of a run a thread's calls of MemCheck_off less its calls of MemCheck_on are what it has counted and
      what it is about to count. */
  lemma {:induction false} CallsBalance(h: seq<State>, i: nat, t: Thread)
    requires Run(h) && i < |h| && t < |h[i].pc|
    ensures Shaped(h[i]) && Offs(h, i, t) - Ons(h, i, t) == Balance(h[i], t)
  {
    hide Inv, Step, Balance, Begins;
    if i == 0 {
      StartBalance(h[0], t);
    } else {
      RunInv(h, i - 1);
      assert Reached(h[i - 1], h[i]);
      var u :| Step(h[i - 1], u, h[i]);
      StepInv(h[i - 1], u, h[i]);
      CallsBalance(h, i - 1, t);
      StepBalance(h[i - 1], u, h[i], t);
    }
  }

  lemma StartBalance(s: State, t: Thread)
    requires Initial(s) && t < |s.pc|
    ensures Balance(s, t) == 0
  {}

  /** While t is outside of any call, has called MemCheck_off more often than MemCheck_on, and checking is on: num_disable is
      the difference, checking is disabled by t, and t holds MALLOC2. */
  lemma {:induction false} Disabler(h: seq<State>, i: nat, t: Thread)
    requires Run(h) && i < |h| && t < |h[i].pc| && h[i].on && h[i].pc[t] == Idle && Offs(h, i, t) > Ons(h, i, t)
    ensures var s := h[i]; s.numDisable == Offs(h, i, t) - Ons(h, i, t) && !s.enable && s.disabling == t && s.malloc2 == Some(t)
  {
    RunInv(h, i);
    CallsBalance(h, i, t);
    assert ThreadOk(h[i], t);
  }

  lemma IdleThread(s: State, t: Thread)
    requires Shaped(s) && t < |s.pc| && ThreadOk(s, t) && s.pc[t] == Idle && Balance(s, t) == 0
    ensures NoHold(s, t)
  {}

  predicate NoHold(s: State, t: Thread) { s.malloc2 != Some(t) && s.malloc != Some(t) && t !in s.readers }

  lemma FreeState(s: State)
    requires Shaped(s) && SharedOk(s) && forall t :: 0 <= t < |s.pc| ==> NoHold(s, t)
    ensures s.numDisable == 0 && s.enable == s.on && s.malloc2 == None && s.malloc == None && s.readers == {}
  {
    assert s.malloc2.Some? ==> !NoHold(s, s.malloc2.value);
    assert s.malloc.Some? ==> !NoHold(s, s.malloc.value);
    assert forall r :: r in s.readers ==> !NoHold(s, r);
    NoReaders(s.readers);
  }

  /** When all threads are outside of any call and have called MemCheck_on as often as MemCheck_off, checking is as it was
      at the start and every lock is free. */
  lemma {:induction false} AllBalanced(h: seq<State>, i: nat)
    requires Run(h) && i < |h|
    requires forall t :: 0 <= t < |h[i].pc| ==> h[i].pc[t] == Idle && Offs(h, i, t) == Ons(h, i, t)
    ensures var s := h[i]; s.numDisable == 0 && s.enable == s.on && s.malloc2 == None && s.malloc == None && s.readers == {}
  {
    RunInv(h, i);
    var s := h[i];
    hide Calls, Run, Advance, ThreadOk, SharedOk, Balance, NoHold;
    forall t | 0 <= t < |s.pc| ensures NoHold(s, t) {
      CallsBalance(h, i, t);
      assert ThreadOk(s, t);
      IdleThread(s, t);
    }
    FreeState(s);
  }

  // t goes on alone for n steps, none of which waits.
  function Alone(s: State, t: Thread, n: nat): Option<State>
    requires Shaped(s) && t < |s.pc|
  {
    if n == 0 then Some(s)
    else match Alone(s, t, n - 1)
         case None => None
         case Some(s') => if Shaped(s') && t < |s'.pc| then Advance(s', t) else None
  }

  /** A call of MemCheck_on that finds MALLOC free gives back one disable, and the last one enables checking and
      frees MALLOC2, without waiting for any other thread. */
  lemma {:induction false} EnableAlone(s: State, t: Thread)
    requires Inv(s) && s.on && t < |s.pc| && s.pc[t] == Idle && s.depth[t] > 0 && s.malloc == None && s.readers == {}
    ensures Call(s, t, Goto(s, t, OnWant)) && Shaped(Goto(s, t, OnWant))
    ensures var s' := Alone(Goto(s, t, OnWant), t, if s.depth[t] == 1 then 5 else 3);
            && s'.Some? && s'.value.pc == s.pc && s'.value.depth == s.depth[t := s.depth[t] - 1] && s'.value.numDisable + 1 == s.numDisable
            && (s'.value.enable <==> s.depth[t] == 1) && s'.value.malloc2 == (if s.depth[t] == 1 then None else Some(t))
            && s'.value.malloc == None && s'.value.readers == {}
  {
    assert ThreadOk(s, t);
    var s1 := Goto(s, t, OnWant);
    var s2 := Goto(s1.(malloc := Some(t)), t, OnCount);
    var d := s.depth[t := s.depth[t] - 1];
    assert Alone(s1, t, 0) == Some(s1);
    assert Alone(s1, t, 1) == Some(s2);
    if s.depth[t] > 1 {
      var s3 := Goto(s2.(numDisable := s.numDisable - 1, depth := d), t, Leave);
      assert Alone(s1, t, 2) == Some(s3);
      assert s3.pc[t := Idle] == s.pc;
    } else {
      var s3 := Goto(s2.(numDisable := s.numDisable - 1, depth := d), t, OnMode);
      assert Alone(s1, t, 2) == Some(s3);
      var s4 := Goto(s3.(enable := true), t, OnUnlock2);
      assert Alone(s1, t, 3) == Some(s4);
      var s5 := Goto(s4.(malloc2 := None), t, Leave);
      assert Alone(s1, t, 4) == Some(s5);
      assert s5.pc[t := Idle] == s.pc;
    }
  }

  /** No deadlock: while any thread is inside a call, some thread can advance, or the thread that
      has checking disabled is outside of any call and can enable it again. */
  lemma {:induction false} Progress(h: seq<State>, i: nat, t: Thread) returns (u: Thread)
    requires Run(h) && i < |h| && t < |h[i].pc| && h[i].pc[t] != Idle
    ensures Shaped(h[i]) && u < |h[i].pc|
    ensures Advance(h[i], u).Some? || (h[i].pc[u] == Idle && h[i].depth[u] > 0 && h[i].malloc2 == Some(u))
  {
    RunInv(h, i);
    var s := h[i];
    assert ThreadOk(s, t);
    if s.malloc.Some? {
      u := s.malloc.value;
      assert ThreadOk(s, u);
    } else if exists r :: r in s.readers {
      u :| u in s.readers;
      assert ThreadOk(s, u);
    } else {
      NoReaders(s.readers);
      if s.pc[t] == OffWant2 && s.malloc2.Some? {
        u := s.malloc2.value;
        assert ThreadOk(s, u);
      } else {
        u := t;
      }
    }
  }

  lemma NoReaders(r: set<Thread>)
    requires !(exists x :: x in r)
    ensures r == {}
  {
    var e: set<Thread> := {};
    assert forall x :: x in r <==> x in e;
  }
}
