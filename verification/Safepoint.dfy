/** Stopping the world: the handshake between a collector and the other threads, as the steps of
    threads that share one mutex (gc_mutex) and two condition variables (gc_is_finished, on which
    stopped threads sleep, and safepoint_reached, on which only a collector does).

    A step is what one thread does between taking the mutex and giving it up or going to sleep, or
    a wake-up. Threads may wake without being signalled, and a woken thread competes for the mutex
    with all others. `recheck` selects the reading: with it, a thread that gets the mutex back
    sleeps again while a collection is in progress; without it, it goes on, as the code does. */
module Safepoints {
  import opened Lists
  import ThreadLists

  type Tid = int

  datatype Option = None | Some(t: Tid)

  /** Why a thread takes the mutex: to be listed (start_routine), in a safepoint, in the safepoint
      of remove_thread, in gc, at the start of thread_join, or at its end. */
  datatype Reason = Start | Poll | Leave | Collect | Join(other: Tid) | Back

  datatype Pc =
    | Created | Running | Joining(other: Tid) | Gone
    | Locked(why: Reason)             // holds the mutex, at the test of gc_thread
    | Asleep(why: Reason)             // on gc_is_finished
    | Woken(why: Reason)              // wants the mutex back
    | Resumed(why: Reason)            // holds the mutex after the wait
    | Scanning(left: nat)             // the collector, with the last `left` threads to go
    | ScanAsleep(left: nat)           // on safepoint_reached
    | ScanWoken(left: nat)
    | Sweeping

  /** flags: the threads whose safepoint flag is set; list: first_thread and its successors. */
  datatype State = State(main: Tid, pc: map<Tid, Pc>, flags: set<Tid>, list: seq<Tid>,
                         gcThread: Option, mutex: Option, moreThanOne: bool)

  datatype Step =
    | Create(t: Tid, u: Tid)          // pthread_create
    | Lock(t: Tid, why: Reason)       // the first lock
    | Relock(t: Tid)                  // the lock a wait ends with
    | Wake(t: Tid)                    // a spurious wake-up
    | Body(t: Tid)                    // what the holder of the mutex does next

  function Init(main: Tid): State { State(main, map[main := Running], {}, [main], None, None, false) }

  predicate HoldsMutex(p: Pc) { p.Locked? || p.Resumed? || p.Scanning? || p.Sweeping? }

  predicate Collecting(p: Pc) { p.Scanning? || p.ScanAsleep? || p.ScanWoken? || p.Sweeping? }

  predicate Waiting(p: Pc) { p.Asleep? || p.Woken? || p.Resumed? }

  predicate Listed(p: Pc) {
    p.Running? || p.Joining? || Collecting(p) || ((Waiting(p) || p.Locked?) && p.why != Start)
  }

  predicate InSafepoint(p: Pc) {
    p.Joining? || Collecting(p) || (Waiting(p) && p.why != Start) || (p.Locked? && p.why == Back)
  }

  function Left(p: Pc): nat {
    match p
    case Scanning(l) => l
    case ScanAsleep(l) => l
    case ScanWoken(l) => l
    case _ => 0
  }

  predicate CanLock(s: State, t: Tid, why: Reason)
    requires t in s.pc
  {
    match why
    case Start => s.pc[t] == Created
    case Leave => s.pc[t] == Running && t != s.main
    case Back => s.pc[t].Joining? && s.pc[t].other in s.pc && s.pc[s.pc[t].other] == Gone
    case _ => s.pc[t] == Running
  }

  predicate Enabled(s: State, step: Step) {
    && step.t in s.pc
    && match step
       case Create(t, u) => s.pc[t] == Running && u !in s.pc
       case Lock(t, why) => s.mutex == None && CanLock(s, t, why)
       case Relock(t) => s.mutex == None && (s.pc[t].Woken? || s.pc[t].ScanWoken?)
       case Wake(t) => s.pc[t].Asleep? || s.pc[t].ScanAsleep?
       case Body(t) => s.mutex == Some(t) && HoldsMutex(s.pc[t]) && Left(s.pc[t]) <= |s.list|
  }

  function WakeUp(p: Pc): Pc {
    match p
    case Asleep(w) => Woken(w)
    case ScanAsleep(l) => ScanWoken(l)
    case _ => p
  }

  /** pthread_cond_signal(&safepoint_reached) */
  function Signal(s: State): State {
    s.(pc := map t | t in s.pc :: if s.pc[t].ScanAsleep? then WakeUp(s.pc[t]) else s.pc[t])
  }

  /** pthread_cond_broadcast(&gc_is_finished) */
  function Broadcast(s: State): State {
    s.(pc := map t | t in s.pc :: if s.pc[t].Asleep? then WakeUp(s.pc[t]) else s.pc[t])
  }

  function SetFlag(s: State, t: Tid): State { s.(flags := s.flags + {t}) }

  /** pthread_cond_wait(&gc_is_finished, &gc_mutex), up to the wake-up */
  function Wait(s: State, t: Tid, why: Reason): State { s.(pc := s.pc[t := Asleep(why)], mutex := None) }

  /** What follows the wait, up to the release of the mutex. */
  function Proceed(s: State, t: Tid, why: Reason): State {
    match why
    case Start => s.(list := [t] + s.list, moreThanOne := true, pc := s.pc[t := Running], mutex := None)
    case Leave =>
      var list := ThreadLists.Unlinked(s.list, t);
      s.(list := list, moreThanOne := s.moreThanOne && |list| != 1, flags := s.flags - {t},
         pc := s.pc[t := Gone], mutex := None)
    case _ => s.(flags := s.flags - {t}, pc := s.pc[t := Running], mutex := None)
  }

  function BodyLocked(recheck: bool, s: State, t: Tid, why: Reason): State {
    match why
    case Start => if s.gcThread != None then Wait(s, t, Start) else Proceed(s, t, Start)
    case Join(u) =>
      var s1 := SetFlag(s, t);
      var s2 := if s.gcThread != None then Signal(s1) else s1;
      s2.(pc := s2.pc[t := Joining(u)], mutex := None)
    case Back => if recheck && s.gcThread != None then Wait(s, t, Back) else Proceed(s, t, Back)
    case Collect =>
      var s1 := SetFlag(s, t);
      if s.gcThread == None then s1.(gcThread := Some(t), pc := s.pc[t := Scanning(|s.list|)])
      else Wait(Signal(s1), t, Collect)
    case _ =>
      var s1 := SetFlag(s, t);
      if s.gcThread != None then Wait(Signal(s1), t, why) else Proceed(s1, t, why)
  }

  /** One round of the collector's loops, and the end of gc. */
  function BodyScan(s: State, t: Tid, p: Pc): State
    requires Left(p) <= |s.list|
  {
    if p.Sweeping? then
      Broadcast(s.(gcThread := None, flags := s.flags - {t}, pc := s.pc[t := Running], mutex := None))
    else if Left(p) == 0 then s.(pc := s.pc[t := Sweeping])
    else if s.list[|s.list| - Left(p)] in s.flags then s.(pc := s.pc[t := Scanning(Left(p) - 1)])
    else s.(pc := s.pc[t := ScanAsleep(Left(p))], mutex := None)
  }

  function Apply(recheck: bool, s: State, step: Step): State
    requires Enabled(s, step)
  {
    match step
    case Create(_, u) => s.(pc := s.pc[u := Created])
    case Lock(t, why) => s.(mutex := Some(t), pc := s.pc[t := Locked(why)])
    case Relock(t) =>
      s.(mutex := Some(t), pc := s.pc[t := if s.pc[t].Woken? then Resumed(s.pc[t].why) else Scanning(Left(s.pc[t]))])
    case Wake(t) => s.(pc := s.pc[t := WakeUp(s.pc[t])])
    case Body(t) =>
      match s.pc[t] {
        case Locked(why) => BodyLocked(recheck, s, t, why)
        case Resumed(why) => if recheck && s.gcThread != None then Wait(s, t, why) else Proceed(s, t, why)
        case p => BodyScan(s, t, p)
      }
  }

  /** A run: each state is followed by the outcome of an enabled step. */
  ghost predicate IsRun(recheck: bool, run: seq<State>, steps: seq<Step>) {
    && |run| == |steps| + 1 && run[0] == Init(run[0].main)
    && forall i :: 0 <= i < |steps| ==> Enabled(run[i], steps[i]) && run[i + 1] == Apply(recheck, run[i], steps[i])
  }

  // ---------------------------------------------------------------- the invariant

  /** The list is exact and without repetition; main stays; the flag that turns safepoints on is
      exact. */
  ghost predicate ListOk(s: State) {
    && NoDup(s.list) && (forall t :: t in s.list <==> t in s.pc && Listed(s.pc[t]))
    && s.main in s.list && s.moreThanOne == (|s.list| > 1)
    && (forall t :: t in s.pc && (Waiting(s.pc[t]) || s.pc[t].Locked?) && s.pc[t].why == Leave ==> t != s.main)
  }

  /** The safepoint flag, the mutex and gc_thread say of each thread what it is doing. */
  ghost predicate FieldsOk(s: State) {
    && (forall t :: t in s.flags <==> t in s.pc && InSafepoint(s.pc[t]))
    && (forall t :: s.mutex == Some(t) <==> t in s.pc && HoldsMutex(s.pc[t]))
    && (forall t :: s.gcThread == Some(t) <==> t in s.pc && Collecting(s.pc[t]))
    && (forall t :: t in s.pc && (Waiting(s.pc[t])) ==> !s.pc[t].why.Join?)
  }

  function ToGo(s: State): nat {
    if s.gcThread.Some? && s.gcThread.t in s.pc then Left(s.pc[s.gcThread.t]) else 0
  }

  /** The threads whose stacks the collector has scanned. */
  ghost function Passed(s: State): seq<Tid> { s.list[..if ToGo(s) <= |s.list| then |s.list| - ToGo(s) else 0] }

  /** The collector has passed only threads in safepoints, and sleeps only for one that is not. */
  ghost predicate ScanOk(s: State) {
    s.gcThread.Some? ==>
      && s.gcThread.t in s.pc && ToGo(s) <= |s.list| && (forall t :: t in Passed(s) ==> t in s.flags)
      && (s.pc[s.gcThread.t].ScanAsleep? ==> ToGo(s) > 0 && s.list[|s.list| - ToGo(s)] !in s.flags)
  }

  ghost predicate Inv(s: State) { ListOk(s) && FieldsOk(s) && ScanOk(s) }

  /** While a collection goes on the list does not change and whoever was passed stays stopped. */
  ghost predicate Frozen(s: State, s': State) {
    s.gcThread.Some? && s'.gcThread == s.gcThread ==> s'.list == s.list && forall t :: t in Passed(s) ==> t in s'.flags
  }

  /** What the code as written must avoid: getting the mutex back during a collection, unless the
      thread only goes back to work and the collector has yet to reach it. */
  ghost predicate Harmless(s: State, step: Step) {
    ComesBack(s, step) ==> s.pc[step.t].why != Start && s.pc[step.t].why != Leave && step.t !in Passed(s)
  }

  /** A thread has got the mutex back after a wait, or at the end of thread_join, and a collection is
      in progress. */
  predicate ComesBack(s: State, step: Step)
    ensures ComesBack(s, step) ==> step.t in s.pc && (s.pc[step.t].Resumed? || s.pc[step.t].Locked?)
  {
    step.Body? && step.t in s.pc && s.gcThread.Some? && (s.pc[step.t].Resumed? || s.pc[step.t] == Locked(Back))
  }

  // ---------------------------------------------------------------- its preservation

  /** A thread moves on without a change of what the list and the flags say of it. */
  lemma Moves(s: State, t: Tid, p: Pc, m: Option)
    requires Inv(s) && t in s.pc
    requires if HoldsMutex(p) == HoldsMutex(s.pc[t]) then m == s.mutex
             else s.mutex == (if HoldsMutex(p) then None else Some(t)) && m == if HoldsMutex(p) then Some(t) else None
    requires (Waiting(p) || p.Locked?) && p.why == Leave ==> t != s.main
    requires Listed(p) == Listed(s.pc[t]) && InSafepoint(p) == InSafepoint(s.pc[t])
             && Collecting(p) == Collecting(s.pc[t])
    requires (Waiting(p) ==> !p.why.Join?) && Left(p) == Left(s.pc[t])
    requires p.ScanAsleep? ==> 0 < Left(p) <= |s.list| && s.list[|s.list| - Left(p)] !in s.flags
    ensures Inv(s.(pc := s.pc[t := p], mutex := m)) && Frozen(s, s.(pc := s.pc[t := p], mutex := m))
  {
    hide NoDup, ThreadLists.Unlinked, Left, Listed, InSafepoint, Collecting, HoldsMutex;
    assert Passed(s.(pc := s.pc[t := p], mutex := m)) == Passed(s);
  }

  lemma CreateKeeps(s: State, t: Tid, u: Tid)
    requires Inv(s) && Enabled(s, Create(t, u))
    ensures Inv(Apply(true, s, Create(t, u))) && Frozen(s, Apply(true, s, Create(t, u)))
  {
    assert Passed(Apply(true, s, Create(t, u))) == Passed(s);
  }

  lemma AcquireKeeps(s: State, step: Step)
    requires Inv(s) && Enabled(s, step) && (step.Lock? || step.Relock? || step.Wake?)
    ensures Inv(Apply(true, s, step)) && Frozen(s, Apply(true, s, step))
  {
    var s', t := Apply(true, s, step), step.t;
    assert HoldsMutex(s.pc[t]) <==> s.mutex == Some(t);
    assert Waiting(s.pc[t]) ==> !s.pc[t].why.Join? && (s.pc[t].why == Leave ==> t != s.main);
    hide Inv, Frozen;
    Moves(s, t, s'.pc[t], s'.mutex);
    assert s' == s.(pc := s.pc[t := s'.pc[t]], mutex := s'.mutex);
  }

  lemma ScanKeeps(s: State, t: Tid)
    requires Inv(s) && Enabled(s, Body(t)) && s.pc[t].Scanning?
    ensures Inv(Apply(true, s, Body(t))) && Frozen(s, Apply(true, s, Body(t)))
  {
    var s' := Apply(true, s, Body(t));
    var left := Left(s.pc[t]);
    assert s.gcThread == Some(t);
    if left > 0 && s.list[|s.list| - left] in s.flags {
      assert Passed(s') == Passed(s) + [s.list[|s.list| - left]];
      PassOne(s, t);
    } else {
      hide Inv, Frozen;
      Moves(s, t, s'.pc[t], s'.mutex);
      assert s' == s.(pc := s.pc[t := s'.pc[t]], mutex := s'.mutex);
    }
  }

  lemma PassOne(s: State, t: Tid)
    requires Inv(s) && t in s.pc && s.pc[t].Scanning? && 0 < Left(s.pc[t]) <= |s.list|
    requires s.list[|s.list| - Left(s.pc[t])] in s.flags
    ensures Inv(s.(pc := s.pc[t := Scanning(Left(s.pc[t]) - 1)]))
            && Frozen(s, s.(pc := s.pc[t := Scanning(Left(s.pc[t]) - 1)]))
  {
    hide NoDup, ThreadLists.Unlinked;
    var s' := s.(pc := s.pc[t := Scanning(Left(s.pc[t]) - 1)]);
    assert Passed(s') == Passed(s) + [s.list[|s.list| - Left(s.pc[t])]];
  }

  /** The end of a collection. */
  lemma Ends(s: State, t: Tid)
    requires Inv(s) && t in s.pc && s.pc[t].Sweeping?
    ensures Inv(s.(gcThread := None, flags := s.flags - {t}, pc := s.pc[t := Running], mutex := None))
  {
  }

  lemma BroadcastKeeps(s: State)
    requires Inv(s) && s.gcThread == None
    ensures Inv(Broadcast(s))
  {
    hide NoDup, ThreadLists.Unlinked;
  }

  /** A signal wakes the collector if it sleeps, and nothing else. */
  lemma SignalKeeps(s: State)
    requires Inv(s)
    ensures Inv(Signal(s)) && Signal(s) == s.(pc := Signal(s).pc) && Signal(s).pc.Keys == s.pc.Keys
    ensures forall t :: t in s.pc ==> Signal(s).pc[t] == if s.pc[t].ScanAsleep? then ScanWoken(Left(s.pc[t]))
            else s.pc[t]
    ensures Passed(Signal(s)) == Passed(s)
  {
    forall t | t in s.pc && s.pc[t].ScanAsleep?
      ensures s.gcThread == Some(t)
    {
      assert Collecting(s.pc[t]);
    }
    var m := Signal(s).pc;
    assert m.Keys == s.pc.Keys;
    if s.gcThread.Some? && s.pc[s.gcThread.t].ScanAsleep? {
      var c := s.gcThread.t;
      var p := ScanWoken(Left(s.pc[c]));
      assert m == s.pc[c := p] by {
        assert forall t :: t in s.pc ==> m[t] == s.pc[c := p][t];
      }
      assert Signal(s) == s.(pc := s.pc[c := p], mutex := s.mutex);
      Moves(s, c, p, s.mutex);
    } else {
      assert m == s.pc by {
        assert forall t :: t in s.pc ==> m[t] == s.pc[t];
      }
    }
  }

  /** A thread enters its safepoint and stays there. */
  lemma Stops(s: State, t: Tid, p: Pc)
    requires Inv(s) && t in s.pc && s.pc[t].Locked? && s.pc[t].why != Start && s.pc[t].why != Back
    requires p.Joining? || (p == Asleep(s.pc[t].why) && !s.pc[t].why.Join?)
    requires s.gcThread.Some? ==> !s.pc[s.gcThread.t].ScanAsleep?
    ensures var s' := s.(flags := s.flags + {t}, pc := s.pc[t := p], mutex := None); Inv(s') && Frozen(s, s')
  {
    hide NoDup, ThreadLists.Unlinked;
    assert Passed(s.(flags := s.flags + {t}, pc := s.pc[t := p], mutex := None)) == Passed(s);
  }

  /** A thread leaves its safepoint. */
  lemma Goes(s: State, t: Tid)
    requires Inv(s) && t in s.pc && (s.pc[t].Resumed? || s.pc[t] == Locked(Back))
    requires s.pc[t].why != Start && s.pc[t].why != Leave
    requires s.gcThread.Some? ==> t !in Passed(s)
    ensures var s' := s.(flags := s.flags - {t}, pc := s.pc[t := Running], mutex := None); Inv(s') && Frozen(s, s')
  {
    hide NoDup, ThreadLists.Unlinked;
    assert Passed(s.(flags := s.flags - {t}, pc := s.pc[t := Running], mutex := None)) == Passed(s);
  }

  /** A collection begins, with no thread passed. */
  lemma Begins(s: State, t: Tid)
    requires Inv(s) && t in s.pc && s.pc[t] == Locked(Collect) && s.gcThread == None
    ensures Inv(s.(flags := s.flags + {t}, gcThread := Some(t), pc := s.pc[t := Scanning(|s.list|)]))
  {
    hide NoDup, ThreadLists.Unlinked;
  }

  lemma Joins(s: State, t: Tid)
    requires Inv(s) && t in s.pc && s.pc[t] in {Locked(Start), Resumed(Start)} && s.gcThread == None
    ensures Inv(Proceed(s, t, Start))
  {
    NoDupJoin([t], s.list);
    assert t !in s.list;
    hide NoDup;
    assert Proceed(s, t, Start).list == [t] + s.list;
    assert s.list != [];
  }

  lemma Leaves(s: State, t: Tid)
    requires Inv(s) && t in s.pc && s.pc[t] in {Locked(Leave), Resumed(Leave)} && s.gcThread == None
    ensures Inv(Proceed(s, t, Leave)) && Proceed(SetFlag(s, t), t, Leave) == Proceed(s, t, Leave)
  {
    assert t in s.list;
    ThreadLists.UnlinkedElems(s.list, t);
    hide NoDup, ThreadLists.Unlinked, Elems;
    assert s.flags + {t} - {t} == s.flags - {t};
  }

  /** The invariant holds across every step, and a collection freezes the list and whoever it has
      passed: with the wait repeated, always; as written, if the step is harmless. */
  lemma StepKeeps(recheck: bool, s: State, step: Step)
    requires Inv(s) && Enabled(s, step) && (recheck || Harmless(s, step))
    ensures Inv(Apply(recheck, s, step)) && Frozen(s, Apply(recheck, s, step))
  {
    if step.Create? {
      CreateKeeps(s, step.t, step.u);
    } else if !step.Body? {
      AcquireKeeps(s, step);
    } else if s.pc[step.t].Scanning? {
      ScanKeeps(s, step.t);
    } else if s.pc[step.t].Sweeping? {
      Ends(s, step.t);
      BroadcastKeeps(s.(gcThread := None, flags := s.flags - {step.t}, pc := s.pc[step.t := Running], mutex := None));
    } else {
      HandshakeKeeps(recheck, s, step.t);
    }
  }

  lemma HandshakeKeeps(recheck: bool, s: State, t: Tid)
    requires Inv(s) && Enabled(s, Body(t)) && (recheck || Harmless(s, Body(t))) && (s.pc[t].Locked? || s.pc[t].Resumed?)
    ensures Inv(Apply(recheck, s, Body(t))) && Frozen(s, Apply(recheck, s, Body(t)))
  {
    var s', why := Apply(recheck, s, Body(t)), s.pc[t].why;
    if s.pc[t].Locked? && why != Start && why != Back {
      EnterKeeps(recheck, s, t);
    } else if why == Start && s.gcThread == None {
      Joins(s, t);
    } else if why == Leave && s.gcThread == None {
      Leaves(s, t);
    } else if s.gcThread != None && (recheck || why == Start) {
      assert s' == s.(pc := s.pc[t := Asleep(why)], mutex := None);
      Moves(s, t, Asleep(why), None);
    } else {
      assert s' == s.(flags := s.flags - {t}, pc := s.pc[t := Running], mutex := None);
      Goes(s, t);
    }
  }

  /** A safepoint during a collection: the collector is woken, the thread stops. */
  lemma EnterDuring(recheck: bool, s: State, t: Tid)
    requires Inv(s) && Enabled(s, Body(t)) && s.pc[t].Locked? && s.pc[t].why != Start && s.pc[t].why != Back
             && s.gcThread.Some?
    ensures Inv(Apply(recheck, s, Body(t))) && Frozen(s, Apply(recheck, s, Body(t)))
  {
    var s', why := Apply(recheck, s, Body(t)), s.pc[t].why;
    SignalKeeps(s);
    hide NoDup, ThreadLists.Unlinked;
    var p := if why.Join? then Joining(why.other) else Asleep(why);
    Stops(Signal(s), t, p);
    assert Signal(SetFlag(s, t)).pc == Signal(s).pc;
    assert s' == Signal(s).(flags := s.flags + {t}, pc := Signal(s).pc[t := p], mutex := None);
  }

  lemma EnterKeeps(recheck: bool, s: State, t: Tid)
    requires Inv(s) && Enabled(s, Body(t)) && s.pc[t].Locked? && s.pc[t].why != Start && s.pc[t].why != Back
    ensures Inv(Apply(recheck, s, Body(t))) && Frozen(s, Apply(recheck, s, Body(t)))
  {
    var s', why := Apply(recheck, s, Body(t)), s.pc[t].why;
    assert t !in s.flags;
    if s.gcThread != None {
      EnterDuring(recheck, s, t);
    } else if why.Join? {
      Stops(s, t, Joining(why.other));
    } else if why == Leave {
      Leaves(s, t);
    } else if why == Collect {
      Begins(s, t);
    } else {
      assert s.flags + {t} - {t} == s.flags;
      assert s' == s.(pc := s.pc[t := Running], mutex := None);
      Moves(s, t, Running, None);
    }
  }

  // ---------------------------------------------------------------- runs

  /** A run of the code with the wait repeated, or a run of the code as written whose steps are harmless. */
  ghost predicate SafeRun(recheck: bool, run: seq<State>, steps: seq<Step>) {
    IsRun(recheck, run, steps) && (recheck || forall i :: 0 <= i < |steps| ==> Harmless(run[i], steps[i]))
  }

  /** Every state of every such run satisfies the invariant, and no collection is disturbed. */
  lemma {:induction false} RunKeeps(recheck: bool, run: seq<State>, steps: seq<Step>)
    requires SafeRun(recheck, run, steps)
    ensures forall i :: 0 <= i < |run| ==> Inv(run[i])
    ensures forall i :: 0 <= i < |steps| ==> Frozen(run[i], run[i + 1])
    decreases |steps|
  {
    hide Inv, Frozen, Harmless, Enabled, Apply;
    var n := |steps|;
    if n == 0 {
      InitOk(run[0].main);
    } else {
      var run', steps' := run[..n], steps[..n - 1];
      RunKeeps(recheck, run', steps');
      assert Inv(run'[n - 1]);
      StepKeeps(recheck, run[n - 1], steps[n - 1]);
      forall i | 0 <= i < |run|
        ensures Inv(run[i])
      {
        assert i < n ==> run[i] == run'[i];
      }
      forall i | 0 <= i < |steps|
        ensures Frozen(run[i], run[i + 1])
      {
        assert i < n - 1 ==> run[i] == run'[i] && run[i + 1] == run'[i + 1];
      }
    }
  }

  lemma InitOk(main: Tid)
    ensures Inv(Init(main))
  {
  }

  predicate Stopped(s: State, t: Tid) { t in s.pc && (s.pc[t].Joining? || s.pc[t].Asleep? || s.pc[t].Woken?) }

  /** When sweep runs, in any such run, its thread is the only collector, and every other listed thread
      is stopped in a safepoint, without the mutex. */
  lemma StopTheWorld(recheck: bool, run: seq<State>, steps: seq<Step>, i: nat, t: Tid)
    requires SafeRun(recheck, run, steps) && i < |run| && t in run[i].pc && run[i].pc[t] == Sweeping
    ensures forall u :: u in run[i].pc && Collecting(run[i].pc[u]) ==> u == t
    ensures forall u :: u in run[i].list && u != t ==> u in run[i].flags && Stopped(run[i], u)
  {
    RunKeeps(recheck, run, steps);
    hide NoDup, ThreadLists.Unlinked;
    var s := run[i];
    assert s.gcThread == Some(t) && Passed(s) == s.list;
    forall u | u in s.list && u != t
      ensures u in s.flags && Stopped(s, u)
    {
      assert u in Passed(s) && s.mutex == Some(t);
    }
  }

  /** From any moment of a collection to any later one the list is the same and the threads passed
      at the first are still stopped at the second. */
  lemma {:induction false} CollectionFreezes(recheck: bool, run: seq<State>, steps: seq<Step>, i: nat, j: nat)
    requires SafeRun(recheck, run, steps) && i <= j < |run| && run[i].gcThread.Some?
    requires forall k :: i <= k <= j ==> run[k].gcThread == run[i].gcThread
    ensures run[j].list == run[i].list && forall t :: t in Passed(run[i]) ==> t in run[j].flags
    ensures Passed(run[i]) <= Passed(run[j])
    decreases j
  {
    hide Inv, Frozen, Enabled, Apply, Passed, ToGo;
    RunKeeps(recheck, run, steps);
    if i == j {
      PassedStopped(run[i]);
    } else {
      CollectionFreezes(recheck, run, steps, i, j - 1);
      assert run[j - 1 + 1] == Apply(recheck, run[j - 1], steps[j - 1]) && run[j].gcThread == run[j - 1].gcThread;
      ScanAdvances(recheck, run[j - 1], steps[j - 1]);
      PassedStopped(run[j]);
    }
  }

  lemma PassedStopped(s: State)
    requires Inv(s) && s.gcThread.Some?
    ensures forall t :: t in Passed(s) ==> t in s.flags
  {
  }

  /** The listed threads still running. */
  ghost function StillRunning(s: State): set<Tid> { set t | t in s.list && t !in s.flags }

  /** Within a collection the collector only moves forward. No stopped thread runs again, unless, as
      written, one that the collector has yet to reach goes back to work. */
  lemma ScanAdvances(recheck: bool, s: State, step: Step)
    requires Inv(s) && Enabled(s, step) && (recheck || Harmless(s, step))
    requires s.gcThread.Some? && Apply(recheck, s, step).gcThread == s.gcThread
    ensures ToGo(Apply(recheck, s, step)) <= ToGo(s) && Passed(s) <= Passed(Apply(recheck, s, step))
    ensures Apply(recheck, s, step).list == s.list
    ensures StillRunning(Apply(recheck, s, step)) <= StillRunning(s) <==> recheck || !ComesBack(s, step)
  {
    StepKeeps(recheck, s, step);
    var s' := Apply(recheck, s, step);
    assert s'.list == s.list;
    ScanForward(recheck, s, step);
    if recheck || !ComesBack(s, step) {
      FlagsStay(recheck, s, step);
    } else {
      RunsAgain(s, step);
    }
  }

  lemma FlagsStay(recheck: bool, s: State, step: Step)
    requires Inv(s) && Enabled(s, step) && s.gcThread.Some? && Apply(recheck, s, step).gcThread == s.gcThread
    requires recheck || !ComesBack(s, step)
    ensures s.flags <= Apply(recheck, s, step).flags
  {
    assert step.Body? && s.pc[step.t].Locked? && s.pc[step.t].why != Back ==> step.t !in s.flags;
  }

  lemma RunsAgain(s: State, step: Step)
    requires Inv(s) && Enabled(s, step) && Harmless(s, step) && ComesBack(s, step)
    ensures step.t in StillRunning(Apply(false, s, step)) && step.t !in StillRunning(s)
  {
    assert step.t in s.flags && step.t in s.list;
  }

  lemma ScanForward(recheck: bool, s: State, step: Step)
    requires Inv(s) && Enabled(s, step) && s.gcThread.Some? && Apply(recheck, s, step).gcThread == s.gcThread
    ensures ToGo(Apply(recheck, s, step)) <= ToGo(s)
  {
    var s', c := Apply(recheck, s, step), s.gcThread.t;
    assert c in s.pc && Collecting(s.pc[c]);
    assert s.gcThread == Some(step.t) <==> Collecting(s.pc[step.t]);
    hide ListOk, ScanOk, ThreadLists.Unlinked;
    if step.t == c {
      assert step.Relock? || step.Wake? || (step.Body? && s.pc[c].Scanning?);
    } else {
      LeftAlone(recheck, s, step, c);
    }
  }

  /** The collector's place in the list is its own business. */
  lemma LeftAlone(recheck: bool, s: State, step: Step, c: Tid)
    requires FieldsOk(s) && Enabled(s, step) && c in s.pc && Collecting(s.pc[c]) && step.t != c
             && !Collecting(s.pc[step.t])
    ensures c in Apply(recheck, s, step).pc && Left(Apply(recheck, s, step).pc[c]) == Left(s.pc[c])
  {
    hide FieldsOk, ThreadLists.Unlinked, Proceed, Signal, BodyLocked, Collecting;
    if step.Body? {
      var t := step.t;
      match s.pc[t] {
        case Locked(why) => LockedLeaves(recheck, s, t, why, c);
        case Resumed(why) => ProceedLeaves(s, t, why, c);
        case _ =>
      }
    }
  }

  lemma ProceedLeaves(s: State, t: Tid, why: Reason, c: Tid)
    requires c in s.pc && c != t
    ensures c in Proceed(s, t, why).pc && Proceed(s, t, why).pc[c] == s.pc[c]
  {
  }

  lemma LockedLeaves(recheck: bool, s: State, t: Tid, why: Reason, c: Tid)
    requires c in s.pc && c != t
    ensures c in BodyLocked(recheck, s, t, why).pc && Left(BodyLocked(recheck, s, t, why).pc[c]) == Left(s.pc[c])
  {
    hide Proceed, Signal;
    SignalLeaves(SetFlag(s, t), c);
    ProceedLeaves(s, t, why, c);
    ProceedLeaves(SetFlag(s, t), t, why, c);
  }

  lemma SignalLeaves(s: State, c: Tid)
    requires c in s.pc
    ensures c in Signal(s).pc && Left(Signal(s).pc[c]) == Left(s.pc[c])
  {
  }

  // ---------------------------------------------------------------- progress

  /** No lost wake-up: in every reachable state where the collector sleeps and has not been
      signalled, the thread it sleeps for is not in a safepoint. That thread runs with safepoints
      switched on and can take the mutex, or holds it and is about to. */
  lemma NoLostWakeup(recheck: bool, run: seq<State>, steps: seq<Step>, i: nat, c: Tid)
    requires SafeRun(recheck, run, steps) && i < |run| && c in run[i].pc && run[i].pc[c].ScanAsleep?
    ensures 0 < Left(run[i].pc[c]) <= |run[i].list|
    ensures var s := run[i];
            var u := s.list[|s.list| - Left(s.pc[c])];
            && u !in s.flags && u != c && u in s.pc && s.moreThanOne
            && (s.mutex != Some(u) ==> s.pc[u] == Running)
            && (s.mutex == None ==> Enabled(s, Lock(u, Poll)))
  {
    RunKeeps(recheck, run, steps);
    assert Inv(run[i]);
    hide IsRun, SafeRun, ThreadLists.Unlinked;
    var s := run[i];
    assert s.gcThread == Some(c);
    var u := s.list[|s.list| - Left(s.pc[c])];
    assert u in s.list && c in s.list && u != c;
    if s.mutex != Some(u) {
      assert !HoldsMutex(s.pc[u]) && Listed(s.pc[u]) && !InSafepoint(s.pc[u]);
    }
  }

  /** A collection never gets stuck: whoever holds the mutex can go on; if nobody does, the
      collector or the thread it waits for can take it. */
  lemma NotStuck(recheck: bool, run: seq<State>, steps: seq<Step>, i: nat)
    requires SafeRun(recheck, run, steps) && i < |run| && run[i].gcThread.Some?
    ensures run[i].mutex.Some? ==> Enabled(run[i], Body(run[i].mutex.t))
    ensures run[i].mutex == None ==>
              Enabled(run[i], Relock(run[i].gcThread.t))
                || exists u :: u in StillRunning(run[i]) && Enabled(run[i], Lock(u, Poll))
  {
    RunKeeps(recheck, run, steps);
    var s := run[i];
    assert Inv(s);
    if s.mutex.Some? {
      assert HoldsMutex(s.pc[s.mutex.t]);
      assert Collecting(s.pc[s.mutex.t]) ==> s.gcThread == s.mutex;
    } else {
      var c := s.gcThread.t;
      assert Collecting(s.pc[c]);
      if s.pc[c].ScanAsleep? {
        NoLostWakeup(recheck, run, steps, i, c);
        var u := s.list[|s.list| - Left(s.pc[c])];
        assert u in StillRunning(s) && Enabled(s, Lock(u, Poll));
      }
    }
  }

  /** Threads sleep only while a collection goes on: its end wakes all of them. */
  ghost predicate AllAwake(s: State) { s.gcThread == None ==> forall t :: t in s.pc ==> !s.pc[t].Asleep? }

  lemma AwakeStep(recheck: bool, s: State, step: Step)
    requires Enabled(s, step) && AllAwake(s)
    ensures AllAwake(Apply(recheck, s, step))
  {
    hide ThreadLists.Unlinked;
  }

  /** In every state of every run of either reading, with no collection going on, nobody is left asleep. */
  lemma {:induction false} RunAwake(recheck: bool, run: seq<State>, steps: seq<Step>)
    requires IsRun(recheck, run, steps)
    ensures forall i :: 0 <= i < |run| ==> AllAwake(run[i])
    decreases |steps|
  {
    hide AllAwake, Enabled, Apply;
    var n := |steps|;
    if n == 0 {
      AwakeStart(run[0].main);
    } else {
      var run', steps' := run[..n], steps[..n - 1];
      RunAwake(recheck, run', steps');
      assert AllAwake(run'[n - 1]);
      AwakeStep(recheck, run[n - 1], steps[n - 1]);
      forall i | 0 <= i < |run|
        ensures AllAwake(run[i])
      {
        assert i < n ==> run[i] == run'[i];
      }
    }
  }

  lemma AwakeStart(main: Tid)
    ensures AllAwake(Init(main))
  {
  }

  /** The steps open to a thread in any state of a safe run: the holder of the mutex can go on; a sleeper may wake
      unsignalled; while nobody has the mutex, each thread that was woken can get it back, each that runs can take it
      for any reason, one that was created can ask to be listed, and one whose thread_join is over can return.
      Without a collection nobody sleeps. */
  lemma EveryoneGoesOn(recheck: bool, run: seq<State>, steps: seq<Step>, i: nat, t: Tid)
    requires SafeRun(recheck, run, steps) && i < |run| && t in run[i].pc
    ensures var s, p := run[i], run[i].pc[t];
            && (p.Asleep? || p.ScanAsleep? ==> Enabled(s, Wake(t)) && s.gcThread.Some?)
            && (s.mutex == Some(t) ==> Enabled(s, Body(t)))
            && (s.mutex == None ==>
                 && (p.Woken? || p.ScanWoken? ==> Enabled(s, Relock(t)))
                 && (p == Running ==> Enabled(s, Lock(t, Poll)) && Enabled(s, Lock(t, Collect)))
                 && (p == Running ==> forall u :: Enabled(s, Lock(t, Join(u))))
                 && (p == Running && t != s.main ==> Enabled(s, Lock(t, Leave)))
                 && (p == Created ==> Enabled(s, Lock(t, Start)))
                 && (p.Joining? && p.other in s.pc && s.pc[p.other] == Gone ==> Enabled(s, Lock(t, Back)))
                 && !HoldsMutex(p))
            && (p == Running ==> forall u :: u !in s.pc ==> Enabled(s, Create(t, u)))
  {
    RunKeeps(recheck, run, steps);
    RunAwake(recheck, run, steps);
    assert Inv(run[i]) && AllAwake(run[i]);
    hide IsRun, SafeRun, ThreadLists.Unlinked, ListOk;
    var s := run[i];
    assert HoldsMutex(s.pc[t]) <==> s.mutex == Some(t);
    assert s.gcThread == Some(t) <==> Collecting(s.pc[t]);
  }

  /** Entering a safepoint during a collection takes the thread off the count of those still running
      and leaves no collector asleep: with ScanAdvances, the count ranks the collector's waits. */
  lemma EntryWakes(recheck: bool, s: State, t: Tid)
    requires Inv(s) && s.gcThread.Some? && Enabled(s, Body(t)) && s.pc[t].Locked? && s.pc[t].why != Start
             && s.pc[t].why != Back
    ensures var s' := Apply(recheck, s, Body(t));
            && t in StillRunning(s) && StillRunning(s') == StillRunning(s) - {t}
            && forall c :: c in s'.pc ==> !s'.pc[c].ScanAsleep?
  {
    SignalKeeps(s);
    var s' := Apply(recheck, s, Body(t));
    assert t !in s.flags && t in s.list && s'.list == s.list && s'.flags == s.flags + {t};
    assert Signal(SetFlag(s, t)).pc == Signal(s).pc;
  }

  // ---------------------------------------------------------------- the code as written

  /** As written, a step disturbs a collection exactly if it is not harmless. */
  lemma AsWrittenExact(s: State, step: Step)
    requires Inv(s) && Enabled(s, step)
    ensures Frozen(s, Apply(false, s, step)) <==> Harmless(s, step)
  {
    if Harmless(s, step) {
      StepKeeps(false, s, step);
    } else {
      var s', t, why := Apply(false, s, step), step.t, s.pc[step.t].why;
      assert s' == Proceed(s, t, why) && s'.gcThread == s.gcThread;
      if why == Start {
        assert |s'.list| == |s.list| + 1;
      } else if why == Leave {
        assert t in s.list;
        ThreadLists.UnlinkedElems(s.list, t);
        assert |s'.list| == |s.list| - 1;
      } else {
        assert t in Passed(s) && t !in s'.flags;
      }
    }
  }

  /** A run of the code as written keeps every collection undisturbed if and only if all its steps
      are harmless. */
  lemma {:induction false} AsWrittenRun(run: seq<State>, steps: seq<Step>)
    requires IsRun(false, run, steps)
    ensures (forall i :: 0 <= i < |steps| ==> Frozen(run[i], run[i + 1]))
       <==> (forall i :: 0 <= i < |steps| ==> Harmless(run[i], steps[i]))
    decreases |steps|
  {
    hide Inv, Frozen, Harmless, Enabled, Apply;
    var n := |steps|;
    if forall i :: 0 <= i < n ==> Harmless(run[i], steps[i]) {
      RunKeeps(false, run, steps);
    } else if exists i :: 0 <= i < n - 1 && !Harmless(run[i], steps[i]) {
      var run', steps' := run[..n], steps[..n - 1];
      assert IsRun(false, run', steps');
      AsWrittenRun(run', steps');
      assert exists i :: 0 <= i < |steps'| && !Harmless(run'[i], steps'[i]);
      var k :| 0 <= k < |steps'| && !Frozen(run'[k], run'[k + 1]);
      assert !Frozen(run[k], run[k + 1]);
    } else {
      var run', steps' := run[..n], steps[..n - 1];
      RunKeeps(false, run', steps');
      assert Inv(run'[n - 1]) && run'[n - 1] == run[n - 1];
      AsWrittenExact(run[n - 1], steps[n - 1]);
      assert run[n - 1 + 1] == Apply(false, run[n - 1], steps[n - 1]);
    }
  }

  /** A run of the code as written in which every wake-up was signalled. */
  ghost predicate Quiet(run: seq<State>, steps: seq<Step>)
    ensures Quiet(run, steps) ==> |run| == |steps| + 1
  {
    IsRun(false, run, steps) && forall i :: 0 <= i < |steps| ==> !steps[i].Wake?
  }

  lemma Extend(run: seq<State>, steps: seq<Step>, s: State, step: Step, s': State)
    returns (run': seq<State>, steps': seq<Step>, next: State)
    requires Quiet(run, steps) && s == run[|steps|] && Enabled(s, step) && Apply(false, s, step) == s' && !step.Wake?
    ensures Quiet(run', steps') && next == s' == run'[|steps'|]
  {
    run', steps', next := run + [s'], steps + [step], s';
  }

  /** Thread 1 is listed, thread 2 created, and thread 0 collects. */
  lemma TwoThreads() returns (run: seq<State>, steps: seq<Step>)
    ensures Quiet(run, steps)
    ensures run[|steps|] == State(0, map[0 := Scanning(2), 1 := Running, 2 := Created], {0}, [1, 0], Some(0), Some(0),
            true)
  {
    var s := Init(0);
    run, steps := [s], [];
    assert Quiet(run, steps);
    hide Quiet, ThreadLists.Unlinked;
    run, steps, s := Extend(run, steps, s, Create(0, 1), s.(pc := s.pc[1 := Created]));
    run, steps, s := Extend(run, steps, s, Lock(1, Start), s.(pc := s.pc[1 := Locked(Start)], mutex := Some(1)));
    run, steps, s := Extend(run, steps, s, Body(1),
      s.(pc := s.pc[1 := Running], list := [1, 0], mutex := None, moreThanOne := true));
    run, steps := ThirdThread(run, steps);
  }

  lemma ThirdThread(run0: seq<State>, steps0: seq<Step>) returns (run: seq<State>, steps: seq<Step>)
    requires Quiet(run0, steps0)
    requires run0[|steps0|] == State(0, map[0 := Running, 1 := Running], {}, [1, 0], None, None, true)
    ensures Quiet(run, steps)
    ensures run[|steps|] == State(0, map[0 := Scanning(2), 1 := Running, 2 := Created], {0}, [1, 0], Some(0), Some(0),
            true)
  {
    hide Quiet, ThreadLists.Unlinked;
    run, steps := run0, steps0;
    var s := run[|steps|];
    run, steps, s := Extend(run, steps, s, Create(0, 2), s.(pc := s.pc[2 := Created]));
    run, steps, s := Extend(run, steps, s, Lock(0, Collect), s.(pc := s.pc[0 := Locked(Collect)], mutex := Some(0)));
    run, steps, s := Extend(run, steps, s, Body(0),
      s.(pc := s.pc[0 := Scanning(2)], flags := s.flags + {0}, gcThread := Some(0)));
  }

  /** Thread 0 sleeps for thread 1; thread 2 finds a collection going on. */
  lemma FirstScan(run0: seq<State>, steps0: seq<Step>) returns (run: seq<State>, steps: seq<Step>)
    requires Quiet(run0, steps0)
    requires run0[|steps0|] == State(0, map[0 := Scanning(2), 1 := Running, 2 := Created], {0}, [1, 0], Some(0),
             Some(0), true)
    ensures Quiet(run, steps)
    ensures run[|steps|] == State(0, map[0 := ScanWoken(2), 1 := Asleep(Poll), 2 := Asleep(Start)], {0, 1}, [1, 0],
            Some(0), None, true)
  {
    hide Quiet, ThreadLists.Unlinked;
    run, steps := run0, steps0;
    var s := run[|steps|];
    run, steps, s := Extend(run, steps, s, Body(0), s.(pc := s.pc[0 := ScanAsleep(2)], mutex := None));
    run, steps, s := Extend(run, steps, s, Lock(2, Start), s.(pc := s.pc[2 := Locked(Start)], mutex := Some(2)));
    run, steps, s := Extend(run, steps, s, Body(2), s.(pc := s.pc[2 := Asleep(Start)], mutex := None));
    run, steps, s := Extend(run, steps, s, Lock(1, Poll), s.(pc := s.pc[1 := Locked(Poll)], mutex := Some(1)));
    run, steps, s := Extend(run, steps, s, Body(1),
      s.(pc := s.pc[0 := ScanWoken(2)][1 := Asleep(Poll)], flags := s.flags + {1}, mutex := None));
  }

  /** The first collection ends and wakes both. */
  lemma FirstSweep(run0: seq<State>, steps0: seq<Step>) returns (run: seq<State>, steps: seq<Step>)
    requires Quiet(run0, steps0)
    requires run0[|steps0|] == State(0, map[0 := ScanWoken(2), 1 := Asleep(Poll), 2 := Asleep(Start)], {0, 1}, [1, 0],
             Some(0), None, true)
    ensures Quiet(run, steps)
    ensures run[|steps|] == State(0, map[0 := Running, 1 := Woken(Poll), 2 := Woken(Start)], {1}, [1, 0], None, None,
            true)
  {
    hide Quiet, ThreadLists.Unlinked;
    run, steps := run0, steps0;
    var s := run[|steps|];
    run, steps, s := Extend(run, steps, s, Relock(0), s.(pc := s.pc[0 := Scanning(2)], mutex := Some(0)));
    run, steps, s := Extend(run, steps, s, Body(0), s.(pc := s.pc[0 := Scanning(1)]));
    run, steps, s := Extend(run, steps, s, Body(0), s.(pc := s.pc[0 := Scanning(0)]));
    run, steps := FirstEnd(run, steps);
  }

  lemma FirstEnd(run0: seq<State>, steps0: seq<Step>) returns (run: seq<State>, steps: seq<Step>)
    requires Quiet(run0, steps0)
    requires run0[|steps0|] == State(0, map[0 := Scanning(0), 1 := Asleep(Poll), 2 := Asleep(Start)], {0, 1}, [1, 0],
             Some(0), Some(0), true)
    ensures Quiet(run, steps)
    ensures run[|steps|] == State(0, map[0 := Running, 1 := Woken(Poll), 2 := Woken(Start)], {1}, [1, 0], None, None,
            true)
  {
    hide Quiet, ThreadLists.Unlinked;
    run, steps := run0, steps0;
    var s := run[|steps|];
    run, steps, s := Extend(run, steps, s, Body(0), s.(pc := s.pc[0 := Sweeping]));
    run, steps, s := Extend(run, steps, s, Body(0),
      s.(pc := s.pc[0 := Running][1 := Woken(Poll)][2 := Woken(Start)], flags := s.flags - {0},
         gcThread := None, mutex := None));
  }

  /** Thread 1 gets the mutex back, then thread 0 for a second collection, which sleeps for thread 1. */
  lemma SecondCollection(run0: seq<State>, steps0: seq<Step>) returns (run: seq<State>, steps: seq<Step>)
    requires Quiet(run0, steps0)
    requires run0[|steps0|] == State(0, map[0 := Running, 1 := Woken(Poll), 2 := Woken(Start)], {1}, [1, 0], None,
             None, true)
    ensures Quiet(run, steps)
    ensures run[|steps|] == State(0, map[0 := ScanAsleep(2), 1 := Running, 2 := Woken(Start)], {0}, [1, 0], Some(0),
            None, true)
  {
    hide Quiet, ThreadLists.Unlinked;
    run, steps := run0, steps0;
    var s := run[|steps|];
    run, steps, s := Extend(run, steps, s, Relock(1), s.(pc := s.pc[1 := Resumed(Poll)], mutex := Some(1)));
    run, steps, s := Extend(run, steps, s, Body(1),
      s.(pc := s.pc[1 := Running], flags := s.flags - {1}, mutex := None));
    run, steps, s := Extend(run, steps, s, Lock(0, Collect), s.(pc := s.pc[0 := Locked(Collect)], mutex := Some(0)));
    run, steps, s := Extend(run, steps, s, Body(0),
      s.(pc := s.pc[0 := Scanning(2)], flags := s.flags + {0}, gcThread := Some(0)));
    run, steps, s := Extend(run, steps, s, Body(0), s.(pc := s.pc[0 := ScanAsleep(2)], mutex := None));
  }

  /** Thread 2 gets the mutex back and is listed behind the collector. */
  lemma LateStart(run0: seq<State>, steps0: seq<Step>) returns (run: seq<State>, steps: seq<Step>)
    requires Quiet(run0, steps0)
    requires run0[|steps0|] == State(0, map[0 := ScanAsleep(2), 1 := Running, 2 := Woken(Start)], {0}, [1, 0],
             Some(0), None, true)
    ensures Quiet(run, steps)
    ensures run[|steps|] == State(0, map[0 := ScanWoken(2), 1 := Asleep(Poll), 2 := Running], {0, 1}, [2, 1, 0],
            Some(0), None, true)
  {
    hide Quiet, ThreadLists.Unlinked;
    run, steps := run0, steps0;
    var s := run[|steps|];
    run, steps, s := Extend(run, steps, s, Relock(2), s.(pc := s.pc[2 := Resumed(Start)], mutex := Some(2)));
    run, steps, s := Extend(run, steps, s, Body(2), s.(pc := s.pc[2 := Running], list := [2, 1, 0], mutex := None));
    run, steps, s := Extend(run, steps, s, Lock(1, Poll), s.(pc := s.pc[1 := Locked(Poll)], mutex := Some(1)));
    run, steps, s := Extend(run, steps, s, Body(1),
      s.(pc := s.pc[0 := ScanWoken(2)][1 := Asleep(Poll)], flags := s.flags + {1}, mutex := None));
  }

  /** The second collection passes threads 1 and 0. */
  lemma SecondSweep(run0: seq<State>, steps0: seq<Step>) returns (run: seq<State>, steps: seq<Step>)
    requires Quiet(run0, steps0)
    requires run0[|steps0|] == State(0, map[0 := ScanWoken(2), 1 := Asleep(Poll), 2 := Running], {0, 1}, [2, 1, 0],
             Some(0), None, true)
    ensures Quiet(run, steps)
    ensures run[|steps|] == State(0, map[0 := Sweeping, 1 := Asleep(Poll), 2 := Running], {0, 1}, [2, 1, 0], Some(0),
            Some(0), true)
  {
    hide Quiet, ThreadLists.Unlinked;
    run, steps := run0, steps0;
    var s := run[|steps|];
    run, steps, s := Extend(run, steps, s, Relock(0), s.(pc := s.pc[0 := Scanning(2)], mutex := Some(0)));
    run, steps, s := Extend(run, steps, s, Body(0), s.(pc := s.pc[0 := Scanning(1)]));
    run, steps, s := Extend(run, steps, s, Body(0), s.(pc := s.pc[0 := Scanning(0)]));
    run, steps, s := Extend(run, steps, s, Body(0), s.(pc := s.pc[0 := Sweeping]));
  }

  /** As written, sweep can run beside a thread that runs and was never scanned, even if no thread
      ever wakes unsignalled: thread 2 waits in start_routine for a first collection to end, and
      gets the mutex back only after a second one has begun. */
  lemma SweepBesideARunningThread() returns (run: seq<State>, steps: seq<Step>)
    ensures IsRun(false, run, steps) && forall i :: 0 <= i < |steps| ==> !steps[i].Wake?
    ensures var s := run[|steps|];
            0 in s.pc && 2 in s.pc && s.pc[0] == Sweeping && 2 in s.list && s.pc[2] == Running
            && 2 !in s.flags
  {
    hide IsRun, Enabled, Apply;
    run, steps := TwoThreads();
    run, steps := FirstScan(run, steps);
    run, steps := FirstSweep(run, steps);
    run, steps := SecondCollection(run, steps);
    run, steps := LateStart(run, steps);
    run, steps := SecondSweep(run, steps);
  }
}
