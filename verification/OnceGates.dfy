/** The gate that starts the hub's goroutines: Do runs a function at most once, and Done on a
    gate that has not run yet closes it for good. Any number of threads; one step is one atomic
    load or store, one lock operation, or the end of the function. */
module OnceGates {

  datatype Option<+T> = None | Some(value: T)

  datatype Pc =
    | DoLoad
    | DoLock
    | DoHeld                     // holds the mutex
    | DoRunning                  // the function runs
    | DoRan                      // it has returned, the gate is not yet marked
    | DoUnlock
    | DoEnd
    | DoneLoad
    | DoneLock
    | DoneHeld
    | DoneUnlock(doned: bool)
    | DoneEnd(doned: bool)

  predicate Holding(pc: Pc) {
    pc.DoHeld? || pc.DoRunning? || pc.DoRan? || pc.DoUnlock? || pc.DoneHeld? || pc.DoneUnlock?
  }

  /** `done` is 0 for a fresh gate, 1 once the function has run, 2 once it is cancelled. */
  datatype State = State(done: nat, lock: Option<nat>, threads: map<nat, Pc>, started: nat, finished: nat)

  ghost predicate Init(s: State) {
    s == State(0, None, map[], 0, 0)
  }

  function Goto(s: State, t: nat, pc: Pc): State {
    s.(threads := s.threads[t := pc])
  }

  ghost predicate Acquire(s: State, t: nat, pc: Pc, s': State) {
    s.lock.None? && s' == Goto(s, t, pc).(lock := Some(t))
  }

  ghost predicate Advance(s: State, t: nat, s': State)
    requires t in s.threads
  {
    match s.threads[t]
    case DoLoad => s' == Goto(s, t, if s.done == 0 then DoLock else DoEnd)
    case DoLock => Acquire(s, t, DoHeld, s')
    case DoHeld =>
      s' == if s.done == 0 then Goto(s, t, DoRunning).(started := s.started + 1) else Goto(s, t, DoUnlock)
    case DoRunning => s' == Goto(s, t, DoRan).(finished := s.finished + 1)
    case DoRan => s' == Goto(s, t, DoUnlock).(done := 1)
    case DoUnlock => s' == Goto(s, t, DoEnd).(lock := None)
    case DoneLoad =>
      s' == Goto(s, t, if s.done == 1 then DoneEnd(true) else if s.done == 2 then DoneEnd(false) else DoneLock)
    case DoneLock => Acquire(s, t, DoneHeld, s')
    case DoneHeld =>
      s' == if s.done == 0 then Goto(s, t, DoneUnlock(false)).(done := 2) else Goto(s, t, DoneUnlock(s.done == 1))
    case DoneUnlock(b) => s' == Goto(s, t, DoneEnd(b)).(lock := None)
    case DoEnd => false
    case DoneEnd(_) => false
  }

  ghost predicate Next(s: State, t: nat, s': State) {
    if t in s.threads then Advance(s, t, s') else s' == Goto(s, t, DoLoad) || s' == Goto(s, t, DoneLoad)
  }

  ghost predicate CanStep(s: State, s': State) {
    exists t :: Next(s, t, s')
  }

  ghost predicate StepAt(run: seq<State>, i: nat)
    requires i + 1 < |run|
  {
    CanStep(run[i], run[i + 1])
  }

  ghost predicate IsRun(run: seq<State>) {
    run != [] && Init(run[0]) && forall i | 0 <= i < |run| - 1 :: StepAt(run, i)
  }

  // ---- The invariant ----

  /** The mutex word says who is inside. */
  ghost predicate Mutex(s: State) {
    forall t :: s.lock == Some(t) <==> t in s.threads && Holding(s.threads[t])
  }

  /** How often the function was started and finished follows from the gate and its holder. */
  predicate Counts(s: State) {
    && s.done <= 2
    && (s.done == 1 ==> s.started == 1 && s.finished == 1)
    && (s.done == 2 ==> s.started == 0 && s.finished == 0)
    && (s.done == 0 ==>
          var inside := s.lock.Some? && s.lock.value in s.threads;
          && s.started == (if inside && (s.threads[s.lock.value].DoRunning? || s.threads[s.lock.value].DoRan?) then 1 else 0)
          && s.finished == (if inside && s.threads[s.lock.value].DoRan? then 1 else 0))
  }

  predicate PcFits(s: State, pc: Pc) {
    match pc
    case DoRunning => s.done == 0
    case DoRan => s.done == 0
    case DoUnlock => s.done != 0
    case DoEnd => s.done != 0
    case DoneUnlock(b) => s.done == if b then 1 else 2
    case DoneEnd(b) => s.done == if b then 1 else 2
    case _ => true
  }

  ghost predicate PcsFit(s: State) {
    forall t {:trigger s.threads[t]} | t in s.threads :: PcFits(s, s.threads[t])
  }

  ghost predicate Inv(s: State) {
    Mutex(s) && Counts(s) && PcsFit(s)
  }

  lemma NextKeepsInv(s: State, t: nat, s': State)
    requires Inv(s) && Next(s, t, s')
    ensures Inv(s') && (s.done != 0 ==> s'.done == s.done)
  {
    if t in s.threads { assert PcFits(s, s.threads[t]); }
    assert s.lock == Some(t) <==> t in s.threads && Holding(s.threads[t]);
    forall u | u in s'.threads ensures PcFits(s', s'.threads[u]) {
      if u != t {
        assert PcFits(s, s.threads[u]);
        assert s.lock == Some(u) <==> Holding(s.threads[u]);
      }
    }
  }

  lemma {:induction false} RunKeepsInv(run: seq<State>, i: nat)
    requires IsRun(run) && i < |run|
    ensures Inv(run[i])
  {
    hide Next;
    if i > 0 {
      RunKeepsInv(run, i - 1);
      assert StepAt(run, i - 1);
      hide Inv;
      var t :| Next(run[i - 1], t, run[i]);
      NextKeepsInv(run[i - 1], t, run[i]);
    }
  }

  // ---- The results ----

  /** In every interleaving the function is started at most once; when a Do returns it has
      finished or was cancelled; and a Done answers whether it has finished. */
  lemma GateSafety(run: seq<State>, i: nat, t: nat)
    requires IsRun(run) && i < |run|
    ensures run[i].started <= 1 && run[i].finished <= run[i].started
    ensures t in run[i].threads && run[i].threads[t].DoEnd? ==> run[i].finished == 1 || run[i].done == 2
    ensures t in run[i].threads && run[i].threads[t].DoneEnd? ==> (run[i].threads[t].doned <==> run[i].finished == 1)
  {
    hide IsRun;
    RunKeepsInv(run, i);
    if t in run[i].threads { assert PcFits(run[i], run[i].threads[t]); }
  }

  /** Once some Done has answered no, the function is never started: a hub whose first use is a
      broadcast is never served. */
  lemma {:induction false} DoneCancelsDo(run: seq<State>, i: nat, j: nat, t: nat)
    requires IsRun(run) && i <= j < |run|
    requires t in run[i].threads && run[i].threads[t] == DoneEnd(false)
    ensures run[j].done == 2 && run[j].started == 0
  {
    hide Next;
    RunKeepsInv(run, j);
    if i == j {
      assert PcFits(run[i], run[i].threads[t]);
    } else {
      DoneCancelsDo(run, i, j - 1, t);
      RunKeepsInv(run, j - 1);
      assert StepAt(run, j - 1);
      var u :| Next(run[j - 1], u, run[j]);
      NextKeepsInv(run[j - 1], u, run[j]);
    }
  }

  lemma Append(run: seq<State>, t: nat, s': State) returns (longer: seq<State>)
    requires IsRun(run) && Next(run[|run| - 1], t, s')
    ensures longer == run + [s'] && IsRun(longer)
  {
    longer := run + [s'];
    forall i | 0 <= i < |longer| - 1 ensures StepAt(longer, i) {
      if i < |run| - 1 { assert StepAt(run, i); }
    }
  }

  /** A fresh gate that nobody holds can always be cancelled: by a Done that gets through first. */
  lemma DoneFirst(run: seq<State>, t: nat) returns (longer: seq<State>)
    requires IsRun(run) && run[|run| - 1].done == 0 && run[|run| - 1].lock.None? && t !in run[|run| - 1].threads
    ensures IsRun(longer) && |longer| == |run| + 5 && longer[..|run|] == run
    ensures longer[|run| + 4] == Goto(run[|run| - 1], t, DoneEnd(false)).(done := 2)
  {
    var s := run[|run| - 1];
    hide IsRun;
    longer := Append(run, t, Goto(s, t, DoneLoad));
    longer := Append(longer, t, Goto(s, t, DoneLock));
    longer := Append(longer, t, Goto(s, t, DoneHeld).(lock := Some(t)));
    longer := Append(longer, t, Goto(s, t, DoneUnlock(false)).(lock := Some(t), done := 2));
    longer := Append(longer, t, Goto(s, t, DoneEnd(false)).(done := 2));
  }

  /** The gate is cancelled only by a Done that answers, or is about to answer, no. */
  ghost predicate Cancelled(s: State) {
    exists t :: t in s.threads && (s.threads[t] == DoneUnlock(false) || s.threads[t] == DoneEnd(false))
  }

  lemma NextKeepsCancelled(s: State, t: nat, s': State)
    requires Inv(s) && Next(s, t, s') && (s.done == 2 ==> Cancelled(s))
    ensures s'.done == 2 ==> Cancelled(s')
  {
    if s'.done == 2 {
      if s.done == 2 {
        var u :| u in s.threads && (s.threads[u] == DoneUnlock(false) || s.threads[u] == DoneEnd(false));
        assert u in s'.threads && (s'.threads[u] == DoneUnlock(false) || s'.threads[u] == DoneEnd(false));
      } else {
        assert s'.threads[t] == DoneUnlock(false);
      }
    }
  }

  lemma {:induction false} RunKeepsCancelled(run: seq<State>, i: nat)
    requires IsRun(run) && i < |run|
    ensures run[i].done == 2 ==> Cancelled(run[i])
  {
    hide Next, Inv, Cancelled;
    if i > 0 {
      RunKeepsCancelled(run, i - 1);
      RunKeepsInv(run, i - 1);
      assert StepAt(run, i - 1);
      var t :| Next(run[i - 1], t, run[i]);
      NextKeepsCancelled(run[i - 1], t, run[i]);
    }
  }

  /** Exactly when a Do comes back without the function having run: when some Done has cancelled it. */
  lemma NeverStartedIff(run: seq<State>, i: nat, t: nat)
    requires IsRun(run) && i < |run| && t in run[i].threads && run[i].threads[t].DoEnd?
    ensures run[i].started == 0 <==> Cancelled(run[i])
    ensures run[i].started == 0 || run[i].finished == 1
  {
    hide IsRun;
    RunKeepsInv(run, i);
    RunKeepsCancelled(run, i);
    assert PcFits(run[i], run[i].threads[t]);
    if u :| u in run[i].threads && (run[i].threads[u] == DoneUnlock(false) || run[i].threads[u] == DoneEnd(false)) {
      assert PcFits(run[i], run[i].threads[u]);
    }
  }
}
