/** The pool of SMTP connections, in every interleaving of any number of getting, putting and
    closing threads. A region under the mutex is one step; probing and closing a connection
    outside it are steps of their own. A connection can only be put back by whoever has it. */
module SmtpPool {

  type Conn = nat

  datatype Pc =
    | GetStart
    | GetProbe(conn: Conn)           // popped and counted, not yet probed
    | GetBroken(conn: Conn)          // the probe failed
    | GetDropped                     // the broken connection is closed but still counted
    | GetEnd(got: bool)
    | PutProbe(conn: Conn)
    | PutReady(conn: Conn, ok: bool)
    | PutEnd

  /** How dialing a new connection ends. */
  datatype Dial = Connected | Refused | Unauthorized

  datatype Step =
    | StartGet(t: nat)
    | GetRegion(t: nat, dial: Dial)
    | Noop(t: nat, ok: bool)
    | CloseBroken(t: nat)
    | Uncount(t: nat)
    | StartPut(t: nat, conn: Conn)
    | PutRegion(t: nat)
    | ClosePool

  /** Connections are numbered as they are opened. `out` are those callers hold, `dead` those on
      which Close was called, and `closedTwice` would say that one of them was closed again. */
  datatype State = State(
    poolCap: nat,
    closed: bool,
    idle: seq<Conn>,
    active: int,
    threads: map<nat, Pc>,
    dialed: nat,
    out: set<Conn>,
    dead: set<Conn>,
    closedTwice: bool)

  predicate Init(s: State) {
    && !s.closed && s.idle == [] && s.active == 0 && s.threads == map[] && s.dialed == 0
    && s.out == {} && s.dead == {} && !s.closedTwice
  }

  predicate At(s: State, t: nat, pc: Pc) {
    t in s.threads && s.threads[t] == pc
  }

  function Goto(s: State, t: nat, pc: Pc): State {
    s.(threads := s.threads[t := pc])
  }

  function Closes(s: State, conns: set<Conn>): State {
    s.(dead := s.dead + conns, closedTwice := s.closedTwice || conns * s.dead != {})
  }

  function Elements(conns: seq<Conn>): set<Conn> {
    set c | c in conns
  }

  /** The region of Get: fail, pop an idle connection, go round again, or dial under the mutex. */
  function GetNext(s: State, t: nat, dial: Dial): State {
    if s.closed then Goto(s, t, GetEnd(false))
    else if s.idle != [] then
      Goto(s, t, GetProbe(s.idle[|s.idle| - 1])).(idle := s.idle[..|s.idle| - 1], active := s.active + 1)
    else if s.active >= s.poolCap then s
    else
      match dial
      case Connected =>
        Goto(s, t, GetEnd(true)).(active := s.active + 1, out := s.out + {s.dialed}, dialed := s.dialed + 1)
      case Refused => Goto(s, t, GetEnd(false))
      case Unauthorized => Closes(Goto(s, t, GetEnd(false)).(dialed := s.dialed + 1), {s.dialed})
  }

  function PutNext(s: State, t: nat, conn: Conn, ok: bool): State {
    var put := Goto(s, t, PutEnd).(active := s.active - 1);
    if s.closed || !ok then Closes(put, {conn}) else put.(idle := s.idle + [conn])
  }

  predicate Next(s: State, step: Step, s': State) {
    match step
    case StartGet(t) => t !in s.threads && s' == Goto(s, t, GetStart)
    case GetRegion(t, dial) => At(s, t, GetStart) && s' == GetNext(s, t, dial)
    case Noop(t, ok) =>
      t in s.threads
      && (match s.threads[t]
          case GetProbe(c) => s' == if ok then Goto(s, t, GetEnd(true)).(out := s.out + {c}) else Goto(s, t, GetBroken(c))
          case PutProbe(c) => s' == Goto(s, t, PutReady(c, ok))
          case _ => false)
    case CloseBroken(t) => t in s.threads && s.threads[t].GetBroken? && s' == Closes(Goto(s, t, GetDropped), {s.threads[t].conn})
    case Uncount(t) => At(s, t, GetDropped) && s' == Goto(s, t, GetStart).(active := s.active - 1)
    case StartPut(t, c) => t !in s.threads && c in s.out && s' == Goto(s, t, PutProbe(c)).(out := s.out - {c})
    case PutRegion(t) =>
      t in s.threads && s.threads[t].PutReady? && s' == PutNext(s, t, s.threads[t].conn, s.threads[t].ok)
    case ClosePool => s' == Closes(s, Elements(s.idle)).(closed := true, idle := [])
  }

  ghost predicate CanStep(s: State, s': State) {
    exists step :: Next(s, step, s')
  }

  ghost predicate StepAt(run: seq<State>, i: nat)
    requires i + 1 < |run|
  {
    CanStep(run[i], run[i + 1])
  }

  ghost predicate IsRun(run: seq<State>) {
    run != [] && Init(run[0]) && forall i | 0 <= i < |run| - 1 :: StepAt(run, i)
  }

  // ---- The invariant ----

  predicate Holds(pc: Pc, c: Conn) {
    (pc.GetProbe? || pc.GetBroken? || pc.PutProbe? || pc.PutReady?) && pc.conn == c
  }

  predicate Counted(pc: Pc) {
    pc.GetProbe? || pc.GetBroken? || pc.GetDropped? || pc.PutProbe? || pc.PutReady?
  }

  function Busy(s: State): set<nat> {
    set t | t in s.threads && Counted(s.threads[t])
  }

  ghost predicate Held(s: State, c: Conn) {
    exists t :: t in s.threads && Holds(s.threads[t], c)
  }

  /** The counters: every connection that is out or being probed is counted once. */
  predicate Counters(s: State) {
    && s.active == |s.out| + |Busy(s)|
    && s.active + |s.idle| <= s.poolCap
    && (s.closed ==> s.idle == [])
    && !s.closedTwice
  }

  ghost predicate OneHolder(s: State, c: Conn) {
    forall t, u | t in s.threads && u in s.threads && Holds(s.threads[t], c) && Holds(s.threads[u], c) :: t == u
  }

  /** A connection that was opened is in exactly one place: idle, out, dead, or with one thread. */
  ghost predicate OnePlace(s: State, c: Conn) {
    && (c < s.dialed <==> c in s.idle || c in s.out || c in s.dead || Held(s, c))
    && (c in s.idle ==> c !in s.out && c !in s.dead && !Held(s, c))
    && (c in s.out ==> c !in s.dead && !Held(s, c))
    && (c in s.dead ==> !Held(s, c))
    && (forall i, j | 0 <= i < j < |s.idle| && s.idle[i] == c :: s.idle[j] != c)
    && OneHolder(s, c)
  }

  ghost predicate Places(s: State) {
    forall c :: OnePlace(s, c)
  }

  lemma InitInv(s: State)
    requires Init(s)
    ensures Counters(s) && Places(s)
  {
    assert Busy(s) == {};
  }

  lemma BusyAt(s: State, t: nat, pc: Pc)
    ensures Busy(Goto(s, t, pc)) == if Counted(pc) then Busy(s) + {t} else Busy(s) - {t}
    ensures |Busy(Goto(s, t, pc))| ==
            |Busy(s)| + (if Counted(pc) then 1 else 0) - (if t in Busy(s) then 1 else 0)
  {
    assert Busy(Goto(s, t, pc)) == if Counted(pc) then Busy(s) + {t} else Busy(s) - {t};
  }

  lemma HeldApart(s: State, t: nat, c: Conn)
    requires Places(s) && t in s.threads && Holds(s.threads[t], c)
    ensures c !in s.out && c !in s.dead && c !in s.idle
  {
    assert OnePlace(s, c);
  }

  lemma IdleApart(s: State)
    requires Places(s)
    ensures Elements(s.idle) * s.dead == {} && s.dialed !in s.out && s.dialed !in s.dead
  {
    assert OnePlace(s, s.dialed);
    forall c | c in s.idle ensures c !in s.dead { assert OnePlace(s, c); }
  }

  lemma NextKeepsCounters(s: State, step: Step, s': State)
    requires Counters(s) && Places(s) && Next(s, step, s')
    ensures Counters(s')
  {
    match step
    case GetRegion(t, dial) => GetKeepsCounters(s, t, dial);
    case ClosePool =>
      IdleApart(s);
      assert Busy(s') == Busy(s);
    case PutRegion(t) => PutKeepsCounters(s, t);
    case Noop(t, ok) => NoopKeepsCounters(s, step, s');
    case _ => MoveKeepsCounters(s, step, s');
  }

  lemma PutKeepsCounters(s: State, t: nat)
    requires Counters(s) && Places(s) && t in s.threads && s.threads[t].PutReady?
    ensures Counters(PutNext(s, t, s.threads[t].conn, s.threads[t].ok))
  {
    var s' := PutNext(s, t, s.threads[t].conn, s.threads[t].ok);
    BusyAt(s, t, PutEnd);
    assert Busy(s') == Busy(Goto(s, t, PutEnd));
    HeldApart(s, t, s.threads[t].conn);
    hide Places;
  }

  lemma MoveKeepsCounters(s: State, step: Step, s': State)
    requires Counters(s) && Places(s) && Next(s, step, s')
    requires step.StartGet? || step.CloseBroken? || step.Uncount? || step.StartPut?
    ensures Counters(s')
  {
    hide Busy, Places, Counters;
    var pc := s'.threads[step.t];
    BusyAt(s, step.t, pc);
    SameBusy(s', Goto(s, step.t, pc));
    InBusy(s, step.t);
    if step.CloseBroken? { HeldApart(s, step.t, s.threads[step.t].conn); }
    assert s'.active - |s'.out| - |Busy(s')| == s.active - |s.out| - |Busy(s)|;
    SameCounters(s, s');
  }

  lemma NoopKeepsCounters(s: State, step: Step, s': State)
    requires Counters(s) && Places(s) && Next(s, step, s') && step.Noop?
    ensures Counters(s')
  {
    hide Busy, Places, Counters;
    BusyAt(s, step.t, s'.threads[step.t]);
    SameBusy(s', Goto(s, step.t, s'.threads[step.t]));
    InBusy(s, step.t);
    HeldApart(s, step.t, s.threads[step.t].conn);
    SameCounters(s, s');
  }

  lemma SameCounters(s: State, s': State)
    requires Counters(s) && s'.active - |s'.out| - |Busy(s')| == s.active - |s.out| - |Busy(s)|
    requires s'.active <= s.active && s'.idle == s.idle && s'.closed == s.closed && s'.poolCap == s.poolCap
    requires s'.closedTwice == s.closedTwice
    ensures Counters(s')
  {
  }

  lemma SameBusy(s: State, s': State)
    requires s'.threads == s.threads
    ensures Busy(s') == Busy(s)
  {
  }

  lemma InBusy(s: State, t: nat)
    ensures t in Busy(s) <==> t in s.threads && Counted(s.threads[t])
  {
  }

  lemma GetKeepsCounters(s: State, t: nat, dial: Dial)
    requires Counters(s) && Places(s) && At(s, t, GetStart)
    ensures Counters(GetNext(s, t, dial))
  {
    var s' := GetNext(s, t, dial);
    IdleApart(s);
    if s' != s {
      BusyAt(s, t, s'.threads[t]);
      assert Busy(s') == Busy(Goto(s, t, s'.threads[t]));
    }
  }

  // ---- Places ----

  /** What a thread's move does to who holds c. */
  lemma HeldAfter(s: State, t: nat, pc: Pc, c: Conn)
    requires OneHolder(s, c) && (Holds(pc, c) ==> !Held(s, c) || (t in s.threads && Holds(s.threads[t], c)))
    ensures OneHolder(Goto(s, t, pc), c)
    ensures Held(Goto(s, t, pc), c) <==>
            Holds(pc, c) || (Held(s, c) && !(t in s.threads && Holds(s.threads[t], c)))
    ensures t in s.threads && Holds(s.threads[t], c) ==> Held(s, c)
  {
    var s' := Goto(s, t, pc);
    if Holds(pc, c) { assert t in s'.threads && Holds(s'.threads[t], c); }
    if u :| u in s.threads && Holds(s.threads[u], c) && u != t { assert u in s'.threads && Holds(s'.threads[u], c); }
  }

  lemma SameHolders(s: State, s': State, c: Conn)
    requires s'.threads == s.threads
    ensures Held(s', c) == Held(s, c) && OneHolder(s', c) == OneHolder(s, c)
  {
  }

  lemma GetKeepsOnePlace(s: State, t: nat, dial: Dial, c: Conn)
    requires Places(s) && At(s, t, GetStart)
    ensures OnePlace(GetNext(s, t, dial), c)
  {
    var s' := GetNext(s, t, dial);
    assert OnePlace(s, c) && OneHolder(s, c);
    if s' != s {
      HeldAfter(s, t, s'.threads[t], c);
      SameHolders(Goto(s, t, s'.threads[t]), s', c);
      assert OneHolder(s', c);
      hide Held, OneHolder, Places;
    }
  }

  lemma PutKeepsOnePlace(s: State, t: nat, c: Conn)
    requires Places(s) && t in s.threads && s.threads[t].PutReady?
    ensures OnePlace(PutNext(s, t, s.threads[t].conn, s.threads[t].ok), c)
  {
    var conn, ok := s.threads[t].conn, s.threads[t].ok;
    var s' := PutNext(s, t, conn, ok);
    assert OnePlace(s, c) && OneHolder(s, c);
    HeldAfter(s, t, PutEnd, c);
    SameHolders(Goto(s, t, PutEnd), s', c);
    hide Held, OneHolder, Places;
    assert OneHolder(s', c);
  }

  /** Steps outside the mutex, and the start of Put. */
  lemma MoveKeepsOnePlace(s: State, step: Step, s': State, c: Conn)
    requires Places(s) && Next(s, step, s')
    requires step.StartGet? || step.Noop? || step.CloseBroken? || step.Uncount? || step.StartPut?
    ensures OnePlace(s', c)
  {
    assert OnePlace(s, c) && OneHolder(s, c);
    HeldAfter(s, step.t, s'.threads[step.t], c);
    SameHolders(Goto(s, step.t, s'.threads[step.t]), s', c);
    hide Held, OneHolder, Places;
    assert OneHolder(s', c);
  }

  lemma NextKeepsOnePlace(s: State, step: Step, s': State, c: Conn)
    requires Places(s) && Next(s, step, s')
    ensures OnePlace(s', c)
  {
    match step
    case GetRegion(t, dial) => GetKeepsOnePlace(s, t, dial, c);
    case PutRegion(t) => PutKeepsOnePlace(s, t, c);
    case ClosePool =>
      assert OnePlace(s, c);
      SameHolders(s, s', c);
    case _ => MoveKeepsOnePlace(s, step, s', c);
  }

  ghost predicate PoolInv(s: State) {
    Counters(s) && Places(s)
  }

  lemma NextKeepsInv(s: State, step: Step, s': State)
    requires PoolInv(s) && Next(s, step, s')
    ensures PoolInv(s')
  {
    hide Counters, Next, OnePlace;
    NextKeepsCounters(s, step, s');
    forall c ensures OnePlace(s', c) { NextKeepsOnePlace(s, step, s', c); }
  }

  lemma {:induction false} RunKeepsInv(run: seq<State>, i: nat)
    requires IsRun(run) && i < |run|
    ensures PoolInv(run[i])
  {
    hide PoolInv, Next;
    if i == 0 {
      InitInv(run[0]);
      assert PoolInv(run[0]) by { BothHold(run[0]); }
    } else {
      RunKeepsInv(run, i - 1);
      assert StepAt(run, i - 1);
      var step :| Next(run[i - 1], step, run[i]);
      NextKeepsInv(run[i - 1], step, run[i]);
    }
  }

  lemma BothHold(s: State)
    requires Counters(s) && Places(s)
    ensures PoolInv(s)
  {
  }

  // ---- What Get and Put do ----

  lemma {:induction false} ClosedStays(run: seq<State>, i: nat, j: nat)
    requires IsRun(run) && i <= j < |run| && run[i].closed
    ensures run[j].closed && run[j].idle == []
  {
    hide Next, PoolInv;
    if i < j {
      ClosedStays(run, i, j - 1);
      assert StepAt(run, j - 1);
      var step :| Next(run[j - 1], step, run[j]);
      StepOfClosed(run[j - 1], step, run[j]);
    } else {
      RunKeepsInv(run, i);
      assert Counters(run[i]) by { BothParts(run[i]); }
      hide Busy;
    }
  }

  lemma BothParts(s: State)
    requires PoolInv(s)
    ensures Counters(s) && Places(s)
  {
  }

  lemma StepOfClosed(s: State, step: Step, s': State)
    requires Next(s, step, s') && s.closed && s.idle == []
    ensures s'.closed && s'.idle == [] && s'.dialed == s.dialed
  {
  }

  /** A Get that begins on a closed pool fails without a connection, in every interleaving, and a closed
      pool opens none. */
  lemma {:induction false} ClosedPoolGivesNothing(run: seq<State>, i: nat, j: nat, t: nat)
    requires IsRun(run) && i <= j < |run| && run[i].closed && At(run[i], t, GetStart)
    ensures At(run[j], t, GetStart) || At(run[j], t, GetEnd(false))
    ensures run[j].dialed == run[i].dialed
  {
    hide Next;
    if i < j {
      ClosedPoolGivesNothing(run, i, j - 1, t);
      ClosedStays(run, i, j - 1);
      assert StepAt(run, j - 1);
      var step :| Next(run[j - 1], step, run[j]);
      StepOfClosed(run[j - 1], step, run[j]);
      GetOfClosed(run[j - 1], step, run[j], t);
    }
  }

  lemma GetOfClosed(s: State, step: Step, s': State, t: nat)
    requires Next(s, step, s') && s.closed && (At(s, t, GetStart) || At(s, t, GetEnd(false)))
    ensures At(s', t, GetStart) || At(s', t, GetEnd(false))
  {
  }

  /** A caller comes by a connection only through its own Get: one that was idle and answered the probe,
      or a new one, which is opened only on an open pool with no idle connection and room for it. */
  lemma ObtainedOnlyBy(s: State, step: Step, s': State, c: Conn)
    requires Next(s, step, s') && c !in s.out && c in s'.out
    ensures step.Noop? || step.GetRegion?
    ensures At(s', step.t, GetEnd(true)) && s'.out == s.out + {c}
    ensures step.Noop? ==> step.ok && At(s, step.t, GetProbe(c))
    ensures step.GetRegion? ==> c == s.dialed && !s.closed && s.idle == [] && s.active < s.poolCap
  {
  }

  /** A Get that answers true has given its caller a connection in that step. */
  lemma GetAnswersTrue(s: State, step: Step, s': State, t: nat)
    requires PoolInv(s) && Next(s, step, s') && !At(s, t, GetEnd(true)) && At(s', t, GetEnd(true))
    ensures exists c :: c !in s.out && c in s'.out
  {
    if step.Noop? && step.t == t {
      var c := s.threads[t].conn;
      HeldApart(s, t, c);
      assert c in s'.out;
    } else {
      assert OnePlace(s, s.dialed);
      assert s.dialed in s'.out;
    }
  }

  /** The region of Put: a sound connection goes back to an open pool, every other one is closed. */
  lemma PutPlaces(s: State, t: nat, s': State)
    requires Next(s, PutRegion(t), s')
    ensures var c, ok := s.threads[t].conn, s.threads[t].ok;
            if !s.closed && ok then s'.idle == s.idle + [c] && s'.dead == s.dead
            else s'.idle == s.idle && s'.dead == s.dead + {c}
    ensures s'.active == s.active - 1 && At(s', t, PutEnd)
  {
  }

  /** Closing the pool closes every idle connection. */
  lemma CloseClosesIdle(s: State, s': State)
    requires Next(s, ClosePool, s')
    ensures s'.closed && s'.idle == [] && (forall c | c in s.idle :: c in s'.dead) && s'.out == s.out
  {
  }

  /** What a step closes: a broken connection, one put back to a closed pool or unsound, the idle ones,
      or a new one that was not authorized. */
  ghost predicate ClosesNow(s: State, step: Step, c: Conn) {
    match step
    case CloseBroken(t) => t in s.threads && s.threads[t] == GetBroken(c)
    case PutRegion(t) => t in s.threads && (s.threads[t] == PutReady(c, false) || (s.closed && s.threads[t] == PutReady(c, true)))
    case ClosePool => c in s.idle
    case GetRegion(t, dial) => dial.Unauthorized? && !s.closed && s.idle == [] && s.active < s.poolCap && c == s.dialed
    case _ => false
  }

  /** Exactly those are closed, and no connection is ever closed a second time. */
  lemma ClosesOnce(run: seq<State>, i: nat, step: Step, c: Conn)
    requires IsRun(run) && i + 1 < |run| && Next(run[i], step, run[i + 1])
    ensures ClosesNow(run[i], step, c) ==> c !in run[i].dead
    ensures c in run[i + 1].dead <==> c in run[i].dead || ClosesNow(run[i], step, c)
  {
    RunKeepsInv(run, i);
    assert OnePlace(run[i], c);
    hide IsRun, Counters, Places;
    if step.CloseBroken? || step.PutRegion? {
      if Holds(run[i].threads[step.t], c) { assert Held(run[i], c); }
    }
  }

  /** The pool works: with room for one, some run gives a caller a connection. */
  lemma SomeRunGets(poolCap: nat) returns (run: seq<State>)
    requires poolCap > 0
    ensures IsRun(run) && |run| == 3 && run[0].poolCap == poolCap && run[2].out == {0} && At(run[2], 0, GetEnd(true))
  {
    var s := State(poolCap, false, [], 0, map[], 0, {}, {}, false);
    var s' := Goto(s, 0, GetStart);
    var s'' := GetNext(s', 0, Connected);
    run := [s, s', s''];
    assert Next(s, StartGet(0), s') && Next(s', GetRegion(0, Connected), s'');
    assert StepAt(run, 0) && StepAt(run, 1);
  }

  // ---- Conservation ----

  /** Connections that were opened and never closed. */
  function Live(s: State): set<Conn> {
    set c: Conn | c < s.dialed && c !in s.dead
  }

  /** In every reachable state the counter is right, no connection was closed twice, and there are
      never more live connections than the pool's capacity. */
  lemma PoolConserves(run: seq<State>, i: nat)
    requires IsRun(run) && i < |run|
    ensures var s := run[i];
            && s.active == |s.out| + |Busy(s)|
            && s.active + |s.idle| <= s.poolCap
            && |Live(s)| <= s.poolCap
            && !s.closedTwice
  {
    hide IsRun;
    RunKeepsInv(run, i);
    LiveBound(run[i]);
  }

  /** Once the pool is closed, every client is back and no thread is probing one, every
      connection that was ever opened has been closed. */
  lemma ClosedPoolLeaksNothing(run: seq<State>, i: nat, c: Conn)
    requires IsRun(run) && i < |run|
    requires run[i].closed && run[i].out == {} && Busy(run[i]) == {} && c < run[i].dialed
    ensures c in run[i].dead
  {
    hide IsRun;
    RunKeepsInv(run, i);
    assert OnePlace(run[i], c);
    NobodyHolds(run[i], c);
  }

  lemma NobodyHolds(s: State, c: Conn)
    requires Busy(s) == {}
    ensures !Held(s, c)
  {
    forall t | t in s.threads ensures !Holds(s.threads[t], c) {
      assert Counted(s.threads[t]) <==> t in Busy(s);
    }
  }

  ghost function HolderOf(s: State, c: Conn): nat
    requires Held(s, c)
  {
    var t: nat :| t in s.threads && Holds(s.threads[t], c);
    t
  }

  lemma LiveBound(s: State)
    requires PoolInv(s)
    ensures |Live(s)| <= |s.out| + |Busy(s)| + |s.idle|
  {
    var held := set c | c in Live(s) && Held(s, c);
    assert Live(s) <= Elements(s.idle) + s.out + held by {
      forall c | c in Live(s) ensures c in Elements(s.idle) + s.out + held { assert OnePlace(s, c); }
    }
    hide Places, Held;
    SubsetSize(Live(s), Elements(s.idle) + s.out + held);
    ElementsSize(s.idle);
    HeldSize(s, held, Busy(s));
  }

  lemma {:induction false} HeldSize(s: State, held: set<Conn>, holders: set<nat>)
    requires forall c | c in held :: Held(s, c) && HolderOf(s, c) in holders
    ensures |held| <= |holders|
    decreases held
  {
    if held != {} {
      var c :| c in held;
      var t := HolderOf(s, c);
      forall d | d in held - {c} ensures HolderOf(s, d) != t {
        assert Holds(s.threads[HolderOf(s, d)], d) && Holds(s.threads[t], c);
      }
      HeldSize(s, held - {c}, holders - {t});
    }
  }

  lemma {:induction false} ElementsSize(conns: seq<Conn>)
    ensures |Elements(conns)| <= |conns|
  {
    if conns != [] {
      ElementsSize(conns[1..]);
      assert Elements(conns) == {conns[0]} + Elements(conns[1..]);
    }
  }

  lemma {:induction false} SubsetSize(part: set<Conn>, whole: set<Conn>)
    requires part <= whole
    ensures |part| <= |whole|
  {
    assert whole == part + (whole - part);
  }
}
