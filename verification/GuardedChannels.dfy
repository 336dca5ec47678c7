/** The send/close protocol of the client channel and of the hub's broadcast channel: a wait
    group counts the senders, a flag turns new ones away, and the closer waits for the group
    before it closes the channel. Any number of threads; one step is one atomic operation. */
module GuardedChannels {

  type Message = nat

  const CAPACITY := 128

  /** Where a thread stands. The first group is Send (or Broadcast), the second is Close. */
  datatype Pc =
    | SendStart(msg: Message)
    | SendCounted(msg: Message)      // after wg.Add
    | SendAllowed(msg: Message)      // the closed-check passed
    | SendLeaving(sent: bool)        // before wg.Done
    | SendEnd(sent: bool)
    | CloseStart
    | CloseExit                      // won the compare-and-swap
    | CloseWait                      // closed the exit channel, waits for the group
    | CloseChannel
    | CloseEnd(won: bool)

  predicate Counted(pc: Pc) {
    pc.SendCounted? || pc.SendAllowed? || pc.SendLeaving?
  }

  predicate Closing(pc: Pc) {
    pc.CloseExit? || pc.CloseWait? || pc.CloseChannel?
  }

  /** `hasExit` tells the hub, whose blocked senders give up once the exit channel is closed,
      from the client, which has no such channel. `reading` says whether the one goroutine that
      receives is still at it. The last four fields record what a Go run would have panicked on
      (a send on the closed channel, a nil message that the hub looks into), and what went
      through the channel. */
  datatype State = State(
    hasExit: bool,
    closedFlag: bool,
    waitGroup: int,
    exitCloses: nat,
    channelCloses: nat,
    queue: seq<Message>,
    threads: map<nat, Pc>,
    reading: bool,
    sendsOnClosed: nat,
    nilsTaken: nat,
    accepted: seq<Message>,
    received: seq<Message>)

  datatype Step = Spawn(t: nat, pc: Pc) | Advance(t: nat) | GiveUp(t: nat) | Receive | ReceiveNothing | StopReading

  ghost predicate Init(s: State) {
    && !s.closedFlag && s.waitGroup == 0 && s.exitCloses == 0 && s.channelCloses == 0
    && s.queue == [] && s.threads == map[] && s.reading && s.sendsOnClosed == 0 && s.nilsTaken == 0
    && s.accepted == [] && s.received == []
  }

  function Goto(s: State, t: nat, pc: Pc): State {
    s.(threads := s.threads[t := pc])
  }

  /** The next atomic operation of a thread in Send, if it is enabled. */
  ghost predicate SendStep(s: State, t: nat, s': State)
    requires t in s.threads
  {
    match s.threads[t]
    case SendStart(m) => s' == Goto(s, t, SendCounted(m)).(waitGroup := s.waitGroup + 1)
    case SendCounted(m) => s' == Goto(s, t, if s.closedFlag then SendLeaving(false) else SendAllowed(m))
    case SendAllowed(m) =>
      if s.channelCloses > 0 then s' == Goto(s, t, SendLeaving(false)).(sendsOnClosed := s.sendsOnClosed + 1)
      else
        && |s.queue| < CAPACITY
        && s' == Goto(s, t, SendLeaving(true)).(queue := s.queue + [m], accepted := s.accepted + [m])
    case SendLeaving(sent) => s' == Goto(s, t, SendEnd(sent)).(waitGroup := s.waitGroup - 1)
    case _ => false
  }

  /** The next atomic operation of a thread in Close, if it is enabled. */
  ghost predicate CloseStep(s: State, t: nat, s': State)
    requires t in s.threads
  {
    match s.threads[t]
    case CloseStart =>
      s' == if s.closedFlag then Goto(s, t, CloseEnd(false)) else Goto(s, t, CloseExit).(closedFlag := true)
    case CloseExit =>
      s' == Goto(s, t, CloseWait).(exitCloses := if s.hasExit then s.exitCloses + 1 else s.exitCloses)
    case CloseWait => s.waitGroup == 0 && s' == Goto(s, t, CloseChannel)
    case CloseChannel => s' == Goto(s, t, CloseEnd(true)).(channelCloses := s.channelCloses + 1)
    case _ => false
  }

  ghost predicate AdvanceStep(s: State, t: nat, s': State)
    requires t in s.threads
  {
    SendStep(s, t, s') || CloseStep(s, t, s')
  }

  ghost predicate Next(s: State, step: Step, s': State) {
    match step
    case Spawn(t, pc) => t !in s.threads && (pc.SendStart? || pc.CloseStart?) && s' == Goto(s, t, pc)
    case Advance(t) => t in s.threads && AdvanceStep(s, t, s')
    case GiveUp(t) =>
      && t in s.threads && s.threads[t].SendAllowed? && s.exitCloses > 0
      && s' == Goto(s, t, SendLeaving(false))
    case Receive =>
      s.reading && s.queue != [] && s' == s.(queue := s.queue[1..], received := s.received + [s.queue[0]])
    // A closed and drained channel yields nil: the client's loop over it ends, the hub's select goes on.
    case ReceiveNothing =>
      && s.reading && s.queue == [] && s.channelCloses > 0
      && s' == if s.hasExit then s.(nilsTaken := s.nilsTaken + 1) else s.(reading := false)
    // The hub stops on the closed exit channel, the client's loop also when a write fails.
    case StopReading => s.reading && (s.hasExit ==> s.exitCloses > 0) && s' == s.(reading := false)
  }

  ghost predicate IsRun(run: seq<State>) {
    && run != [] && Init(run[0])
    && forall i | 0 <= i < |run| - 1 :: StepAt(run, i)
  }

  ghost predicate StepAt(run: seq<State>, i: nat)
    requires i + 1 < |run|
  {
    CanStep(run[i], run[i + 1])
  }

  ghost predicate CanStep(s: State, s': State) {
    exists step :: Next(s, step, s')
  }

  // ---- The invariant ----

  ghost function Group(s: State): set<nat> {
    set t | t in s.threads && Counted(s.threads[t])
  }

  ghost predicate GroupCounts(s: State) {
    s.waitGroup == |Group(s)|
  }

  /** At most one closer gets past the flag. */
  ghost predicate OneCloser(s: State) {
    && (forall t | t in s.threads && Closing(s.threads[t]) :: s.closedFlag && s.channelCloses == 0)
    && (forall t, u | t in s.threads && u in s.threads && Closing(s.threads[t]) && Closing(s.threads[u]) :: t == u)
  }

  /** What has been closed follows from where the closer stands. */
  ghost predicate CloserProgress(s: State) {
    && (forall t | t in s.threads && Closing(s.threads[t]) ::
          s.exitCloses == if s.hasExit && !s.threads[t].CloseExit? then 1 else 0)
    && (s.channelCloses > 0 ==> s.closedFlag && s.channelCloses == 1 && s.exitCloses == if s.hasExit then 1 else 0)
    && (!s.closedFlag || !s.hasExit ==> s.exitCloses == 0)
    && s.exitCloses <= 1
  }

  /** Once the closer has seen the group empty, nobody stands between a passed check and Done. */
  ghost predicate NobodyAllowed(s: State) {
    s.channelCloses > 0 || (exists t :: t in s.threads && s.threads[t].CloseChannel?) ==>
      forall u | u in s.threads :: !s.threads[u].SendAllowed?
  }

  ghost predicate Inv(s: State) {
    && GroupCounts(s) && OneCloser(s) && CloserProgress(s) && NobodyAllowed(s)
    && s.sendsOnClosed == 0 && (s.nilsTaken > 0 ==> s.hasExit && s.channelCloses > 0)
    && s.accepted == s.received + s.queue && |s.queue| <= CAPACITY
  }

  lemma GroupChanges(s: State, t: nat, pc: Pc)
    ensures var old_ := t in s.threads && Counted(s.threads[t]);
            var new_ := Counted(pc);
            |Group(Goto(s, t, pc))| == |Group(s)| + (if new_ then 1 else 0) - (if old_ then 1 else 0)
  {
    var g, g' := Group(s), Group(Goto(s, t, pc));
    assert g' - {t} == g - {t};
    assert t in g <==> t in s.threads && Counted(s.threads[t]);
    assert t in g' <==> Counted(pc);
    assert |g| == |g - {t}| + if t in g then 1 else 0;
    assert |g'| == |g' - {t}| + if t in g' then 1 else 0;
  }

  lemma EmptyGroup(s: State)
    requires |Group(s)| == 0
    ensures forall t | t in s.threads :: !Counted(s.threads[t])
  {
    forall t | t in s.threads
      ensures !Counted(s.threads[t])
    {
      assert t !in Group(s);
    }
  }

  /** What a sender leaves alone. */
  lemma SendLeaves(s: State, t: nat, s': State)
    requires t in s.threads && SendStep(s, t, s')
    ensures t in s'.threads && s'.threads == s.threads[t := s'.threads[t]]
    ensures !Closing(s.threads[t]) && !Closing(s'.threads[t])
    ensures s'.closedFlag == s.closedFlag && s'.channelCloses == s.channelCloses && s'.exitCloses == s.exitCloses
    ensures s'.hasExit == s.hasExit && s'.reading == s.reading && s'.nilsTaken == s.nilsTaken && s'.received == s.received
    ensures s'.waitGroup == s.waitGroup + (if Counted(s'.threads[t]) then 1 else 0) - (if Counted(s.threads[t]) then 1 else 0)
    ensures s'.threads[t].SendAllowed? ==> s.threads[t].SendCounted? && !s.closedFlag
  {
  }

  /** What a closer leaves alone. */
  lemma CloseLeaves(s: State, t: nat, s': State)
    requires t in s.threads && CloseStep(s, t, s')
    ensures t in s'.threads && s'.threads == s.threads[t := s'.threads[t]]
    ensures !Counted(s.threads[t]) && !Counted(s'.threads[t]) && s'.waitGroup == s.waitGroup
    ensures s'.queue == s.queue && s'.accepted == s.accepted && s'.received == s.received
    ensures s'.hasExit == s.hasExit && s'.reading == s.reading
    ensures s'.sendsOnClosed == s.sendsOnClosed && s'.nilsTaken == s.nilsTaken && s.channelCloses <= s'.channelCloses
  {
  }

  lemma AdvanceKeepsCounts(s: State, t: nat, s': State)
    requires GroupCounts(s) && t in s.threads && AdvanceStep(s, t, s')
    ensures GroupCounts(s')
  {
    if SendStep(s, t, s') { SendLeaves(s, t, s'); } else { CloseLeaves(s, t, s'); }
    hide AdvanceStep, SendStep, CloseStep;
    GroupChanges(s, t, s'.threads[t]);
    assert Group(s') == Group(Goto(s, t, s'.threads[t]));
  }

  lemma AdvanceKeepsOneCloser(s: State, t: nat, s': State)
    requires OneCloser(s) && CloserProgress(s) && t in s.threads && AdvanceStep(s, t, s')
    ensures OneCloser(s')
  {
    if SendStep(s, t, s') {
      SendLeaves(s, t, s');
      hide AdvanceStep, SendStep, CloserProgress;
    } else {
      hide SendStep;
      if Closing(s'.threads[t]) && !Closing(s.threads[t]) {
        assert forall u | u in s.threads :: !Closing(s.threads[u]);
      }
    }
  }

  lemma AdvanceKeepsProgress(s: State, t: nat, s': State)
    requires OneCloser(s) && CloserProgress(s) && t in s.threads && AdvanceStep(s, t, s')
    ensures CloserProgress(s')
  {
    if SendStep(s, t, s') {
      SendLeaves(s, t, s');
      hide AdvanceStep, SendStep, OneCloser;
    } else {
      hide SendStep;
      assert Closing(s.threads[t]) ==> forall u | u in s'.threads && Closing(s'.threads[u]) :: u == t;
    }
  }

  /** The closer leaves its wait only when nobody is counted. */
  lemma WaitKeepsNobody(s: State, t: nat, s': State)
    requires GroupCounts(s) && t in s.threads && s.threads[t].CloseWait? && AdvanceStep(s, t, s')
    ensures NobodyAllowed(s')
  {
    assert |Group(s)| == 0 by { CountIsGroup(s); }
    EmptyGroup(s);
    hide GroupCounts;
  }

  lemma AdvanceKeepsNobody(s: State, t: nat, s': State)
    requires GroupCounts(s) && OneCloser(s) && CloserProgress(s) && NobodyAllowed(s)
    requires t in s.threads && AdvanceStep(s, t, s')
    ensures NobodyAllowed(s')
  {
    hide GroupCounts, OneCloser, CloserProgress, NobodyAllowed, AdvanceStep, SendStep, CloseStep;
    if s.threads[t].CloseWait? {
      WaitKeepsNobody(s, t, s');
    } else if SendStep(s, t, s') {
      SendKeepsNobody(s, t, s');
    } else {
      CloseKeepsNobody(s, t, s') by { StepsAreTwo(s, t, s'); }
    }
  }

  lemma StepsAreTwo(s: State, t: nat, s': State)
    requires t in s.threads && AdvanceStep(s, t, s')
    ensures SendStep(s, t, s') || CloseStep(s, t, s')
  {
  }

  lemma CloseKeepsNobody(s: State, t: nat, s': State)
    requires NobodyAllowed(s) && t in s.threads && CloseStep(s, t, s') && !s.threads[t].CloseWait?
    ensures NobodyAllowed(s')
  {
    assert forall u | u in s'.threads && u != t :: u in s.threads && s'.threads[u] == s.threads[u];
  }

  /** A sender passes its check only while nobody has seen the group empty. */
  lemma SendKeepsNobody(s: State, t: nat, s': State)
    requires OneCloser(s) && CloserProgress(s) && NobodyAllowed(s)
    requires t in s.threads && SendStep(s, t, s')
    ensures NobodyAllowed(s')
  {
    SendLeaves(s, t, s');
    hide SendStep;
    assert forall u | u in s'.threads && u != t :: u in s.threads && s'.threads[u] == s.threads[u];
  }

  lemma CountIsGroup(s: State)
    requires GroupCounts(s)
    ensures s.waitGroup == |Group(s)|
  {
  }

  /** Senders accept in order, and nobody sends on a closed channel. */
  lemma SendKeepsOrder(s: State, t: nat, s': State)
    requires Inv(s) && t in s.threads && SendStep(s, t, s')
    ensures s'.sendsOnClosed == 0 && s'.accepted == s'.received + s'.queue && |s'.queue| <= CAPACITY
  {
    assert s.threads[t].SendAllowed? ==> s.channelCloses == 0;
    hide GroupCounts, OneCloser, CloserProgress, NobodyAllowed;
  }

  lemma AdvanceKeepsInv(s: State, t: nat, s': State)
    requires Inv(s) && t in s.threads && AdvanceStep(s, t, s')
    ensures Inv(s')
  {
    AdvanceKeepsCounts(s, t, s');
    AdvanceKeepsOneCloser(s, t, s');
    AdvanceKeepsProgress(s, t, s');
    AdvanceKeepsNobody(s, t, s');
    hide GroupCounts, OneCloser, CloserProgress, NobodyAllowed;
    if SendStep(s, t, s') {
      SendLeaves(s, t, s');
      SendKeepsOrder(s, t, s');
      hide AdvanceStep, SendStep, CloseStep;
    } else {
      CloseLeaves(s, t, s');
      hide AdvanceStep, SendStep, CloseStep;
    }
  }

  lemma NextKeepsInv(s: State, step: Step, s': State)
    requires Inv(s) && Next(s, step, s')
    ensures Inv(s')
  {
    match step
    case Spawn(t, pc) => GroupChanges(s, t, pc);
    case Advance(t) => AdvanceKeepsInv(s, t, s');
    case GiveUp(t) => GroupChanges(s, t, SendLeaving(false));
    case Receive => assert Group(s') == Group(s);
    case ReceiveNothing => assert Group(s') == Group(s);
    case StopReading => assert Group(s') == Group(s);
  }

  lemma {:induction false} RunKeepsInv(run: seq<State>, i: nat)
    requires IsRun(run) && i < |run|
    ensures Inv(run[i])
  {
    if i == 0 {
      assert Group(run[0]) == {};
    } else {
      RunKeepsInv(run, i - 1);
      assert StepAt(run, i - 1);
      var step :| Next(run[i - 1], step, run[i]);
      NextKeepsInv(run[i - 1], step, run[i]);
    }
  }

  // ---- The results ----

  /** In every interleaving nobody sends on the closed channel, every channel is closed at most
      once, at most one closer wins, and the messages come out in the order they went in. */
  lemma ChannelSafety(run: seq<State>, i: nat)
    requires IsRun(run) && i < |run|
    ensures var s := run[i];
            && s.sendsOnClosed == 0 && s.channelCloses <= 1 && s.exitCloses <= 1
            && (s.channelCloses > 0 ==> forall t | t in s.threads :: !s.threads[t].SendAllowed?)
            && s.received <= s.accepted && s.queue == s.accepted[|s.received|..] && |s.queue| <= 128
  {
    RunKeepsInv(run, i);
  }

  /** After the channel is closed no message is accepted any more. */
  lemma ClosedAcceptsNothing(run: seq<State>, i: nat)
    requires IsRun(run) && i + 1 < |run| && run[i].channelCloses > 0
    ensures run[i + 1].accepted == run[i].accepted && run[i + 1].channelCloses > 0
  {
    RunKeepsInv(run, i);
    assert StepAt(run, i);
    var step :| Next(run[i], step, run[i + 1]);
  }

  // ---- Runs that go on ----

  function Last(run: seq<State>): State
    requires |run| > 0
  {
    run[|run| - 1]
  }

  lemma Append(run: seq<State>, step: Step, s': State) returns (longer: seq<State>)
    requires IsRun(run) && Next(Last(run), step, s')
    ensures longer == run + [s'] && IsRun(longer) && run <= longer
  {
    longer := run + [s'];
    forall i | 0 <= i < |longer| - 1 ensures StepAt(longer, i) {
      if i < |run| - 1 { assert StepAt(run, i); }
    }
  }

  // ---- What a Send answers ----

  /** The thread puts its message into the channel in the step from run[k] on. */
  ghost predicate Queues(run: seq<State>, k: nat, t: nat, m: Message)
    requires k + 1 < |run|
  {
    && t in run[k].threads && run[k].threads[t] == SendAllowed(m)
    && t in run[k + 1].threads && run[k + 1].threads[t] == SendLeaving(true)
    && run[k + 1].accepted == run[k].accepted + [m]
  }

  ghost predicate QueuedBy(run: seq<State>, i: nat, j: nat, t: nat, m: Message)
    requires i <= j < |run|
  {
    exists k :: i <= k < j && Queues(run, k, t, m)
  }

  predicate AnswersTrue(pc: Pc) {
    pc == SendLeaving(true) || pc == SendEnd(true)
  }

  predicate AnswersFalse(pc: Pc) {
    pc == SendLeaving(false) || pc == SendEnd(false)
  }

  /** Where a Send of this message may stand. */
  predicate Sending(pc: Pc, m: Message) {
    pc == SendStart(m) || pc == SendCounted(m) || pc == SendAllowed(m) || AnswersTrue(pc) || AnswersFalse(pc)
  }

  /** How one thread moves on, and what that means for flag, channel and accepted messages. */
  ghost predicate MovesOn(s: State, pc: Pc, pc': Pc, s': State) {
    match pc
    case SendStart(m) => pc' == SendCounted(m) && SameOutside(s, s')
    case SendCounted(m) => pc' == (if s.closedFlag then SendLeaving(false) else SendAllowed(m)) && SameOutside(s, s')
    case SendAllowed(m) =>
      || (pc' == SendLeaving(false) && s.closedFlag && SameOutside(s, s'))
      || (pc' == SendLeaving(true) && SameOutside(s.(accepted := s.accepted + [m]), s'))
    case SendLeaving(sent) => pc' == SendEnd(sent) && SameOutside(s, s')
    case CloseStart =>
      pc' == (if s.closedFlag then CloseEnd(false) else CloseExit) && SameOutside(s.(closedFlag := true), s')
    case CloseExit => pc' == CloseWait && SameOutside(s, s')
    case CloseWait => pc' == CloseChannel && SameOutside(s, s')
    case CloseChannel => pc' == CloseEnd(true) && SameOutside(s.(channelCloses := s.channelCloses + 1), s')
    case SendEnd(_) => false
    case CloseEnd(_) => false
  }

  ghost predicate SameOutside(s: State, s': State) {
    s'.closedFlag == s.closedFlag && s'.channelCloses == s.channelCloses && s'.accepted == s.accepted
  }

  /** The thread that a step moves. */
  function Mover(step: Step): set<nat> {
    if step.Spawn? || step.Advance? || step.GiveUp? then {step.t} else {}
  }

  /** A step moves at most one thread. */
  ghost predicate Moved(s: State, step: Step, s': State) {
    if Mover(step) == {} then s'.threads == s.threads && SameOutside(s, s')
    else
      && step.t in s'.threads && s'.threads == s.threads[step.t := s'.threads[step.t]]
      && if step.t in s.threads then MovesOn(s, s.threads[step.t], s'.threads[step.t], s')
         else SameOutside(s, s') && (s'.threads[step.t].SendStart? || s'.threads[step.t].CloseStart?)
  }

  lemma SendIsMove(s: State, t: nat, s': State)
    requires t in s.threads && SendStep(s, t, s') && (s.threads[t].SendAllowed? ==> s.channelCloses == 0)
    ensures t in s'.threads && MovesOn(s, s.threads[t], s'.threads[t], s')
  {
  }

  lemma CloseIsMove(s: State, t: nat, s': State)
    requires t in s.threads && CloseStep(s, t, s')
    ensures t in s'.threads && MovesOn(s, s.threads[t], s'.threads[t], s')
  {
  }

  lemma NextMoves(s: State, step: Step, s': State)
    requires Inv(s) && Next(s, step, s')
    ensures Moved(s, step, s')
  {
    if step.Advance? {
      assert s.threads[step.t].SendAllowed? ==> s.channelCloses == 0;
      hide Inv, MovesOn;
      if SendStep(s, step.t, s') {
        SendIsMove(s, step.t, s');
        SendLeaves(s, step.t, s');
      } else {
        CloseIsMove(s, step.t, s');
        CloseLeaves(s, step.t, s');
      }
      hide SendStep, CloseStep;
    } else {
      assert s.exitCloses > 0 ==> s.closedFlag;
      hide Inv, AdvanceStep;
    }
  }

  /** One step of a Send, by itself or by another thread. */
  lemma SendMoves(s: State, step: Step, s': State, t: nat, m: Message)
    requires Moved(s, step, s') && t in s.threads && Sending(s.threads[t], m)
    ensures t in s'.threads && Sending(s'.threads[t], m)
    ensures AnswersTrue(s'.threads[t]) ==>
              || AnswersTrue(s.threads[t])
              || (s.threads[t] == SendAllowed(m) && s'.threads[t] == SendLeaving(true) && s'.accepted == s.accepted + [m])
    ensures AnswersTrue(s.threads[t]) ==> AnswersTrue(s'.threads[t])
  {
  }

  /** A Send answers true if and only if it has put the message that it was called with into the
      channel, in every interleaving. */
  lemma {:induction false} SendAnswersIff(run: seq<State>, i: nat, j: nat, t: nat, m: Message)
    requires IsRun(run) && i <= j < |run| && t in run[i].threads && run[i].threads[t] == SendStart(m)
    ensures t in run[j].threads && Sending(run[j].threads[t], m)
    ensures AnswersTrue(run[j].threads[t]) <==> QueuedBy(run, i, j, t, m)
  {
    hide Inv, Next;
    if i < j {
      SendAnswersIff(run, i, j - 1, t, m);
      RunKeepsInv(run, j - 1);
      assert StepAt(run, j - 1);
      var step :| Next(run[j - 1], step, run[j]);
      NextMoves(run[j - 1], step, run[j]);
      SendMoves(run[j - 1], step, run[j], t, m);
      hide Moved;
      if QueuedBy(run, i, j - 1, t, m) {
        var k :| i <= k < j - 1 && Queues(run, k, t, m);
        assert QueuedBy(run, i, j, t, m);
      } else if AnswersTrue(run[j].threads[t]) {
        assert Queues(run, j - 1, t, m);
      }
    }
  }

  /** Nothing gets into the channel in any other way. */
  lemma AcceptsOnly(run: seq<State>, i: nat, step: Step)
    requires IsRun(run) && i + 1 < |run| && Next(run[i], step, run[i + 1]) && run[i + 1].accepted != run[i].accepted
    ensures step.Advance? && step.t in run[i].threads && run[i].threads[step.t].SendAllowed?
    ensures Queues(run, i, step.t, run[i].threads[step.t].msg)
    ensures run[i + 1].accepted == run[i].accepted + [run[i].threads[step.t].msg]
    ensures run[i + 1].threads == run[i].threads[step.t := SendLeaving(true)]
  {
    RunKeepsInv(run, i);
    NextMoves(run[i], step, run[i + 1]);
    hide Inv, IsRun;
    if step.GiveUp? { GivesUpNothing(run[i], step, run[i + 1]); }
    hide Next;
  }

  lemma GivesUpNothing(s: State, step: Step, s': State)
    requires Next(s, step, s') && step.GiveUp?
    ensures s'.accepted == s.accepted
  {
  }

  ghost function Answering(s: State): set<nat> {
    set t | t in s.threads && AnswersTrue(s.threads[t])
  }

  /** A Send is refused only once a Close has begun. */
  ghost predicate RefusedIfClosed(s: State) {
    forall t | t in s.threads && AnswersFalse(s.threads[t]) :: s.closedFlag
  }

  /** Who comes to answer true, and what that does to the channel. */
  lemma AnswerMoves(s: State, step: Step, s': State)
    requires Moved(s, step, s')
    ensures var was := Mover(step) != {} && step.t in s.threads && AnswersTrue(s.threads[step.t]);
            var now := Mover(step) != {} && AnswersTrue(s'.threads[step.t]);
            (was ==> now) && |s'.accepted| == |s.accepted| + if now && !was then 1 else 0
    ensures forall t | t in s'.threads && t !in Mover(step) :: t in s.threads && s'.threads[t] == s.threads[t]
    ensures forall t | t in s.threads && t !in Mover(step) :: t in s'.threads
  {
  }

  lemma NextKeepsAnswering(s: State, step: Step, s': State)
    requires Moved(s, step, s') && |Answering(s)| == |s.accepted|
    ensures |Answering(s')| == |s'.accepted|
  {
    AnswerMoves(s, step, s');
    var joins := Mover(step) != {} && AnswersTrue(s'.threads[step.t])
                 && !(step.t in s.threads && AnswersTrue(s.threads[step.t]));
    hide Moved, AnswersTrue;
    assert Answering(s') == if joins then Answering(s) + {step.t} else Answering(s);
  }

  lemma NextKeepsRefusals(s: State, step: Step, s': State)
    requires Moved(s, step, s') && RefusedIfClosed(s)
    ensures RefusedIfClosed(s')
  {
    AnswerMoves(s, step, s');
    FlagStays(s, step, s');
    if Mover(step) != {} && AnswersFalse(s'.threads[step.t]) {
      assert s'.closedFlag;
    }
    hide Moved, MovesOn;
  }

  lemma FlagStays(s: State, step: Step, s': State)
    requires Moved(s, step, s')
    ensures s.closedFlag ==> s'.closedFlag
  {
  }

  /** In every run as many Sends answer true as messages went into the channel, and a Send answers
      false only once a Close has begun. */
  lemma {:induction false} AnswersCount(run: seq<State>, i: nat)
    requires IsRun(run) && i < |run|
    ensures |Answering(run[i])| == |run[i].accepted| && RefusedIfClosed(run[i])
  {
    hide Inv, Next;
    if i == 0 {
      assert Answering(run[0]) == {};
    } else {
      AnswersCount(run, i - 1);
      RunKeepsInv(run, i - 1);
      assert StepAt(run, i - 1);
      var step :| Next(run[i - 1], step, run[i]);
      NextMoves(run[i - 1], step, run[i]);
      NextKeepsAnswering(run[i - 1], step, run[i]);
      NextKeepsRefusals(run[i - 1], step, run[i]);
    }
  }

  // ---- What a Close answers ----

  /** The thread has won the race to close, and whether it is through. */
  predicate Winner(pc: Pc) {
    Closing(pc) || pc == CloseEnd(true)
  }

  ghost predicate OneWinner(s: State) {
    && (forall t, u | t in s.threads && u in s.threads && Winner(s.threads[t]) && Winner(s.threads[u]) :: t == u)
    && (s.closedFlag <==> exists t :: t in s.threads && Winner(s.threads[t]))
  }

  /** A Close answers only what has happened. */
  ghost predicate CloseAnswers(s: State) {
    forall t | t in s.threads ::
      && (s.threads[t] == CloseEnd(true) ==> s.channelCloses > 0)
      && (s.threads[t] == CloseEnd(false) ==> s.closedFlag)
  }

  /** Who comes to be the winner. */
  lemma WinnerMoves(s: State, step: Step, s': State)
    requires Moved(s, step, s')
    ensures forall t | t in s'.threads && t !in Mover(step) :: t in s.threads && s'.threads[t] == s.threads[t]
    ensures forall t | t in s.threads :: t in s'.threads
    ensures var was := Mover(step) != {} && step.t in s.threads && Winner(s.threads[step.t]);
            var now := Mover(step) != {} && step.t in s'.threads && Winner(s'.threads[step.t]);
            (was ==> now) && (s'.closedFlag <==> s.closedFlag || (now && !was)) && (now && !was ==> !s.closedFlag)
  {
  }

  lemma NextKeepsOneWinner(s: State, step: Step, s': State)
    requires OneWinner(s) && Moved(s, step, s')
    ensures OneWinner(s')
  {
    WinnerMoves(s, step, s');
    hide Moved, Winner;
    if w :| w in s.threads && Winner(s.threads[w]) {
      assert w in s'.threads && Winner(s'.threads[w]);
    }
  }

  lemma NextKeepsCloseAnswers(s: State, step: Step, s': State)
    requires CloseAnswers(s) && Moved(s, step, s')
    ensures CloseAnswers(s')
  {
  }

  lemma {:induction false} RunKeepsWinner(run: seq<State>, i: nat)
    requires IsRun(run) && i < |run|
    ensures OneWinner(run[i]) && CloseAnswers(run[i])
  {
    hide Inv, Next, OneWinner, CloseAnswers;
    if i == 0 {
      NobodyWins(run[0]);
    } else {
      RunKeepsWinner(run, i - 1);
      RunKeepsInv(run, i - 1);
      assert StepAt(run, i - 1);
      var step :| Next(run[i - 1], step, run[i]);
      NextMoves(run[i - 1], step, run[i]);
      NextKeepsOneWinner(run[i - 1], step, run[i]);
      NextKeepsCloseAnswers(run[i - 1], step, run[i]);
    }
  }

  /** In every run at most one Close answers that it closed, and only when the channel is closed; the
      others answer that someone else did only once the flag is set, which is set exactly if some Close
      has got past it. */
  lemma OneCloseWins(run: seq<State>, i: nat, t: nat, u: nat)
    requires IsRun(run) && i < |run|
    ensures var threads := run[i].threads;
            && (t in threads && u in threads && threads[t] == threads[u] == CloseEnd(true) ==> t == u)
            && (t in threads && threads[t] == CloseEnd(true) ==> run[i].channelCloses == 1)
            && (t in threads && threads[t] == CloseEnd(false) ==> run[i].closedFlag)
            && (run[i].closedFlag <==>
                  exists w :: w in threads && (threads[w].CloseExit? || threads[w].CloseWait? || threads[w].CloseChannel?
                                               || threads[w] == CloseEnd(true)))
  {
    RunKeepsWinner(run, i);
    RunKeepsInv(run, i);
    hide IsRun;
    if w :| w in run[i].threads && Winner(run[i].threads[w]) {
      assert w in run[i].threads;
    }
  }

  lemma NobodyWins(s: State)
    requires Init(s)
    ensures OneWinner(s) && CloseAnswers(s)
  {
  }

  // ---- Whether a Close gets through ----

  ghost predicate CanClose(run: seq<State>)
    requires |run| > 0
  {
    exists longer: seq<State> :: run <= longer && IsRun(longer) && Last(longer).channelCloses > 0
  }

  /** The Sends that have passed the check and have not put their message into the channel. */
  ghost function Waiting(s: State): set<nat> {
    set t | t in s.threads && s.threads[t].SendAllowed?
  }

  /** They can give up, or somebody makes room for them, or there is room for all of them. */
  ghost predicate Unstuck(s: State) {
    s.hasExit || s.reading || |s.queue| + |Waiting(s)| <= CAPACITY
  }

  /** One thread has moved, and nobody has closed or stopped anything. */
  ghost predicate OnlyMoved(s: State, s': State, t: nat, pc: Pc) {
    && s'.threads == s.threads[t := pc]
    && s'.hasExit == s.hasExit && s'.closedFlag == s.closedFlag && s'.exitCloses == s.exitCloses
    && s'.channelCloses == s.channelCloses && s'.reading == s.reading
  }

  lemma LeavingFinishes(run: seq<State>, t: nat, sent: bool) returns (longer: seq<State>)
    requires IsRun(run) && t in Last(run).threads && Last(run).threads[t] == SendLeaving(sent)
    ensures run <= longer && IsRun(longer) && OnlyMoved(Last(run), Last(longer), t, SendEnd(sent))
    ensures Last(longer).queue == Last(run).queue
  {
    var s := Last(run);
    hide IsRun;
    longer := Append(run, Advance(t), Goto(s, t, SendEnd(sent)).(waitGroup := s.waitGroup - 1));
  }

  /** A sender that was counted too late for its check. */
  lemma CountedFinishes(run: seq<State>, t: nat) returns (longer: seq<State>)
    requires IsRun(run) && t in Last(run).threads && Last(run).threads[t].SendCounted? && Last(run).closedFlag
    ensures run <= longer && IsRun(longer) && OnlyMoved(Last(run), Last(longer), t, SendEnd(false))
    ensures Last(longer).queue == Last(run).queue
  {
    var s := Last(run);
    hide IsRun;
    longer := Append(run, Advance(t), Goto(s, t, SendLeaving(false)));
    longer := LeavingFinishes(longer, t, false);
  }

  /** A sender of the hub gives up once the exit channel is closed. */
  lemma GivesUp(run: seq<State>, t: nat) returns (longer: seq<State>)
    requires IsRun(run) && t in Last(run).threads && Last(run).threads[t].SendAllowed? && Last(run).exitCloses > 0
    ensures run <= longer && IsRun(longer) && OnlyMoved(Last(run), Last(longer), t, SendEnd(false))
    ensures Last(longer).queue == Last(run).queue
  {
    var s := Last(run);
    RunKeepsInv(run, |run| - 1);
    hide IsRun, Inv;
    longer := Append(run, GiveUp(t), Goto(s, t, SendLeaving(false)));
    longer := LeavingFinishes(longer, t, false);
  }

  /** A sender that finds room, or for which the receiver makes room, gets its message through. */
  lemma GetsThrough(run: seq<State>, t: nat) returns (longer: seq<State>)
    requires IsRun(run) && t in Last(run).threads && Last(run).threads[t].SendAllowed? && Last(run).channelCloses == 0
    requires |Last(run).queue| < CAPACITY || Last(run).reading
    ensures run <= longer && IsRun(longer) && OnlyMoved(Last(run), Last(longer), t, SendEnd(true))
    ensures |Last(run).queue| < CAPACITY ==> |Last(longer).queue| == |Last(run).queue| + 1
  {
    var s := Last(run);
    RunKeepsInv(run, |run| - 1);
    assert |s.queue| <= CAPACITY;
    hide IsRun, Inv;
    var m := s.threads[t].msg;
    if |s.queue| < CAPACITY {
      longer := Append(run, Advance(t), Goto(s, t, SendLeaving(true)).(queue := s.queue + [m], accepted := s.accepted + [m]));
    } else {
      var s' := s.(queue := s.queue[1..], received := s.received + [s.queue[0]]);
      longer := Append(run, Receive, s');
      longer := Append(longer, Advance(t), Goto(s', t, SendLeaving(true)).(queue := s'.queue + [m], accepted := s.accepted + [m]));
    }
    longer := LeavingFinishes(longer, t, true);
  }

  /** Any counted sender can come to its end, and that gets nobody stuck. */
  lemma SenderFinishes(run: seq<State>, t: nat) returns (longer: seq<State>, sent: bool)
    requires IsRun(run) && t in Last(run).threads && Counted(Last(run).threads[t])
    requires Last(run).closedFlag && Last(run).channelCloses == 0 && Unstuck(Last(run))
    requires Last(run).hasExit ==> Last(run).exitCloses > 0
    ensures run <= longer && IsRun(longer) && OnlyMoved(Last(run), Last(longer), t, SendEnd(sent)) && Unstuck(Last(longer))
  {
    var s := Last(run);
    WaitingWithout(s, t);
    match s.threads[t] {
      case SendCounted(_) =>
        sent := false;
        longer := CountedFinishes(run, t);
      case SendLeaving(b) =>
        sent := b;
        longer := LeavingFinishes(run, t, b);
      case SendAllowed(_) =>
        sent := !s.hasExit;
        if s.hasExit { longer := GivesUp(run, t); } else { longer := GetsThrough(run, t); }
    }
    hide IsRun;
    assert Waiting(Last(longer)) == Waiting(s) - {t};
  }

  lemma WaitingWithout(s: State, t: nat)
    ensures |Waiting(s) - {t}| == |Waiting(s)| - if t in Waiting(s) then 1 else 0
  {
    if t !in Waiting(s) { assert Waiting(s) - {t} == Waiting(s); }
  }

  /** All senders come to their ends. */
  lemma {:induction false} SendersFinish(run: seq<State>) returns (longer: seq<State>)
    requires IsRun(run) && Last(run).closedFlag && Last(run).channelCloses == 0 && Unstuck(Last(run))
    requires Last(run).hasExit ==> Last(run).exitCloses > 0
    ensures run <= longer && IsRun(longer) && Last(longer).waitGroup == 0 && Last(longer).channelCloses == 0
    ensures forall u | u in Last(run).threads && !Counted(Last(run).threads[u]) ::
              u in Last(longer).threads && Last(longer).threads[u] == Last(run).threads[u]
    decreases |Group(Last(run))|
  {
    var s := Last(run);
    if t :| t in Group(s) {
      var next, sent := SenderFinishes(run, t);
      GroupWithout(s, Last(next), t, SendEnd(sent));
      hide IsRun;
      longer := SendersFinish(next);
    } else {
      longer := run;
      RunKeepsInv(run, |run| - 1);
      assert Group(s) == {};
    }
  }

  lemma GroupWithout(s: State, s': State, t: nat, pc: Pc)
    requires t in Group(s) && !Counted(pc) && OnlyMoved(s, s', t, pc)
    ensures |Group(s')| < |Group(s)|
  {
    assert Group(s') == Group(s) - {t};
  }

  /** The winner stands before the close of the channel as long as that is open. */
  lemma WinnerOf(run: seq<State>) returns (w: nat)
    requires IsRun(run) && Last(run).closedFlag && Last(run).channelCloses == 0
    ensures w in Last(run).threads && Closing(Last(run).threads[w])
    ensures Last(run).hasExit && !Last(run).threads[w].CloseExit? ==> Last(run).exitCloses > 0
  {
    RunKeepsWinner(run, |run| - 1);
    RunKeepsInv(run, |run| - 1);
    w :| w in Last(run).threads && Winner(Last(run).threads[w]);
  }

  /** The winner waits, once it has closed the exit channel, until nobody is counted, and closes. */
  lemma WinnerCloses(run: seq<State>, w: nat) returns (longer: seq<State>)
    requires IsRun(run) && w in Last(run).threads && Last(run).threads[w].CloseWait? && Last(run).waitGroup == 0
    ensures run <= longer && IsRun(longer) && Last(longer).channelCloses > 0
  {
    var s := Last(run);
    hide IsRun;
    longer := Append(run, Advance(w), Goto(s, w, CloseChannel));
    longer := Append(longer, Advance(w), Goto(Goto(s, w, CloseChannel), w, CloseEnd(true)).(channelCloses := s.channelCloses + 1));
  }

  lemma ExitCloses(run: seq<State>, w: nat) returns (longer: seq<State>)
    requires IsRun(run) && w in Last(run).threads && Last(run).threads[w].CloseExit?
    ensures run <= longer && IsRun(longer) && (Last(run).hasExit ==> Last(longer).exitCloses > 0)
    ensures Last(longer).threads == Last(run).threads[w := CloseWait]
    ensures Last(longer) == Last(run).(threads := Last(longer).threads, exitCloses := Last(longer).exitCloses)
  {
    var s := Last(run);
    hide IsRun;
    longer := Append(run, Advance(w), Goto(s, w, CloseWait).(exitCloses := if s.hasExit then s.exitCloses + 1 else s.exitCloses));
  }

  /** An Unstuck Close gets through. */
  lemma UnstuckCloses(run: seq<State>) returns (longer: seq<State>)
    requires IsRun(run) && Last(run).closedFlag && Last(run).channelCloses == 0 && Unstuck(Last(run))
    ensures run <= longer && IsRun(longer) && Last(longer).channelCloses > 0
  {
    var w := WinnerOf(run);
    longer := run;
    if Last(run).threads[w].CloseExit? {
      longer := ExitCloses(run, w);
      assert Waiting(Last(longer)) == Waiting(Last(run));
    }
    hide IsRun;
    if Last(longer).threads[w].CloseChannel? {
      longer := Append(longer, Advance(w), Goto(Last(longer), w, CloseEnd(true)).(channelCloses := 1));
    } else {
      longer := SendersFinish(longer);
      longer := WinnerCloses(longer, w);
    }
  }

  /** Without an exit channel and without a receiver, a step either moves a Send that waits into the
      channel, or leaves both alone. */
  lemma StuckFrame(s: State, step: Step, s': State)
    requires Inv(s) && Next(s, step, s') && s.closedFlag && !s.hasExit && !s.reading && s.channelCloses == 0
    ensures !s'.hasExit && !s'.reading && s'.closedFlag
    ensures |s'.queue| - |s.queue| == |s'.accepted| - |s.accepted|
    ensures Mover(step) != {}
    ensures step.t in s.threads && s.threads[step.t].SendAllowed? ==>
              step.t in s'.threads && s'.threads[step.t] == SendLeaving(true)
  {
  }

  /** Nobody begins to wait once the flag is set. */
  lemma NobodyJoins(s: State, step: Step, s': State)
    requires Moved(s, step, s') && s.closedFlag && Mover(step) != {}
    requires step.t in s.threads && s.threads[step.t].SendAllowed? ==> s'.threads[step.t] == SendLeaving(true)
    ensures s'.threads == s.threads[step.t := s'.threads[step.t]] && !s'.threads[step.t].SendAllowed?
    ensures |s'.accepted| == |s.accepted| + if step.t in Waiting(s) then 1 else 0
  {
    hide Waiting;
    assert step.t in Waiting(s) <==> step.t in s.threads && s.threads[step.t].SendAllowed? by { WhoWaits(s, step.t); }
  }

  lemma WhoWaits(s: State, t: nat)
    ensures t in Waiting(s) <==> t in s.threads && s.threads[t].SendAllowed?
  {
  }

  lemma WaitingMoves(s: State, step: Step, s': State)
    requires Moved(s, step, s') && s.closedFlag && Mover(step) != {}
    requires step.t in s.threads && s.threads[step.t].SendAllowed? ==> s'.threads[step.t] == SendLeaving(true)
    ensures |Waiting(s')| + |s'.accepted| == |Waiting(s)| + |s.accepted|
  {
    NobodyJoins(s, step, s');
    hide Moved;
    WaitingWithout(s, step.t);
    assert Waiting(s') == Waiting(s) - {step.t};
  }

  lemma StuckStep(s: State, step: Step, s': State)
    requires Inv(s) && Next(s, step, s') && s.closedFlag && !Unstuck(s) && s.channelCloses == 0
    ensures s'.closedFlag && !Unstuck(s') && s'.channelCloses == 0
  {
    NextMoves(s, step, s');
    StuckFrame(s, step, s');
    WaitingMoves(s, step, s');
    if s'.channelCloses != 0 {
      ChannelClosesBy(s, step, s');
      NobodyWaits(s, step.t);
    }
    hide Inv, Next, Moved, Waiting;
  }

  lemma ChannelClosesBy(s: State, step: Step, s': State)
    requires Moved(s, step, s') && s'.channelCloses != s.channelCloses
    ensures Mover(step) != {} && step.t in s.threads && s.threads[step.t].CloseChannel?
  {
  }

  lemma NobodyWaits(s: State, t: nat)
    requires Inv(s) && t in s.threads && s.threads[t].CloseChannel?
    ensures Waiting(s) == {} && |s.queue| <= CAPACITY
  {
  }

  lemma {:induction false} StuckStays(run: seq<State>, i: nat, j: nat)
    requires IsRun(run) && i <= j < |run| && run[i].closedFlag && !Unstuck(run[i]) && run[i].channelCloses == 0
    ensures run[j].closedFlag && !Unstuck(run[j]) && run[j].channelCloses == 0
  {
    hide Inv, Next, Unstuck;
    if i < j {
      StuckStays(run, i, j - 1);
      RunKeepsInv(run, j - 1);
      assert StepAt(run, j - 1);
      var step :| Next(run[j - 1], step, run[j]);
      StuckStep(run[j - 1], step, run[j]);
    }
  }

  /** Exactly when a Close that has begun can get through: always in the hub, whose senders give up, and
      in a client unless its receiver has stopped and more Sends have passed the check than the channel
      has room for. */
  lemma CanCloseIff(run: seq<State>)
    requires IsRun(run) && Last(run).closedFlag && Last(run).channelCloses == 0
    ensures CanClose(run) <==> Unstuck(Last(run))
  {
    if Unstuck(Last(run)) {
      var longer := UnstuckCloses(run);
      assert run <= longer && IsRun(longer) && Last(longer).channelCloses > 0;
    } else if CanClose(run) {
      var longer: seq<State> :| run <= longer && IsRun(longer) && Last(longer).channelCloses > 0;
      assert longer[|run| - 1] == Last(run);
      StuckStays(longer, |run| - 1, |longer| - 1);
    }
  }

  // ---- What the receiver may meet after the close ----

  /** Some way for the run to go on hands nil to the receiver of the hub. */
  ghost predicate CanTakeNil(run: seq<State>)
    requires run != []
  {
    exists longer: seq<State> :: run <= longer && IsRun(longer) && Last(longer).nilsTaken > Last(run).nilsTaken
  }

  /** A receiver that has stopped takes nothing any more. */
  lemma {:induction false} StoppedTakesNothing(run: seq<State>, i: nat, j: nat)
    requires IsRun(run) && i <= j < |run| && !run[i].reading
    ensures !run[j].reading && run[j].nilsTaken == run[i].nilsTaken && run[j].received == run[i].received
  {
    if i < j {
      StoppedTakesNothing(run, i, j - 1);
      assert StepAt(run, j - 1);
      var step :| Next(run[j - 1], step, run[j]);
    }
  }

  /** The hub's receiver stops only once the exit channel is closed. */
  lemma {:induction false} HubStopsOnExit(run: seq<State>, i: nat)
    requires IsRun(run) && i < |run| && run[i].hasExit && !run[i].reading
    ensures run[i].exitCloses > 0
  {
    if i > 0 {
      assert StepAt(run, i - 1);
      var step :| Next(run[i - 1], step, run[i]);
      if !run[i - 1].reading { HubStopsOnExit(run, i - 1); }
    }
  }

  /** A client's loop over its channel ends on the closed and drained channel, which it never looks
      into. */
  lemma ClientLoopEnds(run: seq<State>, i: nat, step: Step)
    requires IsRun(run) && i + 1 < |run| && Next(run[i], step, run[i + 1]) && !run[i].hasExit && step.ReceiveNothing?
    ensures !run[i + 1].reading && run[i + 1].nilsTaken == 0 && run[i].queue == [] && run[i].channelCloses > 0
  {
    RunKeepsInv(run, i);
  }

  /** The receiver can empty the closed channel. */
  lemma {:induction false} Drains(run: seq<State>) returns (longer: seq<State>)
    requires IsRun(run) && Last(run).reading && Last(run).channelCloses > 0
    ensures run <= longer && IsRun(longer) && Last(longer) == Last(run).(queue := [], received := Last(longer).received)
    decreases |Last(run).queue|
  {
    var s := Last(run);
    hide IsRun;
    if s.queue == [] {
      longer := run;
    } else {
      longer := Append(run, Receive, s.(queue := s.queue[1..], received := s.received + [s.queue[0]]));
      longer := Drains(longer);
    }
  }

  /** Once the hub has closed its channel, the serving goroutine may still be handed nil if and only
      if it has not stopped by then; the exit channel was closed before, so it could have. */
  lemma NilIsTakenIff(run: seq<State>)
    requires IsRun(run) && Last(run).hasExit && Last(run).channelCloses > 0
    ensures CanTakeNil(run) <==> Last(run).reading
    ensures Last(run).reading ==> Next(Last(run), StopReading, Last(run).(reading := false))
  {
    var s := Last(run);
    RunKeepsInv(run, |run| - 1);
    assert s.exitCloses == 1;
    hide Inv, IsRun, Next, StepAt;
    if s.reading {
      var longer := Drains(run);
      longer := Append(longer, ReceiveNothing, Last(longer).(nilsTaken := s.nilsTaken + 1));
      assert run <= longer && IsRun(longer) && Last(longer).nilsTaken > s.nilsTaken;
    } else if CanTakeNil(run) {
      var longer: seq<State> :| run <= longer && IsRun(longer) && Last(longer).nilsTaken > s.nilsTaken;
      assert longer[|run| - 1] == s;
      StoppedTakesNothing(longer, |run| - 1, |longer| - 1);
    }
  }

  /** A closer that nobody holds up, at some point of its way. */
  function Closer(s: State, t: nat, pc: Pc, exits: nat, closes: nat): State {
    Goto(s, t, pc).(closedFlag := true, exitCloses := exits, channelCloses := closes)
  }

  lemma CloserWins(s: State, t: nat)
    requires s.hasExit && !s.closedFlag && s.exitCloses == 0 && s.channelCloses == 0 && t !in s.threads
    ensures Next(s, Spawn(t, CloseStart), Goto(s, t, CloseStart))
    ensures Next(Goto(s, t, CloseStart), Advance(t), Closer(s, t, CloseExit, 0, 0))
  {
    assert s.threads[t := CloseStart][t := CloseExit] == s.threads[t := CloseExit];
  }

  lemma CloserGoesOn(s: State, t: nat)
    requires s.hasExit && s.waitGroup == 0
    ensures Next(Closer(s, t, CloseExit, 0, 0), Advance(t), Closer(s, t, CloseWait, 1, 0))
    ensures Next(Closer(s, t, CloseWait, 1, 0), Advance(t), Closer(s, t, CloseChannel, 1, 0))
    ensures Next(Closer(s, t, CloseChannel, 1, 0), Advance(t), Closer(s, t, CloseEnd(true), 1, 1))
  {
    assert s.threads[t := CloseExit][t := CloseWait] == s.threads[t := CloseWait];
    assert s.threads[t := CloseWait][t := CloseChannel] == s.threads[t := CloseChannel];
    assert s.threads[t := CloseChannel][t := CloseEnd(true)] == s.threads[t := CloseEnd(true)];
  }

  /** That can happen to every open hub whose receiver is at work: a Close that meets no sender gets
      through to the end before the receiver looks again. */
  lemma CloseOvertakes(run: seq<State>, t: nat) returns (longer: seq<State>)
    requires IsRun(run) && Last(run).hasExit && !Last(run).closedFlag && Last(run).waitGroup == 0
    requires Last(run).reading && t !in Last(run).threads
    ensures run <= longer && IsRun(longer) && Last(longer).channelCloses == 1 && Last(longer).nilsTaken == 0
    ensures CanTakeNil(longer)
  {
    RunKeepsInv(run, |run| - 1);
    var s := Last(run);
    assert s.channelCloses == 0 && s.exitCloses == 0 && s.nilsTaken == 0;
    hide IsRun, Inv, CanTakeNil, Next;
    CloserWins(s, t);
    CloserGoesOn(s, t);
    longer := Append(run, Spawn(t, CloseStart), Goto(s, t, CloseStart));
    longer := Append(longer, Advance(t), Closer(s, t, CloseExit, 0, 0));
    longer := Append(longer, Advance(t), Closer(s, t, CloseWait, 1, 0));
    longer := Append(longer, Advance(t), Closer(s, t, CloseChannel, 1, 0));
    longer := Append(longer, Advance(t), Closer(s, t, CloseEnd(true), 1, 1));
    NilIsTakenIff(longer);
  }
}
