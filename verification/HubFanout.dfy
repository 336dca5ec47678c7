/** What reaches a client: every inbox is a subsequence of the accepted broadcasts, and one
    fan-out gives a client that stays registered its message exactly once, or not at all. */
module HubFanout {
  import opened HubRegistry

  predicate Increasing(xs: seq<nat>) {
    forall i, j | 0 <= i < j < |xs| :: xs[i] < xs[j]
  }

  /** The serving goroutine has passed the client during the current fan-out. */
  predicate Reached(s: State, cli: Client) {
    match s.serve
    case Ranging(_, visited) => cli.user in visited
    case Locking(_, visited, _, _) => cli.user in visited
    case Visiting(_, visited, user, _, rest) => cli.user in visited || (cli.user == user && cli.conn !in rest)
    case _ => true
  }

  ghost predicate ServeFits(s: State) {
    && s.taken <= |s.log|
    && (forall cid | cid in s.conts :: s.conts[cid].born <= s.taken)
    && match s.serve
       case Ranging(msg, _) => msg + 1 == s.taken
       case Locking(msg, visited, user, cid) => msg + 1 == s.taken && For(s, cid, user) && user !in visited
       case Visiting(msg, visited, user, cid, rest) =>
         msg + 1 == s.taken && For(s, cid, user) && user !in visited && rest <= s.conts[cid].members.Keys
       case _ => true
  }

  /** The messages queued to one client, in order; the current one only if the client was passed. */
  ghost predicate InboxFits(s: State, cli: Client) {
    var inbox := Inbox(s, cli);
    && Increasing(inbox)
    && (forall i | 0 <= i < |inbox| :: inbox[i] < s.taken)
    && (!Reached(s, cli) ==> forall i | 0 <= i < |inbox| :: inbox[i] + 1 < s.taken)
  }

  ghost predicate Inboxes(s: State) {
    forall cli :: InboxFits(s, cli)
  }

  /** What a thread's step leaves alone while the hub serves. */
  lemma ThreadLeavesServing(s: State, step: Step, s': State)
    requires RegistryInv(s) && ThreadStep(s, step, s')
    ensures s'.serve == s.serve && s'.log == s.log && s'.taken == s.taken && s'.inbox == s.inbox && s'.rtc == s.rtc
    ensures Grows(s, s')
    ensures forall cid | cid in s'.conts && cid !in s.conts :: s'.conts[cid].born == s.taken
    ensures s.serve.Visiting? && s.serve.cid in s.conts ==> s'.conts[s.serve.cid].members == s.conts[s.serve.cid].members
  {
    var e := ThreadEffect(s, step).value;
    NewContainers(s, step, e);
    hide RegistryInv, ThreadEffect;
    ThreadEffectFits(s, step, e);
    EffectGrows(s, step.t, e);
    if s.serve.Visiting? && s.serve.cid in s.conts { ServedStays(s, step.t, e); }
    hide EffectFits;
  }

  lemma NewContainers(s: State, step: Step, e: Effect)
    requires (step.Thread? || step.Attach? || step.Unlock? || step.Sweep?) && step.t in s.threads
    requires ThreadEffect(s, step) == Some(e)
    ensures e.change.Change? && e.change.cid !in s.conts ==> e.change.cont.born == s.taken
  {
  }

  /** Nobody changes the clients of the container that is being visited. */
  lemma ServedStays(s: State, t: nat, e: Effect)
    requires RegistryInv(s) && t in s.threads && EffectFits(s, t, e)
    requires s.serve.Visiting? && s.serve.cid in s.conts
    ensures Apply(s, t, e).conts[s.serve.cid].members == s.conts[s.serve.cid].members
  {
    hide Mappings, Members, PcsFit, Checked, Readers, Attached, PcFits, PcChecked, WriteHeld, ReadHeld, MappingFits;
    var cid := s.serve.cid;
    assert s.conts[cid].serving;
    assert s.conts[cid].writer == Some(t) <==> cid in WriteHeld(s.threads[t]);
  }

  lemma PickedFits(s: State)
    requires RegistryInv(s)
    ensures forall u | u in s.clients :: For(s, s.clients[u], u)
  {
    hide Members, PcsFit, Checked, Writers, Readers, Exclusive, Attached;
  }

  lemma ServeKeepsServe(s: State, step: Step, s': State)
    requires RegistryInv(s) && ServeFits(s) && ServeStep(s, step, s')
    ensures ServeFits(s')
  {
    hide RegistryInv;
    match step
    case Enter => EnterKeepsServe(s, s');
    case Deliver(conn) =>
      hide Passes, Inbox;
    case Pick(user) =>
      PickedFits(s);
    case _ =>
  }

  lemma EnterKeepsServe(s: State, s': State)
    requires ServeFits(s) && EnterStep(s, s')
    ensures ServeFits(s')
  {
  }

  lemma NextKeepsServe(s: State, step: Step, s': State)
    requires RegistryInv(s) && ServeFits(s) && Next(s, step, s')
    ensures ServeFits(s')
  {
    if ThreadStep(s, step, s') {
      ThreadLeavesServing(s, step, s');
      hide RegistryInv, ThreadStep;
    } else if ServeStep(s, step, s') {
      hide OtherStep;
      ServeKeepsServe(s, step, s');
    } else {
      hide RegistryInv, ThreadStep, ServeStep;
    }
  }

  lemma MemberIs(s: State, cid: Cid, conn: string)
    requires RegistryInv(s) && cid in s.conts && conn in s.conts[cid].members
    ensures s.conts[cid].members[conn].conn == conn && s.conts[cid].members[conn].user == s.conts[cid].user
  {
    hide Mappings, PcsFit, Checked, Writers, Readers, Exclusive, Attached;
  }

  /** A delivery ticks off one connection and queues the message to nobody but its client. */
  lemma Delivered(s: State, conn: string, s': State, cli: Client)
    requires RegistryInv(s) && DeliverStep(s, conn, s')
    ensures s.conts[s.serve.cid].members[conn].conn == conn
    ensures s.conts[s.serve.cid].members[conn].user == s.conts[s.serve.cid].user
    ensures s' == s.(serve := s.serve.(rest := s.serve.rest - {conn}), inbox := s'.inbox)
    ensures var b := s.log[s.serve.msg];
            Inbox(s', cli) ==
            Inbox(s, cli) + (if && cli == s.conts[s.serve.cid].members[conn] && cli !in s.closedClients
                                && cli.user !in b.ignoreUsers && cli.conn !in b.ignoreConns && (b.rtcJoined ==> cli in s.rtc)
                             then [s.serve.msg] else [])
  {
    MemberIs(s, s.serve.cid, conn);
    hide RegistryInv;
  }

  lemma DeliverKeepsInbox(s: State, conn: string, s': State, cli: Client)
    requires RegistryInv(s) && ServeFits(s) && InboxFits(s, cli) && DeliverStep(s, conn, s')
    ensures InboxFits(s', cli)
  {
    Delivered(s, conn, s', cli);
    hide RegistryInv, Inbox;
  }

  lemma NextKeepsInbox(s: State, step: Step, s': State, cli: Client)
    requires RegistryInv(s) && ServeFits(s) && InboxFits(s, cli) && Next(s, step, s')
    ensures InboxFits(s', cli)
  {
    if ThreadStep(s, step, s') {
      ThreadLeavesServing(s, step, s');
      hide RegistryInv, ThreadStep;
    } else {
      hide RegistryInv, ThreadStep;
      if step.Deliver? { DeliverKeepsInbox(s, step.conn, s', cli); }
      hide DeliverStep;
    }
  }

  lemma {:induction false} RunKeepsServe(run: seq<State>, i: nat)
    requires IsRun(run) && i < |run|
    ensures ServeFits(run[i]) && Inboxes(run[i])
  {
    hide RegistryInv, Next, ServeFits, InboxFits, IsRun;
    if i == 0 {
      InitServes(run);
    } else {
      RunKeepsServe(run, i - 1);
      RunKeepsRegistry(run, i - 1);
      StepsOf(run, i - 1);
      var step :| Next(run[i - 1], step, run[i]);
      NextKeepsServe(run[i - 1], step, run[i]);
      forall cli ensures InboxFits(run[i], cli) {
        assert InboxFits(run[i - 1], cli);
        NextKeepsInbox(run[i - 1], step, run[i], cli);
      }
    }
  }

  lemma InitServes(run: seq<State>)
    requires IsRun(run)
    ensures ServeFits(run[0]) && Inboxes(run[0])
  {
  }

  /** In every run, what was queued to a client is a subsequence of the broadcasts, in the order
      in which the hub accepted them. */
  lemma InboxIsSubsequence(run: seq<State>, i: nat, cli: Client)
    requires IsRun(run) && i < |run|
    ensures Increasing(Inbox(run[i], cli))
    ensures forall k | 0 <= k < |Inbox(run[i], cli)| :: Inbox(run[i], cli)[k] < |run[i].log|
  {
    hide IsRun;
    RunKeepsServe(run, i);
    assert InboxFits(run[i], cli);
  }

  // ---- What goes on around a fan-out ----

  /** A client that was closed stays closed, and who has joined the call changes by joining and leaving
      alone. */
  lemma ClientsChange(s: State, step: Step, s': State, cli: Client)
    requires Next(s, step, s')
    ensures cli in s.closedClients || step == CloseClient(cli) ==> cli in s'.closedClients
    ensures cli in s'.rtc <==> if step == SetRtc(cli, true) then true else if step == SetRtc(cli, false) then false else cli in s.rtc
  {
    hide ThreadEffect;
  }

  /** At most 128 accepted broadcasts wait for the serving goroutine. */
  lemma {:induction false} QueueIsBounded(run: seq<State>, i: nat)
    requires IsRun(run) && i < |run|
    ensures 0 <= |run[i].log| - run[i].taken <= 128
  {
    hide Next, ServeFits, Inboxes;
    RunKeepsServe(run, i);
    assert run[i].taken <= |run[i].log| by { TakenIsLogged(run[i]); }
    if i > 0 {
      QueueIsBounded(run, i - 1);
      StepsOf(run, i - 1);
      var step :| Next(run[i - 1], step, run[i]);
      QueueStep(run[i - 1], step, run[i]);
    }
  }

  lemma TakenIsLogged(s: State)
    requires ServeFits(s)
    ensures s.taken <= |s.log|
  {
  }

  lemma QueueStep(s: State, step: Step, s': State)
    requires Next(s, step, s') && |s.log| - s.taken <= 128
    ensures |s'.log| - s'.taken <= 128
  {
    hide ThreadEffect;
  }

  /** A broadcast is accepted as long as fewer wait, and the goroutine of a closed hub can stop between
      two of them. */
  lemma CanAcceptAndStop(s: State, b: Broadcast)
    ensures |s.log| - s.taken < 128 ==> Next(s, Accept(b), s.(log := s.log + [b]))
    ensures s.serve.Idle? && s.closed ==> Next(s, Stop, s.(serve := Stopped))
  {
    hide ThreadEffect;
  }

  /** Once it has stopped, it takes and delivers nothing. */
  lemma {:induction false} StoppedDelivers(run: seq<State>, i: nat, j: nat)
    requires IsRun(run) && i <= j < |run| && run[i].serve.Stopped?
    ensures run[j].serve.Stopped? && run[j].taken == run[i].taken && run[j].inbox == run[i].inbox
  {
    hide Next;
    if i < j {
      StoppedDelivers(run, i, j - 1);
      StepsOf(run, j - 1);
      var step :| Next(run[j - 1], step, run[j]);
      StoppedStep(run[j - 1], step, run[j]);
    }
  }

  lemma StoppedStep(s: State, step: Step, s': State)
    requires Next(s, step, s') && s.serve.Stopped?
    ensures s'.serve.Stopped? && s'.taken == s.taken && s'.inbox == s.inbox
  {
    hide ThreadEffect;
  }

  // ---- One fan-out ----

  /** The client is registered with the open hub, its channel is open, and whether it has joined
      the call does not change. */
  ghost predicate Steady(s: State, cli: Client, joined: bool) {
    !s.closed && Registered(s, cli) && cli !in s.closedClients && (cli in s.rtc <==> joined)
  }

  /** A client gets the message when it is passed, and only then. `before` is its inbox when the
      fan-out began, `due` whether the filter lets it have the message. */
  ghost predicate FanOut(s: State, cli: Client, m: nat, b: Broadcast, before: seq<nat>, due: bool) {
    && (s.serve.Ranging? || s.serve.Locking? || s.serve.Visiting?)
    && s.serve.msg == m < |s.log| && s.log[m] == b
    && Inbox(s, cli) == before + (if due && Reached(s, cli) then [m] else [])
    && (cli.user in s.clients && s.clients[cli.user] in s.conts ==> s.conts[s.clients[cli.user]].born <= m)
    && (cli.user in s.clients && !s.serve.Ranging? && s.serve.user == cli.user ==> s.serve.cid == s.clients[cli.user])
  }

  /** The message being fanned out ends with `FinishStep`, and not before. */
  ghost predicate Ends(s: State, s': State) {
    !s.serve.Idle? && s'.serve.Idle?
  }

  lemma ThreadKeepsFanOut(s: State, step: Step, s': State, cli: Client, m: nat, b: Broadcast, before: seq<nat>, due: bool)
    requires RegistryInv(s) && ServeFits(s) && ThreadStep(s, step, s')
    requires !s'.closed && Registered(s, cli) && Registered(s', cli) && FanOut(s, cli, m, b, before, due)
    ensures FanOut(s', cli, m, b, before, due)
  {
    ThreadLeavesServing(s, step, s');
    StaysPut(s, step, s', cli);
    hide RegistryInv, ThreadStep, Reached;
    assert Reached(s', cli) == Reached(s, cli) by { SameReached(s, s', cli); }
  }

  lemma SameReached(s: State, s': State, cli: Client)
    requires s'.serve == s.serve
    ensures Reached(s', cli) == Reached(s, cli)
  {
  }

  lemma DeliverKeepsFanOut(s: State, conn: string, s': State, cli: Client, m: nat, b: Broadcast, before: seq<nat>, joined: bool)
    requires RegistryInv(s) && ServeFits(s) && DeliverStep(s, conn, s') && Steady(s, cli, joined)
    requires FanOut(s, cli, m, b, before, Passes(b, cli, if joined then {cli} else {}))
    ensures FanOut(s', cli, m, b, before, Passes(b, cli, if joined then {cli} else {}))
  {
    Delivered(s, conn, s', cli);
    assert Passes(b, cli, s.rtc) == Passes(b, cli, if joined then {cli} else {});
    hide RegistryInv, Inbox;
  }

  lemma ServeKeepsFanOut(s: State, step: Step, s': State, cli: Client, m: nat, b: Broadcast, before: seq<nat>, due: bool)
    requires ServeFits(s) && ServeStep(s, step, s') && !step.Deliver? && !Ends(s, s') && Registered(s, cli)
    requires FanOut(s, cli, m, b, before, due)
    ensures FanOut(s', cli, m, b, before, due)
  {
  }

  lemma OtherKeepsFanOut(s: State, step: Step, s': State, cli: Client, m: nat, b: Broadcast, before: seq<nat>, due: bool)
    requires OtherStep(s, step, s') && FanOut(s, cli, m, b, before, due)
    ensures FanOut(s', cli, m, b, before, due)
  {
  }

  lemma NextKeepsFanOut(s: State, step: Step, s': State, cli: Client, m: nat, b: Broadcast, before: seq<nat>, joined: bool)
    requires RegistryInv(s) && ServeFits(s) && Next(s, step, s') && !Ends(s, s')
    requires Steady(s, cli, joined) && Steady(s', cli, joined)
    requires FanOut(s, cli, m, b, before, Passes(b, cli, if joined then {cli} else {}))
    ensures FanOut(s', cli, m, b, before, Passes(b, cli, if joined then {cli} else {}))
  {
    hide RegistryInv, ServeFits, ThreadStep, OtherStep, FanOut, Passes, Ends;
    var due := Passes(b, cli, if joined then {cli} else {});
    if ThreadStep(s, step, s') {
      ThreadKeepsFanOut(s, step, s', cli, m, b, before, due);
    } else if OtherStep(s, step, s') {
      OtherKeepsFanOut(s, step, s', cli, m, b, before, due);
    } else if step.Deliver? {
      DeliverKeepsFanOut(s, step.conn, s', cli, m, b, before, joined);
    } else {
      ServeKeepsFanOut(s, step, s', cli, m, b, before, due);
    }
  }

  lemma TakeBegins(s: State, s': State, cli: Client, due: bool)
    requires ServeFits(s) && TakeStep(s, s')
    ensures FanOut(s', cli, s.taken, s.log[s.taken], Inbox(s, cli), due)
  {
  }

  /** The fan-out of run[i]'s next broadcast lasts from the step at i to the step at j. */
  ghost predicate FanOutSpan(run: seq<State>, i: nat, j: nat)
    requires i < j && j + 1 < |run|
  {
    && TakeStep(run[i], run[i + 1])
    && (forall k | i < k <= j :: !run[k].serve.Idle?)
    && run[j + 1].serve.Idle?
  }

  lemma {:induction false} SpanKeepsFanOut(run: seq<State>, i: nat, j: nat, k: nat, cli: Client, joined: bool)
    requires IsRun(run) && i < k <= j && j + 1 < |run| && FanOutSpan(run, i, j)
    requires forall n | i <= n <= j :: Steady(run[n], cli, joined)
    ensures FanOut(run[k], cli, run[i].taken, run[i].log[run[i].taken], Inbox(run[i], cli),
                   Passes(run[i].log[run[i].taken], cli, if joined then {cli} else {}))
    decreases k
  {
    hide RegistryInv, ServeFits, Inboxes, Next, FanOut, Steady, IsRun, Passes;
    var s := run[i];
    if k == i + 1 {
      RunKeepsServe(run, i);
      TakeBegins(s, run[k], cli, Passes(s.log[s.taken], cli, if joined then {cli} else {}));
    } else {
      SpanKeepsFanOut(run, i, j, k - 1, cli, joined);
      RunKeepsServe(run, k - 1);
      RunKeepsRegistry(run, k - 1);
      StepsOf(run, k - 1);
      var step :| Next(run[k - 1], step, run[k]);
      NextKeepsFanOut(run[k - 1], step, run[k], cli, s.taken, s.log[s.taken], Inbox(s, cli), joined);
    }
  }

  lemma FinishReached(s: State, step: Step, s': State, cli: Client, m: nat, b: Broadcast, before: seq<nat>, due: bool)
    requires RegistryInv(s) && Next(s, step, s') && Ends(s, s') && Registered(s, cli)
    requires FanOut(s, cli, m, b, before, due)
    ensures Inbox(s', cli) == before + (if due then [m] else [])
  {
    hide RegistryInv, ThreadEffect;
  }

  /** Exactly once: over one fan-out, a client that stays registered on the open hub with its channel
      open gets the broadcast once if neither its user nor its connection is to be ignored and it has
      joined the call where that is asked for, and otherwise nothing. */
  lemma FanOutExactlyOnce(run: seq<State>, i: nat, j: nat, cli: Client, joined: bool)
    requires IsRun(run) && i < j && j + 1 < |run| && FanOutSpan(run, i, j)
    requires forall n | i <= n <= j :: Steady(run[n], cli, joined)
    ensures var b := run[i].log[run[i].taken];
            Inbox(run[j + 1], cli) ==
            Inbox(run[i], cli) + (if cli.user !in b.ignoreUsers && cli.conn !in b.ignoreConns && (b.rtcJoined ==> cli in run[i].rtc)
                                  then [run[i].taken] else [])
  {
    hide RegistryInv, ServeFits, Inboxes, Next, FanOut, IsRun;
    var s := run[i];
    SpanKeepsFanOut(run, i, j, j, cli, joined);
    RunKeepsRegistry(run, j);
    StepsOf(run, j);
    var step :| Next(run[j], step, run[j + 1]);
    assert Steady(s, cli, joined) && Steady(run[j], cli, joined);
    FinishReached(run[j], step, run[j + 1], cli, s.taken, s.log[s.taken], Inbox(s, cli),
                  Passes(s.log[s.taken], cli, if joined then {cli} else {}));
  }

  // ---- A run in which all of this happens ----

  lemma Append(run: seq<State>, step: Step, s': State) returns (longer: seq<State>)
    requires IsRun(run) && Next(run[|run| - 1], step, s')
    ensures longer == run + [s'] && IsRun(longer)
  {
    longer := run + [s'];
    forall i | 0 <= i < |longer| - 1 ensures StepAt(longer, i) {
      if i < |run| - 1 { assert StepAt(run, i); }
    }
  }

  function Registering(cli: Client, pc: Pc, writer: Option<nat>, members: map<string, Client>): State {
    State(false, map[cli.user := 0], map[0 := Container(cli.user, members, writer, {}, false, 0)], {}, map[0 := pc],
          [], 0, Idle, map[], {}, {})
  }

  function Before(threads: map<nat, Pc>): State {
    State(false, map[], map[], {}, threads, [], 0, Idle, map[], {}, {})
  }

  lemma Attaches(cli: Client)
    ensures Next(Before(map[]), Spawn(0, RegStart(cli, {})), Before(map[0 := RegStart(cli, {})]))
    ensures Next(Before(map[0 := RegStart(cli, {})]), Thread(0), Before(map[0 := RegLoad(cli, {})]))
    ensures Next(Before(map[0 := RegLoad(cli, {})]), Attach(0, 0), Registering(cli, RegLock(cli, {}, 0), None, map[]))
  {
    assert map[0 := RegStart(cli, {})][0 := RegLoad(cli, {})] == map[0 := RegLoad(cli, {})];
  }

  lemma Locks(cli: Client)
    ensures Next(Registering(cli, RegLock(cli, {}, 0), None, map[]), Thread(0),
                 Registering(cli, RegCheck(cli, {}, 0), Some(0), map[]))
    ensures Next(Registering(cli, RegCheck(cli, {}, 0), Some(0), map[]), Thread(0),
                 Registering(cli, RegInsert(cli, {}, 0), Some(0), map[]))
  {
  }

  lemma Inserts(cli: Client)
    ensures Next(Registering(cli, RegInsert(cli, {}, 0), Some(0), map[]), Thread(0),
                 Registering(cli, RegRelease(true, {0}), Some(0), map[cli.conn := cli]))
  {
    var none: set<Cid> := {};
    assert none + {0} == {0};
  }

  lemma Releases(cli: Client)
    ensures Next(Registering(cli, RegRelease(true, {0}), Some(0), map[cli.conn := cli]), Unlock(0, 0),
                 Registering(cli, RegRelease(true, {}), None, map[cli.conn := cli]))
    ensures Next(Registering(cli, RegRelease(true, {}), None, map[cli.conn := cli]), Thread(0),
                 Registering(cli, End(true), None, map[cli.conn := cli]))
  {
    var one: set<Cid> := {0};
    assert one - {0} == {};
  }

  /** A thread registers a client in a container that it attaches. */
  lemma Registers(cli: Client) returns (run: seq<State>)
    ensures IsRun(run) && |run| == 9
    ensures run[8] == Registering(cli, End(true), None, map[cli.conn := cli])
  {
    hide IsRun, Next, Registering, Before;
    Attaches(cli);
    Locks(cli);
    Inserts(cli);
    Releases(cli);
    run := [Before(map[])];
    assert IsRun(run) by { OneState(); }
    run := Append(run, Spawn(0, RegStart(cli, {})), Before(map[0 := RegStart(cli, {})]));
    run := Append(run, Thread(0), Before(map[0 := RegLoad(cli, {})]));
    run := Append(run, Attach(0, 0), Registering(cli, RegLock(cli, {}, 0), None, map[]));
    run := Append(run, Thread(0), Registering(cli, RegCheck(cli, {}, 0), Some(0), map[]));
    run := Append(run, Thread(0), Registering(cli, RegInsert(cli, {}, 0), Some(0), map[]));
    run := Append(run, Thread(0), Registering(cli, RegRelease(true, {0}), Some(0), map[cli.conn := cli]));
    run := Append(run, Unlock(0, 0), Registering(cli, RegRelease(true, {}), None, map[cli.conn := cli]));
    run := Append(run, Thread(0), Registering(cli, End(true), None, map[cli.conn := cli]));
  }

  lemma OneState()
    ensures IsRun([Before(map[])])
  {
  }

  /** The hub with one registered client, one broadcast, and the serving goroutine at some point. */
  function Serving(cli: Client, b: Broadcast, taken: nat, serve: Serve, inbox: map<Client, seq<nat>>): State {
    State(false, map[cli.user := 0],
          map[0 := Container(cli.user, map[cli.conn := cli], None, {}, serve.Visiting?, 0)], {}, map[0 := End(true)],
          [b], taken, serve, inbox, {}, {})
  }

  function Queued(cli: Client, b: Broadcast): map<Client, seq<nat>> {
    if Passes(b, cli, {}) then map[cli := [0]] else map[]
  }

  lemma Begins(cli: Client, b: Broadcast)
    ensures Next(Registering(cli, End(true), None, map[cli.conn := cli]), Accept(b), Serving(cli, b, 0, Idle, map[]))
    ensures Next(Serving(cli, b, 0, Idle, map[]), Take, Serving(cli, b, 1, Ranging(0, {}), map[]))
    ensures Next(Serving(cli, b, 1, Ranging(0, {}), map[]), Pick(cli.user), Serving(cli, b, 1, Locking(0, {}, cli.user, 0), map[]))
  {
  }

  lemma Visits(cli: Client, b: Broadcast)
    ensures Next(Serving(cli, b, 1, Locking(0, {}, cli.user, 0), map[]), Enter,
                 Serving(cli, b, 1, Visiting(0, {}, cli.user, 0, {cli.conn}), map[]))
  {
    assert map[cli.conn := cli].Keys == {cli.conn};
  }

  lemma Delivers(cli: Client, b: Broadcast)
    ensures Next(Serving(cli, b, 1, Visiting(0, {}, cli.user, 0, {cli.conn}), map[]), Deliver(cli.conn),
                 Serving(cli, b, 1, Visiting(0, {}, cli.user, 0, {}), Queued(cli, b)))
  {
    assert {cli.conn} - {cli.conn} == {};
    assert Inbox(Serving(cli, b, 1, Visiting(0, {}, cli.user, 0, {cli.conn}), map[]), cli) + [0] == [0];
  }

  lemma Finishes(cli: Client, b: Broadcast)
    ensures Next(Serving(cli, b, 1, Visiting(0, {}, cli.user, 0, {}), Queued(cli, b)), Leave,
                 Serving(cli, b, 1, Ranging(0, {cli.user}), Queued(cli, b)))
    ensures Next(Serving(cli, b, 1, Ranging(0, {cli.user}), Queued(cli, b)), FinishRange,
                 Serving(cli, b, 1, Idle, Queued(cli, b)))
  {
    hide Queued;
    assert {} + {cli.user} == {cli.user};
  }

  /** The protocol can do what the results are about: some run registers any given client, fans any
      given broadcast out to it while it stays registered, and queues it if the filter lets it pass. */
  lemma FanOutHappens(cli: Client, b: Broadcast) returns (run: seq<State>)
    ensures IsRun(run) && |run| == 16 && FanOutSpan(run, 9, 14) && run[9].log == [b]
    ensures forall n | 9 <= n <= 14 :: Steady(run[n], cli, false)
    ensures Inbox(run[15], cli) ==
            if cli.user !in b.ignoreUsers && cli.conn !in b.ignoreConns && !b.rtcJoined then [0] else []
  {
    hide IsRun, Next;
    Begins(cli, b);
    Visits(cli, b);
    Delivers(cli, b);
    Finishes(cli, b);
    run := Registers(cli);
    hide Registering;
    run := Append(run, Accept(b), Serving(cli, b, 0, Idle, map[]));
    run := Append(run, Take, Serving(cli, b, 1, Ranging(0, {}), map[]));
    run := Append(run, Pick(cli.user), Serving(cli, b, 1, Locking(0, {}, cli.user, 0), map[]));
    run := Append(run, Enter, Serving(cli, b, 1, Visiting(0, {}, cli.user, 0, {cli.conn}), map[]));
    run := Append(run, Deliver(cli.conn), Serving(cli, b, 1, Visiting(0, {}, cli.user, 0, {}), Queued(cli, b)));
    run := Append(run, Leave, Serving(cli, b, 1, Ranging(0, {cli.user}), Queued(cli, b)));
    run := Append(run, FinishRange, Serving(cli, b, 1, Idle, Queued(cli, b)));
  }
}
