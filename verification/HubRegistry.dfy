/** The hub's two-level client registry and the fan-out of broadcasts over it, in every
    interleaving of registering, unregistering, counting and closing threads with the serving
    goroutine. One step is one atomic load, map operation or lock operation, or one access to
    a container under its lock. */
module HubRegistry {

  /** `id` tells apart client objects that share user and connection. */
  datatype Client = Client(id: nat, user: string, conn: string)

  /** A per-user map of clients with its read-write lock. `born` is the number of broadcasts
      that the hub had taken when the container was created. */
  datatype Container = Container(user: string, members: map<string, Client>, writer: Option<nat>,
                                 readers: set<nat>, serving: bool, born: nat)

  datatype Option<+T> = None | Some(value: T)

  type Cid = nat

  /** Where a thread stands in RegClient, UnRegClient, OnlineCount or Close. `held` are the
      stale containers whose locks a retrying RegClient has not released yet. */
  datatype Pc =
    | RegStart(cli: Client, held: set<Cid>)
    | RegLoad(cli: Client, held: set<Cid>)
    | RegLock(cli: Client, held: set<Cid>, cid: Cid)
    | RegCheck(cli: Client, held: set<Cid>, cid: Cid)
    | RegInsert(cli: Client, held: set<Cid>, cid: Cid)
    | RegRelease(ok: bool, held: set<Cid>)
    | UnStart(cli: Client)
    | UnLoad(cli: Client)
    | UnLock(cli: Client, cid: Cid)
    | UnDelete(cli: Client, cid: Cid)
    | UnPrune(cli: Client, cid: Cid)
    | UnRelease(ok: bool, cid: Cid)
    | OnLoad(user: string)
    | OnLock(user: string, cid: Cid)
    | OnPrune(user: string, cid: Cid)
    | OnRelease(cid: Cid)
    | CloseStart
    | CloseNext
    | CloseLock(cid: Cid)
    | CloseClear(cid: Cid)
    | CloseRelease(cid: Cid)
    | End(ok: bool)

  /** A broadcast and whom it skips. */
  datatype Broadcast = Broadcast(data: nat, ignoreUsers: seq<string>, ignoreConns: seq<string>, rtcJoined: bool)

  /** Where the serving goroutine stands: between messages, ranging over the users, waiting for
      a container's lock, or going through its clients. */
  datatype Serve =
    | Idle
    | Ranging(msg: nat, visited: set<string>)
    | Locking(msg: nat, visited: set<string>, user: string, cid: Cid)
    | Visiting(msg: nat, visited: set<string>, user: string, cid: Cid, rest: set<string>)
    | Stopped

  datatype State = State(
    closed: bool,
    clients: map<string, Cid>,
    conts: map<Cid, Container>,
    retired: set<Cid>,
    threads: map<nat, Pc>,
    log: seq<Broadcast>,
    taken: nat,
    serve: Serve,
    inbox: map<Client, seq<nat>>,
    closedClients: set<Client>,
    rtc: set<Client>)

  datatype Step =
    | Spawn(t: nat, pc: Pc)
    | Thread(t: nat)
    | Attach(t: nat, cid: Cid)
    | Unlock(t: nat, cid: Cid)
    | Sweep(t: nat, user: string)
    | Accept(b: Broadcast)
    | Take
    | Pick(user: string)
    | Enter
    | Deliver(conn: string)
    | Leave
    | FinishRange
    | Stop
    | CloseClient(cli: Client)
    | SetRtc(cli: Client, joined: bool)

  const BROADCAST_CAPACITY := 128

  function Inbox(s: State, cli: Client): seq<nat> {
    if cli in s.inbox then s.inbox[cli] else []
  }

  /** Whether the filter of a broadcast lets a client have it. */
  predicate Passes(b: Broadcast, cli: Client, rtc: set<Client>) {
    && cli.user !in b.ignoreUsers && cli.conn !in b.ignoreConns
    && (b.rtcJoined ==> cli in rtc)
  }

  ghost predicate Init(s: State) {
    && !s.closed && s.clients == map[] && s.conts == map[] && s.retired == {} && s.threads == map[]
    && s.log == [] && s.taken == 0 && s.serve == Idle && s.inbox == map[] && s.closedClients == {} && s.rtc == {}
  }

  predicate Fresh(pc: Pc) {
    (pc.RegStart? && pc.held == {}) || pc.UnStart? || pc.OnLoad? || pc.CloseStart?
  }

  // ---- Threads ----

  /** What one step of a thread does: its new place, the container it rewrites (if any), what it
      does to the map, and the clients it closes. */
  datatype Effect = Effect(pc: Pc, change: Change, mapping: Mapping, closes: bool, kicked: set<Client>)

  datatype Change = NoChange | Change(cid: Cid, cont: Container)

  /** Unmap is CompareAndDelete: the mapping goes only if it still leads to that container. */
  datatype Mapping = Keep | Unmap(user: string, cid: Cid) | MapTo(user: string, cid: Cid)

  function Moved(pc: Pc): Effect {
    Effect(pc, NoChange, Keep, false, {})
  }

  function Rewrites(pc: Pc, cid: Cid, cont: Container): Effect {
    Effect(pc, Change(cid, cont), Keep, false, {})
  }

  predicate Unmaps(s: State, mapping: Mapping) {
    mapping.Unmap? && mapping.user in s.clients && s.clients[mapping.user] == mapping.cid
  }

  function Apply(s: State, t: nat, e: Effect): State {
    s.(threads := s.threads[t := e.pc],
       conts := if e.change.Change? then s.conts[e.change.cid := e.change.cont] else s.conts,
       clients := if Unmaps(s, e.mapping) then s.clients - {e.mapping.user}
                  else if e.mapping.MapTo? then s.clients[e.mapping.user := e.mapping.cid]
                  else s.clients,
       retired := if Unmaps(s, e.mapping) then s.retired + {e.mapping.cid} else s.retired,
       closed := s.closed || e.closes,
       closedClients := s.closedClients + e.kicked)
  }

  predicate Free(c: Container) {
    c.writer.None? && c.readers == {} && !c.serving
  }

  /** Takes the write lock of a free container. */
  function LockEffect(s: State, t: nat, cid: Cid, pc: Pc): Option<Effect> {
    if cid in s.conts && Free(s.conts[cid]) then Some(Rewrites(pc, cid, s.conts[cid].(writer := Some(t)))) else None
  }

  function UnlockEffect(s: State, cid: Cid, pc: Pc): Option<Effect> {
    if cid in s.conts then Some(Rewrites(pc, cid, s.conts[cid].(writer := None))) else None
  }

  function RegEffect(s: State, t: nat, pc: Pc): Option<Effect> {
    match pc
    case RegStart(cli, held) => Some(Moved(if s.closed then RegRelease(false, held) else RegLoad(cli, held)))
    case RegLoad(cli, held) =>
      if cli.user in s.clients then Some(Moved(RegLock(cli, held, s.clients[cli.user]))) else None
    case RegLock(cli, held, cid) => LockEffect(s, t, cid, RegCheck(cli, held, cid))
    case RegCheck(cli, held, cid) =>
      // A stale container stays locked while RegClient calls itself again.
      Some(Moved(if cli.user in s.clients && s.clients[cli.user] == cid then RegInsert(cli, held, cid)
                 else RegStart(cli, held + {cid})))
    case RegInsert(cli, held, cid) =>
      if cid !in s.conts then None
      else if cli.conn in s.conts[cid].members then Some(Moved(RegRelease(false, held + {cid})))
      else
        var c := s.conts[cid];
        Some(Rewrites(RegRelease(true, held + {cid}), cid, c.(members := c.members[cli.conn := cli])))
    case RegRelease(ok, held) => if held == {} then Some(Moved(End(ok))) else None
    case _ => None
  }

  function UnEffect(s: State, t: nat, pc: Pc): Option<Effect> {
    match pc
    case UnStart(cli) => Some(Moved(if s.closed then End(false) else UnLoad(cli)))
    case UnLoad(cli) => Some(Moved(if cli.user in s.clients then UnLock(cli, s.clients[cli.user]) else End(false)))
    case UnLock(cli, cid) => LockEffect(s, t, cid, UnDelete(cli, cid))
    case UnDelete(cli, cid) =>
      if cid !in s.conts then None
      else if cli.conn !in s.conts[cid].members then Some(Moved(UnRelease(false, cid)))
      else
        var members := s.conts[cid].members - {cli.conn};
        Some(Rewrites(if members == map[] then UnPrune(cli, cid) else UnRelease(true, cid),
                      cid, s.conts[cid].(members := members)))
    case UnPrune(cli, cid) => Some(Effect(UnRelease(true, cid), NoChange, Unmap(cli.user, cid), false, {}))
    case UnRelease(ok, cid) => UnlockEffect(s, cid, End(ok))
    case _ => None
  }

  function OnEffect(s: State, t: nat, pc: Pc): Option<Effect> {
    match pc
    case OnLoad(user) => Some(Moved(if user in s.clients then OnLock(user, s.clients[user]) else End(true)))
    case OnLock(user, cid) =>
      if cid in s.conts && s.conts[cid].writer.None? then
        var c := s.conts[cid];
        Some(Rewrites(if c.members == map[] then OnPrune(user, cid) else OnRelease(cid),
                      cid, c.(readers := c.readers + {t})))
      else None
    case OnPrune(user, cid) => Some(Effect(OnRelease(cid), NoChange, Unmap(user, cid), false, {}))
    case OnRelease(cid) =>
      if cid in s.conts then Some(Rewrites(End(true), cid, s.conts[cid].(readers := s.conts[cid].readers - {t}))) else None
    case _ => None
  }

  function CloseEffect(s: State, t: nat, pc: Pc): Option<Effect> {
    match pc
    case CloseStart =>
      Some(if s.closed then Moved(End(false)) else Effect(CloseNext, NoChange, Keep, true, {}))
    case CloseNext => Some(Moved(End(true)))
    case CloseLock(cid) => LockEffect(s, t, cid, CloseClear(cid))
    case CloseClear(cid) =>
      if cid in s.conts then
        var c := s.conts[cid];
        Some(Effect(CloseRelease(cid), Change(cid, c.(members := map[])), Keep, false, c.members.Values))
      else None
    case CloseRelease(cid) => UnlockEffect(s, cid, CloseNext)
    case _ => None
  }

  /** The effect of a thread's step, if it is enabled. */
  function ThreadEffect(s: State, step: Step): Option<Effect>
    requires step.Thread? || step.Attach? || step.Unlock? || step.Sweep?
    requires step.t in s.threads
  {
    var pc := s.threads[step.t];
    match step
    case Thread(t) =>
      if RegEffect(s, t, pc).Some? then RegEffect(s, t, pc)
      else if UnEffect(s, t, pc).Some? then UnEffect(s, t, pc)
      else if OnEffect(s, t, pc).Some? then OnEffect(s, t, pc)
      else CloseEffect(s, t, pc)
    // LoadOrStore with no mapping yet attaches a new container.
    case Attach(t, cid) =>
      if pc.RegLoad? && pc.cli.user !in s.clients && cid !in s.conts then
        Some(Effect(RegLock(pc.cli, pc.held, cid),
                    Change(cid, Container(pc.cli.user, map[], None, {}, false, s.taken)),
                    MapTo(pc.cli.user, cid), false, {}))
      else None
    // RegClient returns through its deferred unlocks.
    case Unlock(t, cid) =>
      if pc.RegRelease? && cid in pc.held then UnlockEffect(s, cid, RegRelease(pc.ok, pc.held - {cid})) else None
    // Close ranges over the map: it unmaps a container, then clears it under its lock.
    case Sweep(t, user) =>
      if pc.CloseNext? && user in s.clients then
        Some(Effect(CloseLock(s.clients[user]), NoChange, Unmap(user, s.clients[user]), false, {}))
      else None
  }

  // ---- serve ----

  ghost predicate TakeStep(s: State, s': State) {
    s.serve.Idle? && s.taken < |s.log| && s' == s.(taken := s.taken + 1, serve := Ranging(s.taken, {}))
  }

  ghost predicate PickStep(s: State, user: string, s': State) {
    && s.serve.Ranging? && user in s.clients && user !in s.serve.visited
    && s' == s.(serve := Locking(s.serve.msg, s.serve.visited, user, s.clients[user]))
  }

  function SetServing(s: State, cid: Cid, serving: bool): State
    requires cid in s.conts
  {
    s.(conts := s.conts[cid := s.conts[cid].(serving := serving)])
  }

  ghost predicate EnterStep(s: State, s': State) {
    && s.serve.Locking? && s.serve.cid in s.conts && s.conts[s.serve.cid].writer.None?
    && var v := s.serve;
       s' == SetServing(s, v.cid, true).(serve := Visiting(v.msg, v.visited, v.user, v.cid, s.conts[v.cid].members.Keys))
  }

  ghost predicate DeliverStep(s: State, conn: string, s': State) {
    && s.serve.Visiting? && conn in s.serve.rest && s.serve.cid in s.conts
    && conn in s.conts[s.serve.cid].members && s.serve.msg < |s.log|
    && var cli := s.conts[s.serve.cid].members[conn];
       var served := s.(serve := s.serve.(rest := s.serve.rest - {conn}));
       s' == if Passes(s.log[s.serve.msg], cli, s.rtc) && cli !in s.closedClients
             then served.(inbox := s.inbox[cli := Inbox(s, cli) + [s.serve.msg]])
             else served
  }

  ghost predicate LeaveStep(s: State, s': State) {
    && s.serve.Visiting? && s.serve.rest == {} && s.serve.cid in s.conts
    && s' == SetServing(s, s.serve.cid, false).(serve := Ranging(s.serve.msg, s.serve.visited + {s.serve.user}))
  }

  /** Range ends once every mapping that was there from its start on has been visited. */
  ghost predicate FinishStep(s: State, s': State) {
    && s.serve.Ranging?
    && (forall u | u in s.clients ::
          u in s.serve.visited || (s.clients[u] in s.conts && s.conts[s.clients[u]].born > s.serve.msg))
    && s' == s.(serve := Idle)
  }

  ghost predicate ServeStep(s: State, step: Step, s': State) {
    match step
    case Take => TakeStep(s, s')
    case Pick(user) => PickStep(s, user, s')
    case Enter => EnterStep(s, s')
    case Deliver(conn) => DeliverStep(s, conn, s')
    case Leave => LeaveStep(s, s')
    case FinishRange => FinishStep(s, s')
    case Stop => s.serve.Idle? && s.closed && s' == s.(serve := Stopped)
    case _ => false
  }

  // ---- Everything else ----

  ghost predicate OtherStep(s: State, step: Step, s': State) {
    match step
    case Spawn(t, pc) => t !in s.threads && Fresh(pc) && s' == s.(threads := s.threads[t := pc])
    case Accept(b) => |s.log| - s.taken < BROADCAST_CAPACITY && s' == s.(log := s.log + [b])
    case CloseClient(cli) => s' == s.(closedClients := s.closedClients + {cli})
    case SetRtc(cli, joined) => s' == s.(rtc := if joined then s.rtc + {cli} else s.rtc - {cli})
    case _ => false
  }

  ghost predicate ThreadStep(s: State, step: Step, s': State) {
    && (step.Thread? || step.Attach? || step.Unlock? || step.Sweep?)
    && step.t in s.threads && ThreadEffect(s, step).Some?
    && s' == Apply(s, step.t, ThreadEffect(s, step).value)
  }

  ghost predicate Next(s: State, step: Step, s': State) {
    ThreadStep(s, step, s') || ServeStep(s, step, s') || OtherStep(s, step, s')
  }

  ghost predicate CanStep(s: State, s': State) {
    exists step :: Next(s, step, s')
  }

  ghost predicate StepAt(run: seq<State>, i: nat)
    requires i + 1 < |run|
  {
    CanStep(run[i], run[i + 1])
  }

  ghost predicate IsRun(run: seq<State>) {
    run != [] && Init(run[0]) && forall i | 0 <= i < |run| - 1 :: StepAt(run, i)
  }

  // ---- The invariant ----

  /** The containers a thread has write-locked. */
  function WriteHeld(pc: Pc): set<Cid> {
    match pc
    case RegStart(_, held) => held
    case RegLoad(_, held) => held
    case RegLock(_, held, _) => held
    case RegCheck(_, held, cid) => held + {cid}
    case RegInsert(_, held, cid) => held + {cid}
    case RegRelease(_, held) => held
    case UnDelete(_, cid) => {cid}
    case UnPrune(_, cid) => {cid}
    case UnRelease(_, cid) => {cid}
    case CloseClear(cid) => {cid}
    case CloseRelease(cid) => {cid}
    case _ => {}
  }

  function ReadHeld(pc: Pc): set<Cid> {
    match pc
    case OnPrune(_, cid) => {cid}
    case OnRelease(cid) => {cid}
    case _ => {}
  }

  /** A container id in use for a user. */
  ghost predicate For(s: State, cid: Cid, user: string) {
    cid in s.conts && s.conts[cid].user == user
  }

  ghost predicate PcFits(s: State, pc: Pc) {
    && WriteHeld(pc) <= s.conts.Keys && ReadHeld(pc) <= s.conts.Keys
    && match pc
       case RegLock(cli, _, cid) => For(s, cid, cli.user)
       case RegCheck(cli, _, cid) => For(s, cid, cli.user)
       case RegInsert(cli, _, cid) => For(s, cid, cli.user)
       case UnLock(cli, cid) => For(s, cid, cli.user)
       case UnDelete(cli, cid) => For(s, cid, cli.user)
       case UnPrune(cli, cid) => For(s, cid, cli.user)
       case OnLock(user, cid) => For(s, cid, user)
       case OnPrune(user, cid) => For(s, cid, user)
       case CloseNext => s.closed
       case CloseLock(cid) => cid in s.conts && s.closed
       case CloseClear(_) => s.closed
       case CloseRelease(_) => s.closed
       case _ => true
  }

  /** Every mapping leads to a container of that user that was never removed from the map. */
  ghost predicate Mappings(s: State) {
    && (forall u | u in s.clients :: For(s, s.clients[u], u) && s.clients[u] !in s.retired)
    && s.retired <= s.conts.Keys
  }

  /** Every client sits in a container of its user, under its connection. */
  ghost predicate Members(s: State) {
    forall cid, conn | cid in s.conts && conn in s.conts[cid].members ::
      s.conts[cid].members[conn].conn == conn && s.conts[cid].members[conn].user == s.conts[cid].user
  }

  ghost predicate PcsFit(s: State) {
    forall t {:trigger s.threads[t]} | t in s.threads :: PcFits(s, s.threads[t])
  }

  /** The lock words say who holds what. */
  ghost predicate Writers(s: State) {
    forall cid, t | cid in s.conts ::
      s.conts[cid].writer == Some(t) <==> t in s.threads && cid in WriteHeld(s.threads[t])
  }

  ghost predicate Readers(s: State) {
    forall cid, t | cid in s.conts ::
      t in s.conts[cid].readers <==> t in s.threads && cid in ReadHeld(s.threads[t])
  }

  /** A writer holds a container alone. */
  ghost predicate Exclusive(s: State) {
    && (s.serve.Visiting? ==> s.serve.cid in s.conts)
    && forall cid | cid in s.conts ::
      && (s.conts[cid].writer.Some? ==> s.conts[cid].readers == {} && !s.conts[cid].serving)
      && (s.conts[cid].serving <==> s.serve.Visiting? && s.serve.cid == cid)
  }

  /** While the hub is open, only mapped containers hold clients. */
  ghost predicate Attached(s: State) {
    !s.closed ==> forall cid | cid in s.conts && s.conts[cid].members != map[] ::
      s.conts[cid].user in s.clients && s.clients[s.conts[cid].user] == cid
  }

  /** What a thread has checked under a lock still holds. */
  ghost predicate PcChecked(s: State, pc: Pc) {
    match pc
    case UnPrune(_, cid) => cid in s.conts && s.conts[cid].members == map[]
    case OnPrune(_, cid) => cid in s.conts && s.conts[cid].members == map[]
    case RegInsert(cli, _, cid) => s.closed || (cli.user in s.clients && s.clients[cli.user] == cid)
    case _ => true
  }

  ghost predicate Checked(s: State) {
    forall t {:trigger s.threads[t]} | t in s.threads :: PcChecked(s, s.threads[t])
  }

  ghost predicate RegistryInv(s: State) {
    && Mappings(s) && Members(s) && PcsFit(s) && Checked(s)
    && Writers(s) && Readers(s) && Exclusive(s) && Attached(s)
  }

  // ---- Effects that keep the invariant ----

  /** What an effect may do to the container it rewrites. */
  ghost predicate ChangeFits(s: State, t: nat, e: Effect)
    requires t in s.threads
  {
    var pc := s.threads[t];
    match e.change
    case NoChange => WriteHeld(e.pc) == WriteHeld(pc) && ReadHeld(e.pc) == ReadHeld(pc) && !e.mapping.MapTo?
    case Change(cid, c') =>
      if cid !in s.conts then
        && e.mapping == MapTo(c'.user, cid) && c'.user !in s.clients
        && c'.members == map[] && c'.writer.None? && c'.readers == {} && !c'.serving
        && WriteHeld(e.pc) == WriteHeld(pc) <= s.conts.Keys && ReadHeld(e.pc) == ReadHeld(pc) <= s.conts.Keys
      else
        var c := s.conts[cid];
        && e.mapping.Keep?
        && c'.user == c.user && c'.born == c.born && c'.serving == c.serving
        // locks
        && (c'.writer == c.writer || (c.writer.None? && c'.writer == Some(t)) || (c.writer == Some(t) && c'.writer.None?))
        && WriteHeld(e.pc) - {cid} == WriteHeld(pc) - {cid}
        && (cid in WriteHeld(e.pc) <==> c'.writer == Some(t))
        && c'.readers - {t} == c.readers - {t}
        && ReadHeld(e.pc) - {cid} == ReadHeld(pc) - {cid}
        && (cid in ReadHeld(e.pc) <==> t in c'.readers)
        && (c'.writer.Some? ==> c'.readers == {} && !c'.serving)
        // members change under the write lock only
        && (c'.members != c.members ==> cid in WriteHeld(pc))
        && (forall conn | conn in c'.members ::
              c'.members[conn].conn == conn && c'.members[conn].user == c'.user)
        && (c'.members != map[] && c.members == map[] ==> s.closed || (c.user in s.clients && s.clients[c.user] == cid))
  }

  /** An open hub unmaps only containers that the thread holds locked and knows to be empty. */
  ghost predicate MappingFits(s: State, t: nat, e: Effect)
    requires t in s.threads
  {
    e.mapping.Unmap? && !s.closed ==>
      && e.mapping.cid in s.conts && s.conts[e.mapping.cid].members == map[]
      && e.mapping.cid in WriteHeld(s.threads[t]) + ReadHeld(s.threads[t])
  }

  ghost predicate EffectFits(s: State, t: nat, e: Effect)
    requires t in s.threads
  {
    && ChangeFits(s, t, e) && MappingFits(s, t, e)
    && PcFits(Apply(s, t, e), e.pc) && PcChecked(Apply(s, t, e), e.pc)
  }

  /** The invariant at thread t, container cid and user. */
  ghost predicate Around(s: State, t: nat, cid: Cid, user: string)
    requires t in s.threads
  {
    && PcFits(s, s.threads[t]) && PcChecked(s, s.threads[t])
    && (user in s.clients ==> For(s, s.clients[user], user))
    && (cid in s.conts ==>
          var c := s.conts[cid];
          && (c.writer == Some(t) <==> cid in WriteHeld(s.threads[t]))
          && (t in c.readers <==> cid in ReadHeld(s.threads[t]))
          && (c.writer.Some? ==> c.readers == {} && !c.serving)
          && (forall conn | conn in c.members :: c.members[conn].conn == conn && c.members[conn].user == c.user)
          && (s.closed || c.members == map[] || (c.user in s.clients && s.clients[c.user] == cid)))
  }

  lemma LookAround(s: State, t: nat, cid: Cid, user: string)
    requires RegistryInv(s) && t in s.threads
    ensures Around(s, t, cid, user)
  {
    hide PcFits, PcChecked, WriteHeld, ReadHeld;
    assert PcFits(s, s.threads[t]) && PcChecked(s, s.threads[t]);
  }

  lemma RegEffectFits(s: State, t: nat, e: Effect)
    requires RegistryInv(s) && t in s.threads && RegEffect(s, t, s.threads[t]) == Some(e)
    ensures EffectFits(s, t, e)
  {
    hide RegistryInv;
    var pc := s.threads[t];
    LookAround(s, t, if pc.RegLock? || pc.RegCheck? || pc.RegInsert? then pc.cid else 0,
               if pc.RegLoad? then pc.cli.user else "");
  }

  lemma UnLookupFits(s: State, t: nat, e: Effect)
    requires RegistryInv(s) && t in s.threads && UnEffect(s, t, s.threads[t]) == Some(e)
    requires s.threads[t].UnStart? || s.threads[t].UnLoad? || s.threads[t].UnLock?
    ensures EffectFits(s, t, e)
  {
    hide RegistryInv;
    var pc := s.threads[t];
    LookAround(s, t, if pc.UnLock? then pc.cid else 0, if pc.UnLoad? then pc.cli.user else "");
  }

  lemma UnDeleteFits(s: State, t: nat, e: Effect)
    requires RegistryInv(s) && t in s.threads && UnEffect(s, t, s.threads[t]) == Some(e)
    requires s.threads[t].UnDelete?
    ensures EffectFits(s, t, e)
  {
    hide RegistryInv;
    var pc := s.threads[t];
    LookAround(s, t, pc.cid, "");
  }

  lemma UnPruneFits(s: State, t: nat, e: Effect)
    requires RegistryInv(s) && t in s.threads && UnEffect(s, t, s.threads[t]) == Some(e)
    requires s.threads[t].UnPrune?
    ensures EffectFits(s, t, e)
  {
    hide RegistryInv;
    var pc := s.threads[t];
    LookAround(s, t, pc.cid, "");
  }

  lemma UnReleaseFits(s: State, t: nat, e: Effect)
    requires RegistryInv(s) && t in s.threads && UnEffect(s, t, s.threads[t]) == Some(e)
    requires s.threads[t].UnRelease?
    ensures EffectFits(s, t, e)
  {
    hide RegistryInv;
    var pc := s.threads[t];
    LookAround(s, t, pc.cid, "");
  }

  lemma UnEffectFits(s: State, t: nat, e: Effect)
    requires RegistryInv(s) && t in s.threads && UnEffect(s, t, s.threads[t]) == Some(e)
    ensures EffectFits(s, t, e)
  {
    hide RegistryInv, EffectFits;
    var pc := s.threads[t];
    if pc.UnDelete? {
      UnDeleteFits(s, t, e);
    } else if pc.UnPrune? {
      UnPruneFits(s, t, e);
    } else if pc.UnRelease? {
      UnReleaseFits(s, t, e);
    } else {
      UnLookupFits(s, t, e);
    }
  }

  lemma OnLockFits(s: State, t: nat, e: Effect)
    requires RegistryInv(s) && t in s.threads && OnEffect(s, t, s.threads[t]) == Some(e)
    requires s.threads[t].OnLoad? || s.threads[t].OnLock?
    ensures EffectFits(s, t, e)
  {
    hide RegistryInv;
    var pc := s.threads[t];
    LookAround(s, t, if pc.OnLock? then pc.cid else 0, if pc.OnLoad? then pc.user else "");
  }

  lemma OnPruneFits(s: State, t: nat, e: Effect)
    requires RegistryInv(s) && t in s.threads && OnEffect(s, t, s.threads[t]) == Some(e)
    requires s.threads[t].OnPrune? || s.threads[t].OnRelease?
    ensures EffectFits(s, t, e)
  {
    hide RegistryInv;
    var pc := s.threads[t];
    LookAround(s, t, pc.cid, "");
  }

  lemma OnEffectFits(s: State, t: nat, e: Effect)
    requires RegistryInv(s) && t in s.threads && OnEffect(s, t, s.threads[t]) == Some(e)
    ensures EffectFits(s, t, e)
  {
    hide RegistryInv, EffectFits;
    var pc := s.threads[t];
    if pc.OnPrune? || pc.OnRelease? {
      OnPruneFits(s, t, e);
    } else {
      OnLockFits(s, t, e);
    }
  }

  lemma CloseStartFits(s: State, t: nat, e: Effect)
    requires RegistryInv(s) && t in s.threads && CloseEffect(s, t, s.threads[t]) == Some(e)
    requires s.threads[t].CloseStart? || s.threads[t].CloseNext? || s.threads[t].CloseLock?
    ensures EffectFits(s, t, e)
  {
    hide RegistryInv;
    var pc := s.threads[t];
    LookAround(s, t, if pc.CloseLock? then pc.cid else 0, "");
  }

  lemma CloseClearFits(s: State, t: nat, e: Effect)
    requires RegistryInv(s) && t in s.threads && CloseEffect(s, t, s.threads[t]) == Some(e)
    requires s.threads[t].CloseClear? || s.threads[t].CloseRelease?
    ensures EffectFits(s, t, e)
  {
    hide RegistryInv;
    var pc := s.threads[t];
    LookAround(s, t, pc.cid, "");
  }

  lemma CloseEffectFits(s: State, t: nat, e: Effect)
    requires RegistryInv(s) && t in s.threads && CloseEffect(s, t, s.threads[t]) == Some(e)
    ensures EffectFits(s, t, e)
  {
    hide RegistryInv, EffectFits;
    var pc := s.threads[t];
    if pc.CloseClear? || pc.CloseRelease? {
      CloseClearFits(s, t, e);
    } else {
      CloseStartFits(s, t, e);
    }
  }

  lemma OtherEffectFits(s: State, step: Step, e: Effect)
    requires RegistryInv(s) && (step.Attach? || step.Unlock? || step.Sweep?) && step.t in s.threads
    requires ThreadEffect(s, step) == Some(e)
    ensures EffectFits(s, step.t, e)
  {
    hide RegistryInv;
    LookAround(s, step.t, if step.Sweep? then 0 else step.cid, if step.Sweep? then step.user else "");
  }

  lemma ThreadEffectFits(s: State, step: Step, e: Effect)
    requires RegistryInv(s) && (step.Thread? || step.Attach? || step.Unlock? || step.Sweep?) && step.t in s.threads
    requires ThreadEffect(s, step) == Some(e)
    ensures EffectFits(s, step.t, e)
  {
    hide RegistryInv, EffectFits, RegEffect, UnEffect, OnEffect, CloseEffect;
    var t := step.t;
    if !step.Thread? {
      OtherEffectFits(s, step, e);
    } else if RegEffect(s, t, s.threads[t]).Some? {
      RegEffectFits(s, t, e);
    } else if UnEffect(s, t, s.threads[t]).Some? {
      UnEffectFits(s, t, e);
    } else if OnEffect(s, t, s.threads[t]).Some? {
      OnEffectFits(s, t, e);
    } else {
      CloseEffectFits(s, t, e);
    }
  }

  // ---- Every step keeps the invariant ----

  /** What no step takes back: containers, their users and ages, removals, and the closed flag. */
  ghost predicate Grows(s: State, s': State) {
    && s.conts.Keys <= s'.conts.Keys && s.retired <= s'.retired && (s.closed ==> s'.closed)
    && forall cid {:trigger s.conts[cid]} {:trigger s'.conts[cid]} | cid in s.conts ::
         s'.conts[cid].user == s.conts[cid].user && s'.conts[cid].born == s.conts[cid].born
  }

  lemma EffectGrows(s: State, t: nat, e: Effect)
    requires t in s.threads && EffectFits(s, t, e)
    ensures Grows(s, Apply(s, t, e))
  {
    hide PcFits, PcChecked, WriteHeld, ReadHeld, MappingFits;
  }

  lemma PcFitsStays(s: State, s': State, pc: Pc)
    requires PcFits(s, pc) && Grows(s, s')
    ensures PcFits(s', pc)
  {
  }

  lemma EffectKeepsMappings(s: State, t: nat, e: Effect)
    requires Mappings(s) && t in s.threads && EffectFits(s, t, e)
    ensures Mappings(Apply(s, t, e))
  {
    hide PcFits, PcChecked, WriteHeld, ReadHeld, MappingFits;
  }

  lemma EffectKeepsMembers(s: State, t: nat, e: Effect)
    requires Members(s) && t in s.threads && EffectFits(s, t, e)
    ensures Members(Apply(s, t, e))
  {
    hide PcFits, PcChecked, WriteHeld, ReadHeld, MappingFits;
  }

  lemma EffectKeepsPcsFit(s: State, t: nat, e: Effect)
    requires PcsFit(s) && t in s.threads && EffectFits(s, t, e)
    ensures PcsFit(Apply(s, t, e))
  {
    EffectGrows(s, t, e);
    var s' := Apply(s, t, e);
    hide PcFits, PcChecked, WriteHeld, ReadHeld, MappingFits, ChangeFits, Grows;
    forall t0 | t0 in s'.threads ensures PcFits(s', s'.threads[t0]) {
      if t0 != t {
        assert PcFits(s, s.threads[t0]);
        PcFitsStays(s, s', s.threads[t0]);
      }
    }
  }

  lemma HeldExist(s: State, t: nat)
    requires PcsFit(s) && t in s.threads
    ensures WriteHeld(s.threads[t]) <= s.conts.Keys && ReadHeld(s.threads[t]) <= s.conts.Keys
  {
    hide WriteHeld, ReadHeld;
    assert PcFits(s, s.threads[t]);
  }

  lemma EffectKeepsWriters(s: State, t: nat, e: Effect)
    requires PcsFit(s) && Writers(s) && t in s.threads && EffectFits(s, t, e)
    ensures Writers(Apply(s, t, e))
  {
    hide PcsFit, PcFits, PcChecked, WriteHeld, ReadHeld, MappingFits;
    var s' := Apply(s, t, e);
    forall cid, t0 | cid in s'.conts
      ensures s'.conts[cid].writer == Some(t0) <==> t0 in s'.threads && cid in WriteHeld(s'.threads[t0])
    {
      if t0 in s.threads { HeldExist(s, t0); }
      assert cid in s.conts ==> (s.conts[cid].writer == Some(t0) <==> t0 in s.threads && cid in WriteHeld(s.threads[t0]));
      assert t0 == t && e.change.Change? && cid != e.change.cid && cid in s.conts ==>
               (cid in WriteHeld(e.pc) - {e.change.cid} <==> cid in WriteHeld(s.threads[t]) - {e.change.cid});
    }
  }

  lemma EffectKeepsReaders(s: State, t: nat, e: Effect)
    requires PcsFit(s) && Readers(s) && t in s.threads && EffectFits(s, t, e)
    ensures Readers(Apply(s, t, e))
  {
    hide PcsFit, PcFits, PcChecked, WriteHeld, ReadHeld, MappingFits;
    var s' := Apply(s, t, e);
    forall cid, t0 | cid in s'.conts
      ensures t0 in s'.conts[cid].readers <==> t0 in s'.threads && cid in ReadHeld(s'.threads[t0])
    {
      if t0 in s.threads { HeldExist(s, t0); }
      assert cid in s.conts ==> (t0 in s.conts[cid].readers <==> t0 in s.threads && cid in ReadHeld(s.threads[t0]));
      if e.change.Change? && cid in s.conts {
        if cid != e.change.cid && t0 == t {
          assert cid in ReadHeld(e.pc) - {e.change.cid} <==> cid in ReadHeld(s.threads[t]) - {e.change.cid};
        } else if cid == e.change.cid && t0 != t {
          assert t0 in e.change.cont.readers - {t} <==> t0 in s.conts[cid].readers - {t};
        }
      }
    }
  }

  lemma EffectKeepsExclusive(s: State, t: nat, e: Effect)
    requires Exclusive(s) && t in s.threads && EffectFits(s, t, e)
    ensures Exclusive(Apply(s, t, e))
  {
    hide PcFits, PcChecked, WriteHeld, ReadHeld, MappingFits;
  }

  lemma EffectKeepsAttached(s: State, t: nat, e: Effect)
    requires Attached(s) && t in s.threads && EffectFits(s, t, e)
    ensures Attached(Apply(s, t, e))
  {
    hide PcFits, PcChecked, WriteHeld, ReadHeld;
  }

  /** A container that another thread holds keeps its clients and its mapping. */
  lemma OthersHold(s: State, t: nat, e: Effect, t0: nat, cid: Cid)
    requires PcsFit(s) && Writers(s) && Readers(s) && Exclusive(s)
    requires t in s.threads && t0 in s.threads && t0 != t && EffectFits(s, t, e)
    requires cid in s.conts && cid in WriteHeld(s.threads[t0]) + ReadHeld(s.threads[t0])
    ensures cid !in WriteHeld(s.threads[t])
    ensures cid in WriteHeld(s.threads[t0]) ==> cid !in ReadHeld(s.threads[t])
    ensures Apply(s, t, e).conts[cid].members == s.conts[cid].members
  {
    hide PcsFit, PcFits, PcChecked, WriteHeld, ReadHeld, MappingFits;
    assert s.conts[cid].writer == Some(t0) <==> cid in WriteHeld(s.threads[t0]);
    assert s.conts[cid].writer == Some(t) <==> cid in WriteHeld(s.threads[t]);
    assert t0 in s.conts[cid].readers <==> cid in ReadHeld(s.threads[t0]);
    assert t in s.conts[cid].readers <==> cid in ReadHeld(s.threads[t]);
  }

  lemma OtherStaysChecked(s: State, t: nat, e: Effect, t0: nat)
    requires PcsFit(s) && Writers(s) && Readers(s) && Exclusive(s) && Checked(s)
    requires t in s.threads && t0 in s.threads && t0 != t && EffectFits(s, t, e)
    ensures PcChecked(Apply(s, t, e), s.threads[t0])
  {
    hide PcsFit, Writers, Readers, Exclusive, PcFits;
    var pc := s.threads[t0];
    assert PcChecked(s, pc);
    if pc.UnPrune? || pc.OnPrune? {
      OthersHold(s, t, e, t0, pc.cid);
    } else if pc.RegInsert? {
      HeldExist(s, t0);
      OthersHold(s, t, e, t0, pc.cid);
    }
  }

  lemma EffectKeepsChecked(s: State, t: nat, e: Effect)
    requires PcsFit(s) && Writers(s) && Readers(s) && Exclusive(s) && Checked(s)
    requires t in s.threads && EffectFits(s, t, e)
    ensures Checked(Apply(s, t, e))
  {
    hide PcsFit, Writers, Readers, Exclusive, PcChecked, PcFits, ChangeFits, MappingFits;
    var s' := Apply(s, t, e);
    forall t0 | t0 in s'.threads ensures PcChecked(s', s'.threads[t0]) {
      if t0 != t { OtherStaysChecked(s, t, e, t0); }
    }
  }

  lemma EffectKeeps(s: State, t: nat, e: Effect)
    requires RegistryInv(s) && t in s.threads && EffectFits(s, t, e)
    ensures RegistryInv(Apply(s, t, e))
  {
    hide Mappings, Members, PcsFit, Checked, Writers, Readers, Exclusive, Attached, EffectFits, Apply;
    EffectKeepsMappings(s, t, e);
    EffectKeepsMembers(s, t, e);
    EffectKeepsPcsFit(s, t, e);
    EffectKeepsChecked(s, t, e);
    EffectKeepsWriters(s, t, e);
    EffectKeepsReaders(s, t, e);
    EffectKeepsExclusive(s, t, e);
    EffectKeepsAttached(s, t, e);
  }

  /** Steps that leave threads, containers and map alone. */
  lemma QuietKeeps(s: State, s': State)
    requires RegistryInv(s)
    requires s'.closed == s.closed && s'.clients == s.clients && s'.conts == s.conts
    requires s'.retired == s.retired && s'.threads == s.threads
    requires s'.serve.Visiting? == s.serve.Visiting? && (s.serve.Visiting? ==> s'.serve.cid == s.serve.cid)
    ensures RegistryInv(s')
  {
    hide WriteHeld, ReadHeld, PcFits, PcChecked;
    forall t | t in s'.threads ensures PcFits(s', s'.threads[t]) && PcChecked(s', s'.threads[t]) {
      assert PcFits(s, s.threads[t]) && PcChecked(s, s.threads[t]);
      PcFitsStays(s, s', s.threads[t]);
      assert PcChecked(s', s.threads[t]) by { SameChecked(s, s', s.threads[t]); }
    }
  }

  lemma SameChecked(s: State, s': State, pc: Pc)
    requires PcChecked(s, pc) && s'.clients == s.clients && s'.closed == s.closed && s.conts.Keys <= s'.conts.Keys
    requires forall cid | cid in s.conts :: s'.conts[cid].members == s.conts[cid].members
    ensures PcChecked(s', pc)
  {
  }

  lemma SpawnKeeps(s: State, t: nat, pc: Pc)
    requires RegistryInv(s) && t !in s.threads && Fresh(pc)
    ensures RegistryInv(s.(threads := s.threads[t := pc]))
  {
    hide PcFits, PcChecked, WriteHeld, ReadHeld;
    var s' := s.(threads := s.threads[t := pc]);
    FreshFits(s', pc);
    forall t0 | t0 in s'.threads ensures PcFits(s', s'.threads[t0]) && PcChecked(s', s'.threads[t0]) {
      if t0 != t {
        assert PcFits(s, s.threads[t0]) && PcChecked(s, s.threads[t0]);
        PcFitsStays(s, s', s.threads[t0]);
        SameChecked(s, s', s.threads[t0]);
      }
    }
  }

  lemma FreshFits(s: State, pc: Pc)
    requires Fresh(pc)
    ensures PcFits(s, pc) && PcChecked(s, pc) && WriteHeld(pc) == {} && ReadHeld(pc) == {}
  {
  }

  /** The serving goroutine takes or gives back a read lock. */
  lemma ServingKeeps(s: State, cid: Cid, serving: bool, serve': Serve)
    requires RegistryInv(s) && cid in s.conts && (serving ==> s.conts[cid].writer.None?)
    requires serve'.Visiting? == serving && (serving ==> serve'.cid == cid && !s.serve.Visiting?)
    requires !serving ==> s.serve.Visiting? && s.serve.cid == cid
    ensures RegistryInv(SetServing(s, cid, serving).(serve := serve'))
  {
    hide PcFits, PcChecked, WriteHeld, ReadHeld;
    var s' := SetServing(s, cid, serving).(serve := serve');
    forall t | t in s'.threads ensures PcFits(s', s'.threads[t]) && PcChecked(s', s'.threads[t]) {
      assert PcFits(s, s.threads[t]) && PcChecked(s, s.threads[t]);
      PcFitsStays(s, s', s.threads[t]);
      SameChecked(s, s', s.threads[t]);
    }
  }

  lemma ThreadKeepsRegistry(s: State, step: Step, s': State)
    requires RegistryInv(s) && ThreadStep(s, step, s')
    ensures RegistryInv(s') && Grows(s, s')
  {
    hide RegistryInv, EffectFits, ThreadEffect, Apply, Grows;
    var e := ThreadEffect(s, step).value;
    ThreadEffectFits(s, step, e);
    EffectKeeps(s, step.t, e);
    EffectGrows(s, step.t, e);
  }

  lemma ServeKeepsRegistry(s: State, step: Step, s': State)
    requires RegistryInv(s) && ServeStep(s, step, s')
    ensures RegistryInv(s') && Grows(s, s')
  {
    hide RegistryInv;
    if step.Enter? {
      ServingKeeps(s, s.serve.cid, true, s'.serve);
    } else if step.Leave? {
      ServingKeeps(s, s.serve.cid, false, s'.serve);
    } else {
      QuietKeeps(s, s');
    }
  }

  lemma OtherKeepsRegistry(s: State, step: Step, s': State)
    requires RegistryInv(s) && OtherStep(s, step, s')
    ensures RegistryInv(s') && Grows(s, s')
  {
    hide RegistryInv;
    if step.Spawn? {
      SpawnKeeps(s, step.t, step.pc);
    } else {
      QuietKeeps(s, s');
    }
  }

  lemma NextKeepsRegistry(s: State, step: Step, s': State)
    requires RegistryInv(s) && Next(s, step, s')
    ensures RegistryInv(s') && Grows(s, s')
  {
    hide RegistryInv, ThreadStep, ServeStep, OtherStep, Grows;
    if ThreadStep(s, step, s') {
      ThreadKeepsRegistry(s, step, s');
    } else if ServeStep(s, step, s') {
      ServeKeepsRegistry(s, step, s');
    } else {
      OtherKeepsRegistry(s, step, s');
    }
  }

  lemma InitRegistry(s: State)
    requires Init(s)
    ensures RegistryInv(s)
  {
  }

  lemma {:induction false} RunKeepsRegistry(run: seq<State>, i: nat)
    requires IsRun(run) && i < |run|
    ensures RegistryInv(run[i])
  {
    hide RegistryInv, Next;
    if i == 0 {
      InitRegistry(run[0]);
    } else {
      RunKeepsRegistry(run, i - 1);
      assert StepAt(run, i - 1);
      var step :| Next(run[i - 1], step, run[i]);
      NextKeepsRegistry(run[i - 1], step, run[i]);
    }
  }

  // ---- What callers can rely on ----

  /** GetClientByConnID. */
  function Find(s: State, user: string, conn: string): Option<Client> {
    if user in s.clients && s.clients[user] in s.conts && conn in s.conts[s.clients[user]].members
    then Some(s.conts[s.clients[user]].members[conn])
    else None
  }

  ghost predicate Registered(s: State, cli: Client) {
    Find(s, cli.user, cli.conn) == Some(cli)
  }

  /** While the hub is open, whatever sits in any container is what a lookup finds, and a
      container that was removed from the map is empty. */
  lemma OpenHubFinds(run: seq<State>, i: nat)
    requires IsRun(run) && i < |run| && !run[i].closed
    ensures forall cid, conn | cid in run[i].conts && conn in run[i].conts[cid].members ::
              Find(run[i], run[i].conts[cid].user, conn) == Some(run[i].conts[cid].members[conn])
    ensures forall cid | cid in run[i].retired :: cid in run[i].conts && run[i].conts[cid].members == map[]
  {
    hide IsRun, PcsFit, Checked, Writers, Readers, Exclusive;
    RunKeepsRegistry(run, i);
  }

  /** Once removed from the map, a container is never mapped again. */
  lemma {:induction false} RetiredStaysRetired(run: seq<State>, i: nat, j: nat, cid: Cid)
    requires IsRun(run) && i <= j < |run| && cid in run[i].retired
    ensures cid in run[j].retired && cid !in run[j].clients.Values
  {
    hide RegistryInv, Next;
    RunKeepsRegistry(run, j);
    if i < j {
      RetiredStaysRetired(run, i, j - 1, cid);
      RunKeepsRegistry(run, j - 1);
      assert StepAt(run, j - 1);
      var step :| Next(run[j - 1], step, run[j]);
      NextKeepsRegistry(run[j - 1], step, run[j]);
    }
    assert cid in run[j].retired;
    RetiredUnmapped(run[j], cid);
  }

  /** A mapping that a step takes away leaves its container retired. */
  lemma UnmappedIsRetired(s: State, step: Step, s': State, user: string)
    requires RegistryInv(s) && Next(s, step, s') && user in s.clients
    ensures (user in s'.clients && s'.clients[user] == s.clients[user]) || s.clients[user] in s'.retired
  {
    hide RegistryInv, ThreadEffect;
    if ThreadStep(s, step, s') {
      ThreadEffectFits(s, step, ThreadEffect(s, step).value);
      hide PcFits, PcChecked, WriteHeld, ReadHeld;
    }
  }

  lemma RetiredUnmapped(s: State, cid: Cid)
    requires RegistryInv(s) && cid in s.retired
    ensures cid !in s.clients.Values
  {
    hide Members, PcsFit, Checked, Writers, Readers, Exclusive, Attached;
  }

  lemma InsertMoves(s: State, step: Step, s': State, t: nat)
    requires Next(s, step, s') && t in s.threads && s.threads[t].RegInsert?
    requires t in s'.threads && s'.threads[t] != s.threads[t]
    ensures step == Thread(t) && RegEffect(s, t, s.threads[t]).Some?
    ensures s' == Apply(s, t, RegEffect(s, t, s.threads[t]).value)
  {
    hide RegEffect;
    NoneButReg(s, t);
  }

  lemma NoneButReg(s: State, t: nat)
    requires t in s.threads && s.threads[t].RegInsert?
    ensures UnEffect(s, t, s.threads[t]).None? && OnEffect(s, t, s.threads[t]).None? && CloseEffect(s, t, s.threads[t]).None?
  {
  }

  /** The moment RegClient's insertion succeeds on an open hub, lookups find the client, whatever
      UnRegClient and OnlineCount did to the map in between. */
  lemma RegisteringIsFound(run: seq<State>, i: nat, t: nat, cli: Client)
    requires IsRun(run) && i + 1 < |run| && !run[i].closed
    requires t in run[i].threads && run[i].threads[t].RegInsert? && run[i].threads[t].cli == cli
    requires t in run[i + 1].threads && run[i + 1].threads[t].RegRelease? && run[i + 1].threads[t].ok
    ensures Registered(run[i + 1], cli)
  {
    hide IsRun, Mappings, Members, PcsFit, Writers, Readers, Exclusive, Attached, Next;
    RunKeepsRegistry(run, i);
    var s, s' := run[i], run[i + 1];
    assert PcChecked(s, s.threads[t]);
    StepsOf(run, i);
    var step :| Next(s, step, s');
    InsertMoves(s, step, s', t);
  }

  lemma StepsOf(run: seq<State>, i: nat)
    requires IsRun(run) && i + 1 < |run|
    ensures StepAt(run, i)
  {
  }

  /** A client that stays registered on an open hub stays in the same container. */
  lemma StaysPut(s: State, step: Step, s': State, cli: Client)
    requires RegistryInv(s) && Next(s, step, s') && !s'.closed
    requires Registered(s, cli) && Registered(s', cli)
    ensures s'.clients[cli.user] == s.clients[cli.user]
  {
    hide RegistryInv, ThreadEffect;
    if ThreadStep(s, step, s') {
      ThreadEffectFits(s, step, ThreadEffect(s, step).value);
      hide PcFits, PcChecked, WriteHeld, ReadHeld;
    }
  }

  // ---- Who enters and who leaves ----

  /** The client sits in the container under its connection. */
  ghost predicate Sits(s: State, cid: Cid, cli: Client) {
    cid in s.conts && cli.conn in s.conts[cid].members && s.conts[cid].members[cli.conn] == cli
  }

  /** The step is the deletion of UnRegClient, for this user and this connection. */
  ghost predicate Deletes(s: State, step: Step, cid: Cid, user: string, conn: string) {
    && step.Thread? && step.t in s.threads && s.threads[step.t].UnDelete?
    && s.threads[step.t].cid == cid && s.threads[step.t].cli.user == user && s.threads[step.t].cli.conn == conn
  }

  /** The step is the insertion of RegClient, for this client. */
  ghost predicate Inserts(s: State, step: Step, cid: Cid, cli: Client) {
    step.Thread? && step.t in s.threads && s.threads[step.t].RegInsert?
    && s.threads[step.t].cid == cid && s.threads[step.t].cli == cli
  }

  /** The step is that of Close which empties the container and closes its clients. */
  ghost predicate Clears(s: State, step: Step, cid: Cid) {
    step.Thread? && step.t in s.threads && s.threads[step.t] == CloseClear(cid)
  }

  lemma RegMembers(s: State, t: nat, e: Effect, cid: Cid)
    requires t in s.threads && RegEffect(s, t, s.threads[t]) == Some(e) && cid in s.conts
    ensures var pc, members := s.threads[t], s.conts[cid].members;
            Apply(s, t, e).conts[cid].members ==
            if pc.RegInsert? && pc.cid == cid && pc.cli.conn !in members then members[pc.cli.conn := pc.cli] else members
  {
  }

  lemma UnMembers(s: State, t: nat, e: Effect, cid: Cid)
    requires t in s.threads && UnEffect(s, t, s.threads[t]) == Some(e) && cid in s.conts
    ensures var pc, members := s.threads[t], s.conts[cid].members;
            Apply(s, t, e).conts[cid].members ==
            if pc.UnDelete? && pc.cid == cid then members - {pc.cli.conn} else members
  {
  }

  lemma OnMembers(s: State, t: nat, e: Effect, cid: Cid)
    requires t in s.threads && OnEffect(s, t, s.threads[t]) == Some(e) && cid in s.conts
    ensures Apply(s, t, e).conts[cid].members == s.conts[cid].members
  {
  }

  lemma CloseMembers(s: State, t: nat, e: Effect, cid: Cid)
    requires t in s.threads && CloseEffect(s, t, s.threads[t]) == Some(e) && cid in s.conts
    ensures Apply(s, t, e).conts[cid].members == if s.threads[t] == CloseClear(cid) then map[] else s.conts[cid].members
    ensures s.threads[t] == CloseClear(cid) ==> s.conts[cid].members.Values <= Apply(s, t, e).closedClients
  {
  }

  /** What a thread's step does to the clients in one container. */
  lemma ThreadMembers(s: State, step: Step, s': State, cid: Cid)
    requires ThreadStep(s, step, s')
    ensures cid !in s.conts && cid in s'.conts ==> s'.conts[cid].members == map[]
    ensures cid in s.conts ==>
              && cid in s'.conts
              && var members, pc := s.conts[cid].members, s.threads[step.t];
                 || s'.conts[cid].members == members
                 || (step.Thread? && pc.RegInsert? && pc.cid == cid && pc.cli.conn !in members
                     && s'.conts[cid].members == members[pc.cli.conn := pc.cli])
                 || (step.Thread? && pc.UnDelete? && pc.cid == cid && s'.conts[cid].members == members - {pc.cli.conn})
                 || (step.Thread? && pc == CloseClear(cid) && s'.conts[cid].members == map[] && members.Values <= s'.closedClients)
  {
    var t, e := step.t, ThreadEffect(s, step).value;
    if cid in s.conts && step.Thread? {
      hide RegEffect, UnEffect, OnEffect, CloseEffect, Apply;
      if RegEffect(s, t, s.threads[t]).Some? {
        RegMembers(s, t, e, cid);
      } else if UnEffect(s, t, s.threads[t]).Some? {
        UnMembers(s, t, e, cid);
      } else if OnEffect(s, t, s.threads[t]).Some? {
        OnMembers(s, t, e, cid);
      } else {
        CloseMembers(s, t, e, cid);
      }
      ContainersStay(s, t, e, cid);
    } else if step.Thread? {
      OldContainers(s, t, e);
      hide RegEffect, UnEffect, OnEffect, CloseEffect;
    }
  }

  lemma ContainersStay(s: State, t: nat, e: Effect, cid: Cid)
    requires cid in s.conts
    ensures cid in Apply(s, t, e).conts
  {
  }

  /** Only attaching makes a container. */
  lemma OldContainers(s: State, t: nat, e: Effect)
    requires t in s.threads && ThreadEffect(s, Thread(t)) == Some(e)
    ensures e.change.Change? ==> e.change.cid in s.conts
  {
  }

  /** Other steps leave the clients where they are. */
  lemma OtherMembers(s: State, step: Step, s': State, cid: Cid)
    requires ServeStep(s, step, s') || OtherStep(s, step, s')
    ensures cid in s'.conts <==> cid in s.conts
    ensures cid in s.conts ==> s'.conts[cid].members == s.conts[cid].members
  {
  }

  /** A client leaves a container by a deletion for its user and connection, or when Close empties the
      container, which closes the client. */
  lemma LeavesOnlyBy(s: State, step: Step, s': State, cid: Cid, cli: Client)
    requires RegistryInv(s) && Next(s, step, s') && Sits(s, cid, cli) && !Sits(s', cid, cli)
    ensures Deletes(s, step, cid, cli.user, cli.conn) || (Clears(s, step, cid) && cli in s'.closedClients)
  {
    MemberAt(s, cid, cli.conn);
    if ThreadStep(s, step, s') {
      ThreadMembers(s, step, s', cid);
      if s.threads[step.t].UnDelete? { DeletesForUser(s, step.t); }
      hide RegistryInv, ThreadStep;
    } else {
      hide RegistryInv, ThreadStep, ServeStep, OtherStep;
      OtherMembers(s, step, s', cid);
    }
  }

  lemma MemberAt(s: State, cid: Cid, conn: string)
    requires RegistryInv(s) && cid in s.conts && conn in s.conts[cid].members
    ensures s.conts[cid].members[conn].conn == conn && s.conts[cid].members[conn].user == s.conts[cid].user
  {
    hide Mappings, PcsFit, Checked, Writers, Readers, Exclusive, Attached;
  }

  lemma DeletesForUser(s: State, t: nat)
    requires RegistryInv(s) && t in s.threads && s.threads[t].UnDelete?
    ensures For(s, s.threads[t].cid, s.threads[t].cli.user)
  {
    assert PcFits(s, s.threads[t]);
  }

  /** A client enters a container only by its own insertion, which finds nobody under its connection. */
  lemma EntersOnlyBy(s: State, step: Step, s': State, cid: Cid, cli: Client)
    requires Next(s, step, s') && !Sits(s, cid, cli) && Sits(s', cid, cli)
    ensures Inserts(s, step, cid, cli) && cid in s.conts && cli.conn !in s.conts[cid].members
  {
    if ThreadStep(s, step, s') {
      ThreadMembers(s, step, s', cid);
      hide ThreadStep;
    } else {
      hide ThreadStep, ServeStep, OtherStep;
      OtherMembers(s, step, s', cid);
    }
  }

  /** On an open hub, being registered is sitting in some container. */
  lemma RegisteredSits(s: State, cid: Cid, cli: Client)
    requires RegistryInv(s)
    ensures Registered(s, cli) ==> cli.user in s.clients && Sits(s, s.clients[cli.user], cli)
    ensures !s.closed && Sits(s, cid, cli) && s.conts[cid].user == cli.user ==> Registered(s, cli)
  {
    hide PcsFit, Checked, Writers, Readers, Exclusive;
    if !s.closed && Sits(s, cid, cli) { assert s.conts[cid].members != map[]; }
  }

  /** The step that closes the hub touches nothing else, and clearing comes later. */
  lemma Closing(s: State, step: Step, s': State)
    requires RegistryInv(s) && Next(s, step, s') && !s.closed
    ensures s'.closed ==> s'.clients == s.clients && s'.conts == s.conts
    ensures forall cid :: !Clears(s, step, cid)
  {
    if step.Thread? && step.t in s.threads && s.threads[step.t].CloseClear? {
      assert PcFits(s, s.threads[step.t]);
    }
    hide RegistryInv;
    if ThreadStep(s, step, s') && step.Thread? { ClosesOnly(s, step.t, ThreadEffect(s, step).value); }
    hide RegEffect, UnEffect, OnEffect, CloseEffect;
  }

  lemma ClosesOnly(s: State, t: nat, e: Effect)
    requires t in s.threads && ThreadEffect(s, Thread(t)) == Some(e)
    ensures e.closes ==> e.change.NoChange? && e.mapping.Keep?
  {
  }

  /** On an open hub, a step that ends the registration of a client is the deletion by an UnRegClient
      for that user and connection: all other clients stay registered. */
  lemma UnregistersOnly(run: seq<State>, i: nat, step: Step, other: Client)
    requires IsRun(run) && i + 1 < |run| && Next(run[i], step, run[i + 1]) && !run[i].closed
    requires Registered(run[i], other) && !Registered(run[i + 1], other)
    ensures step.Thread? && step.t in run[i].threads && run[i].threads[step.t].UnDelete?
    ensures run[i].threads[step.t].cli.user == other.user && run[i].threads[step.t].cli.conn == other.conn
  {
    hide IsRun, RegistryInv;
    var s, s' := run[i], run[i + 1];
    RunKeepsRegistry(run, i);
    NextKeepsRegistry(s, step, s');
    Closing(s, step, s');
    hide Next;
    RegisteredSits(s, 0, other);
    var cid := s.clients[other.user];
    RegisteredSits(s', cid, other);
    MemberAt(s, cid, other.conn);
    if !Sits(s', cid, other) { LeavesOnlyBy(s, step, s', cid, other); }
  }

  /** On an open hub, a step that begins the registration of a client is its own insertion, which finds
      nobody under its user and connection. */
  lemma RegistersOnly(run: seq<State>, i: nat, step: Step, other: Client)
    requires IsRun(run) && i + 1 < |run| && Next(run[i], step, run[i + 1]) && !run[i].closed
    requires !Registered(run[i], other) && Registered(run[i + 1], other)
    ensures step.Thread? && step.t in run[i].threads && run[i].threads[step.t].RegInsert?
    ensures run[i].threads[step.t].cli == other && Find(run[i], other.user, other.conn).None?
  {
    hide IsRun, RegistryInv;
    var s, s' := run[i], run[i + 1];
    RunKeepsRegistry(run, i);
    NextKeepsRegistry(s, step, s');
    RegisteredSits(s', 0, other);
    var cid := s'.clients[other.user];
    MemberAt(s', cid, other.conn);
    hide Next;
    assert cid in s.conts ==> s.conts[cid].user == other.user;
    RegisteredSits(s, cid, other);
    if !Sits(s, cid, other) {
      EntersOnlyBy(s, step, s', cid, other);
      InsertsMapped(s, step.t);
    }
  }

  lemma InsertsMapped(s: State, t: nat)
    requires RegistryInv(s) && !s.closed && t in s.threads && s.threads[t].RegInsert?
    ensures var pc := s.threads[t]; pc.cli.user in s.clients && s.clients[pc.cli.user] == pc.cid
  {
    assert PcChecked(s, s.threads[t]);
  }

  // ---- What the calls answer ----

  predicate Acts(step: Step, t: nat) {
    (step.Thread? || step.Attach? || step.Unlock? || step.Sweep?) && step.t == t
  }

  /** Only its own steps move a thread. */
  lemma MovesItself(s: State, step: Step, s': State, t: nat)
    requires Next(s, step, s') && t in s.threads
    ensures t in s'.threads && (Acts(step, t) ==> ThreadStep(s, step, s')) && (!Acts(step, t) ==> s'.threads[t] == s.threads[t])
  {
    hide ThreadEffect, TakeStep, PickStep, EnterStep, DeliverStep, LeaveStep, FinishStep;
    if !ThreadStep(s, step, s') && ServeStep(s, step, s') { ServeLeavesThreads(s, step, s'); }
  }

  lemma ServeLeavesThreads(s: State, step: Step, s': State)
    requires ServeStep(s, step, s')
    ensures s'.threads == s.threads
  {
  }

  /** Where a RegClient of this client may stand. */
  predicate InRegClient(pc: Pc, cli: Client) {
    match pc
    case RegStart(c, _) => c == cli
    case RegLoad(c, _) => c == cli
    case RegLock(c, _, _) => c == cli
    case RegCheck(c, _, _) => c == cli
    case RegInsert(c, _, _) => c == cli
    case RegRelease(_, _) => true
    case End(_) => true
    case _ => false
  }

  /** It answers success, now or once it has released its locks. */
  predicate SaysRegistered(pc: Pc) {
    (pc.RegRelease? && pc.ok) || pc == End(true)
  }

  /** The thread puts its client into a container where nobody had the connection. */
  ghost predicate PutsIn(s: State, s': State, t: nat, cli: Client) {
    && t in s.threads && s.threads[t].RegInsert? && s.threads[t].cli == cli
    && s.threads[t].cid in s.conts && cli.conn !in s.conts[s.threads[t].cid].members
    && Sits(s', s.threads[t].cid, cli) && t in s'.threads && !s'.threads[t].RegInsert?
  }

  lemma RegMoves(s: State, step: Step, s': State, t: nat, cli: Client)
    requires PcsFit(s) && ThreadStep(s, step, s') && Acts(step, t) && InRegClient(s.threads[t], cli)
    ensures InRegClient(s'.threads[t], cli)
    ensures SaysRegistered(s'.threads[t]) <==> SaysRegistered(s.threads[t]) || PutsIn(s, s', t, cli)
    ensures s'.threads[t] == End(false) || s'.threads[t].RegRelease? ==>
              || SaysRegistered(s'.threads[t]) || s.threads[t] == End(false) || s.threads[t].RegRelease?
              || s.closed || (s.threads[t].RegInsert? && cli.conn in s.conts[s.threads[t].cid].members)
  {
    assert PcFits(s, s.threads[t]);
    var e := ThreadEffect(s, step).value;
    hide PcsFit, UnEffect, OnEffect, CloseEffect;
    if step.Thread? { OtherKinds(s, t); }
  }

  lemma OtherKinds(s: State, t: nat)
    requires t in s.threads
    ensures RegEffect(s, t, s.threads[t]).Some? ==> ThreadEffect(s, Thread(t)) == RegEffect(s, t, s.threads[t])
    ensures (exists cli :: InRegClient(s.threads[t], cli)) ==>
              UnEffect(s, t, s.threads[t]).None? && OnEffect(s, t, s.threads[t]).None? && CloseEffect(s, t, s.threads[t]).None?
    ensures (exists cli :: InUnRegClient(s.threads[t], cli)) ==>
              RegEffect(s, t, s.threads[t]).None? && OnEffect(s, t, s.threads[t]).None? && CloseEffect(s, t, s.threads[t]).None?
    ensures InClose(s.threads[t]) ==>
              RegEffect(s, t, s.threads[t]).None? && UnEffect(s, t, s.threads[t]).None? && OnEffect(s, t, s.threads[t]).None?
  {
  }

  /** Where an UnRegClient of this client may stand. */
  predicate InUnRegClient(pc: Pc, cli: Client) {
    match pc
    case UnStart(c) => c == cli
    case UnLoad(c) => c == cli
    case UnLock(c, _) => c == cli
    case UnDelete(c, _) => c == cli
    case UnPrune(c, _) => c == cli
    case UnRelease(_, _) => true
    case End(_) => true
    case _ => false
  }

  predicate SaysUnregistered(pc: Pc) {
    pc.UnPrune? || (pc.UnRelease? && pc.ok) || pc == End(true)
  }

  /** The thread takes whoever has its client's connection out of a container. */
  ghost predicate TakesOut(s: State, s': State, t: nat, cli: Client) {
    && t in s.threads && s.threads[t].UnDelete? && s.threads[t].cli == cli
    && s.threads[t].cid in s.conts && cli.conn in s.conts[s.threads[t].cid].members
    && s.threads[t].cid in s'.conts && cli.conn !in s'.conts[s.threads[t].cid].members
    && t in s'.threads && !s'.threads[t].UnDelete?
  }

  lemma UnMoves(s: State, step: Step, s': State, t: nat, cli: Client)
    requires PcsFit(s) && ThreadStep(s, step, s') && Acts(step, t) && InUnRegClient(s.threads[t], cli)
    ensures InUnRegClient(s'.threads[t], cli)
    ensures SaysUnregistered(s'.threads[t]) <==> SaysUnregistered(s.threads[t]) || TakesOut(s, s', t, cli)
  {
    assert PcFits(s, s.threads[t]);
    var e := ThreadEffect(s, step).value;
    hide PcsFit, RegEffect, OnEffect, CloseEffect;
    if step.Thread? { OtherKinds(s, t); }
  }

  /** Having pruned a container, UnRegClient leaves its user without a mapping to it. */
  lemma PruneUnmaps(s: State, step: Step, s': State, t: nat)
    requires ThreadStep(s, step, s') && Acts(step, t) && s.threads[t].UnPrune?
    ensures var pc := s.threads[t]; !(pc.cli.user in s'.clients && s'.clients[pc.cli.user] == pc.cid)
  {
    hide RegEffect, OnEffect, CloseEffect;
    if step.Thread? { PruneKind(s, t); }
  }

  lemma PruneKind(s: State, t: nat)
    requires t in s.threads && s.threads[t].UnPrune?
    ensures RegEffect(s, t, s.threads[t]).None? && OnEffect(s, t, s.threads[t]).None? && CloseEffect(s, t, s.threads[t]).None?
  {
  }

  predicate InClose(pc: Pc) {
    pc.CloseStart? || pc.CloseNext? || pc.CloseLock? || pc.CloseClear? || pc.CloseRelease? || pc.End?
  }

  predicate SaysClosed(pc: Pc) {
    pc.CloseNext? || pc.CloseLock? || pc.CloseClear? || pc.CloseRelease? || pc == End(true)
  }

  /** The thread closes the hub. */
  ghost predicate Shuts(s: State, s': State, t: nat) {
    t in s.threads && s.threads[t].CloseStart? && !s.closed && s'.closed && t in s'.threads && !s'.threads[t].CloseStart?
  }

  lemma CloseMoves(s: State, step: Step, s': State, t: nat)
    requires ThreadStep(s, step, s') && Acts(step, t) && InClose(s.threads[t])
    ensures InClose(s'.threads[t])
    ensures SaysClosed(s'.threads[t]) <==> SaysClosed(s.threads[t]) || Shuts(s, s', t)
  {
    hide RegEffect, OnEffect, UnEffect;
    if step.Thread? { OtherKinds(s, t); }
  }

  ghost predicate PutsInAt(run: seq<State>, k: nat, t: nat, cli: Client)
    requires k + 1 < |run|
  {
    PutsIn(run[k], run[k + 1], t, cli)
  }

  /** RegClient answers success if and only if it has put its client into a container. */
  lemma {:induction false} RegClientAnswersIff(run: seq<State>, i: nat, j: nat, t: nat, cli: Client)
    requires IsRun(run) && i <= j < |run| && t in run[i].threads && run[i].threads[t] == RegStart(cli, {})
    ensures t in run[j].threads && InRegClient(run[j].threads[t], cli)
    ensures SaysRegistered(run[j].threads[t]) <==> exists k | i <= k < j :: PutsInAt(run, k, t, cli)
  {
    hide Next, ThreadStep, RegistryInv, InRegClient, SaysRegistered;
    if i < j {
      RegClientAnswersIff(run, i, j - 1, t, cli);
      RunKeepsRegistry(run, j - 1);
      FitOf(run[j - 1]);
      StepsOf(run, j - 1);
      var step :| Next(run[j - 1], step, run[j]);
      MovesItself(run[j - 1], step, run[j], t);
      if Acts(step, t) { RegMoves(run[j - 1], step, run[j], t, cli); }
      hide PutsIn;
      assert PutsIn(run[j - 1], run[j], t, cli) <==> PutsInAt(run, j - 1, t, cli);
      assert forall k | i <= k < j - 1 :: PutsInAt(run, k, t, cli) ==> exists n | i <= n < j :: PutsInAt(run, n, t, cli);
    } else {
      AtStart(cli);
    }
  }

  lemma AtStart(cli: Client)
    ensures InRegClient(RegStart(cli, {}), cli) && !SaysRegistered(RegStart(cli, {}))
    ensures InUnRegClient(UnStart(cli), cli) && !SaysUnregistered(UnStart(cli))
    ensures InClose(CloseStart) && !SaysClosed(CloseStart)
  {
  }

  lemma FitOf(s: State)
    requires RegistryInv(s)
    ensures PcsFit(s)
  {
  }

  ghost predicate TakesOutAt(run: seq<State>, k: nat, t: nat, cli: Client)
    requires k + 1 < |run|
  {
    TakesOut(run[k], run[k + 1], t, cli)
  }

  /** UnRegClient answers success if and only if it has taken its client's connection out of a container. */
  lemma {:induction false} UnRegClientAnswersIff(run: seq<State>, i: nat, j: nat, t: nat, cli: Client)
    requires IsRun(run) && i <= j < |run| && t in run[i].threads && run[i].threads[t] == UnStart(cli)
    ensures t in run[j].threads && InUnRegClient(run[j].threads[t], cli)
    ensures SaysUnregistered(run[j].threads[t]) <==> exists k | i <= k < j :: TakesOutAt(run, k, t, cli)
  {
    hide Next, ThreadStep, RegistryInv, InUnRegClient, SaysUnregistered;
    if i < j {
      UnRegClientAnswersIff(run, i, j - 1, t, cli);
      RunKeepsRegistry(run, j - 1);
      FitOf(run[j - 1]);
      StepsOf(run, j - 1);
      var step :| Next(run[j - 1], step, run[j]);
      MovesItself(run[j - 1], step, run[j], t);
      if Acts(step, t) { UnMoves(run[j - 1], step, run[j], t, cli); }
      hide TakesOut;
      assert TakesOut(run[j - 1], run[j], t, cli) <==> TakesOutAt(run, j - 1, t, cli);
      assert forall k | i <= k < j - 1 :: TakesOutAt(run, k, t, cli) ==> exists n | i <= n < j :: TakesOutAt(run, n, t, cli);
    } else {
      AtStart(cli);
    }
  }

  ghost predicate ShutsAt(run: seq<State>, k: nat, t: nat)
    requires k + 1 < |run|
  {
    Shuts(run[k], run[k + 1], t)
  }

  /** Close answers success if and only if it has closed the hub. */
  lemma {:induction false} CloseAnswersIff(run: seq<State>, i: nat, j: nat, t: nat)
    requires IsRun(run) && i <= j < |run| && t in run[i].threads && run[i].threads[t] == CloseStart
    ensures t in run[j].threads && InClose(run[j].threads[t])
    ensures SaysClosed(run[j].threads[t]) <==> exists k | i <= k < j :: ShutsAt(run, k, t)
  {
    hide Next, ThreadStep, RegistryInv, InClose, SaysClosed;
    if i < j {
      CloseAnswersIff(run, i, j - 1, t);
      RunKeepsRegistry(run, j - 1);
      FitOf(run[j - 1]);
      StepsOf(run, j - 1);
      var step :| Next(run[j - 1], step, run[j]);
      MovesItself(run[j - 1], step, run[j], t);
      if Acts(step, t) { CloseMoves(run[j - 1], step, run[j], t); }
      hide Shuts;
      assert Shuts(run[j - 1], run[j], t) <==> ShutsAt(run, j - 1, t);
      assert forall k | i <= k < j - 1 :: ShutsAt(run, k, t) ==> exists n | i <= n < j :: ShutsAt(run, n, t);
    } else {
      AtStart(Client(0, "", ""));
    }
  }

  /** How far UnRegClient may get while its client stays registered. */
  ghost predicate Removing(s: State, t: nat, cli: Client) {
    && t in s.threads
    && var pc := s.threads[t];
       || pc == UnStart(cli) || pc == UnLoad(cli)
       || (cli.user in s.clients && (pc == UnLock(cli, s.clients[cli.user]) || pc == UnDelete(cli, s.clients[cli.user])))
  }

  ghost predicate Removed(s: State, t: nat, cli: Client) {
    && t in s.threads
    && var pc := s.threads[t];
       (pc.UnPrune? && pc.cli == cli) || (pc.UnRelease? && pc.ok)
  }

  /** Only a thread's own step moves it. */
  lemma OnlyOwnSteps(s: State, step: Step, s': State, t: nat)
    requires Next(s, step, s') && t in s.threads && step != Thread(t)
    requires s.threads[t].UnStart? || s.threads[t].UnLoad? || s.threads[t].UnLock? || s.threads[t].UnDelete?
    ensures t in s'.threads && s'.threads[t] == s.threads[t]
  {
    hide RegEffect, UnEffect, OnEffect, CloseEffect;
  }

  lemma RemovingOwnStep(s: State, s': State, t: nat, cli: Client)
    requires Next(s, Thread(t), s') && !s.closed && Registered(s, cli) && Removing(s, t, cli)
    ensures (Removed(s', t, cli) && !Registered(s', cli)) || (s'.clients == s.clients && Removing(s', t, cli))
  {
    var pc := s.threads[t];
    assert RegEffect(s, t, pc).None?;
    hide RegEffect, OnEffect, CloseEffect;
    assert UnEffect(s, t, pc).Some? ==> ThreadEffect(s, Thread(t)) == UnEffect(s, t, pc);
    if UnEffect(s, t, pc).None? { NoOtherEffect(s, t); }
  }

  lemma NoOtherEffect(s: State, t: nat)
    requires t in s.threads
    requires s.threads[t].UnStart? || s.threads[t].UnLoad? || s.threads[t].UnLock? || s.threads[t].UnDelete?
    requires UnEffect(s, t, s.threads[t]).None?
    ensures ThreadEffect(s, Thread(t)).None?
  {
    hide UnEffect;
  }

  lemma RemovingStep(s: State, step: Step, s': State, t: nat, cli: Client)
    requires RegistryInv(s) && Next(s, step, s') && !s.closed && Registered(s, cli) && Removing(s, t, cli)
    ensures Removed(s', t, cli) || (t in s'.threads && s'.threads[t].UnStart?) || (t in s'.threads && s'.threads[t].UnLoad?)
            || (t in s'.threads && (s'.threads[t].UnLock? || s'.threads[t].UnDelete?))
    ensures !s'.closed && Registered(s', cli) ==> Removing(s', t, cli)
  {
    hide Next, RegistryInv, Registered;
    if !s'.closed && Registered(s', cli) { StaysPut(s, step, s', cli); }
    if step == Thread(t) {
      RemovingOwnStep(s, s', t, cli);
    } else {
      OnlyOwnSteps(s, step, s', t);
      if !s'.closed && Registered(s', cli) { StillMapped(s', cli); }
    }
  }

  lemma StillMapped(s: State, cli: Client)
    requires Registered(s, cli)
    ensures cli.user in s.clients
  {
  }

  /** UnRegClient never answers "not found" or "closed" for a client that is registered on an
      open hub up to that moment. */
  lemma {:induction false} UnRegisterSucceeds(run: seq<State>, i: nat, j: nat, t: nat, cli: Client)
    requires IsRun(run) && i <= j && j + 1 < |run|
    requires t in run[i].threads && run[i].threads[t] == UnStart(cli)
    requires forall k | i <= k <= j :: !run[k].closed && Registered(run[k], cli)
    ensures t in run[j + 1].threads
    ensures run[j + 1].threads[t] != End(false) && (run[j + 1].threads[t].UnRelease? ==> run[j + 1].threads[t].ok)
    ensures Removing(run[j], t, cli)
  {
    hide RegistryInv, Next, Registered;
    if i < j {
      UnRegisterSucceeds(run, i, j - 1, t, cli);
      RunKeepsRegistry(run, j - 1);
      StepsOf(run, j - 1);
      var step :| Next(run[j - 1], step, run[j]);
      RemovingStep(run[j - 1], step, run[j], t, cli);
    }
    RunKeepsRegistry(run, j);
    StepsOf(run, j);
    var step :| Next(run[j], step, run[j + 1]);
    RemovingStep(run[j], step, run[j + 1], t, cli);
  }
}
