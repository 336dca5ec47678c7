/** Members of a room: a table row for each, and a cache in front of the table that stores rows
    in a normalised form. The cache is shown to be invisible: every operation answers, and
    changes the table, exactly as `Reference` does, which has no cache. */
module RoomMembers {

  const GUEST := "00000000000000000000000000000001"

  // ---- Members ----

  /** A set of permissions, one bit each. */
  type Permissions = bv32

  const ALL: Permissions := 0xffff_ffff
  const NONE: Permissions := 0
  const GET_MOVIE_LIST: Permissions := 1
  const ADD_MOVIE: Permissions := 2
  const DELETE_MOVIE: Permissions := 4
  const EDIT_MOVIE: Permissions := 8
  const SET_CURRENT_MOVIE: Permissions := 16
  const SET_CURRENT_STATUS: Permissions := 32
  const SEND_CHAT_MESSAGE: Permissions := 64

  predicate Has(p: Permissions, q: Permissions) {
    p & q == q
  }

  function Add(p: Permissions, q: Permissions): Permissions {
    p | q
  }

  function Remove(p: Permissions, q: Permissions): Permissions {
    p & !q
  }

  /** What p has leaves nothing outside p, */
  lemma HasAll(p: Permissions, q: Permissions)
    requires Has(p, q)
    ensures q & !p == 0
  {
    BothParts(p, q);
  }

  /** and p has what leaves nothing outside it. */
  lemma NothingOutside(p: Permissions, q: Permissions)
    requires q & !p == 0
    ensures Has(p, q)
  {
    BothParts(p, q);
    NothingMore(p & q);
  }

  lemma BothParts(p: Permissions, q: Permissions)
    ensures (p & q) & !p == 0 && (p & q) | (q & !p) == q
  {
  }

  lemma NothingMore(p: Permissions)
    ensures p | 0 == p
  {
  }

  /** Add gives what has both. */
  lemma AddHasBoth(p: Permissions, q: Permissions)
    ensures Has(Add(p, q), p) && Has(Add(p, q), q)
  {
    Absorbs(p, q);
  }

  /** It is the least that does. */
  lemma AddIsLeast(p: Permissions, q: Permissions, r: Permissions)
    requires Has(r, p) && Has(r, q)
    ensures Has(r, Add(p, q))
  {
    Distributes(p, q, r);
  }

  lemma Absorbs(p: Permissions, q: Permissions)
    ensures (p | q) & p == p && (p | q) & q == q
  {
  }

  lemma Distributes(p: Permissions, q: Permissions, r: Permissions)
    ensures r & (p | q) == (r & p) | (r & q)
  {
  }

  /** Remove gives what is left of p outside q. */
  lemma RemoveIsRest(p: Permissions, q: Permissions)
    ensures Remove(p, q) & q == 0 && Remove(p, q) | (p & q) == p
  {
  }

  datatype Role = Unknown | Member | Admin | Creator {
    predicate IsAdmin() { Admin? || Creator? }
  }

  datatype Status = NotJoined | Banned | Pending | Active

  datatype Row = Row(permissions: Permissions, adminPermissions: Permissions, status: Status, role: Role)

  predicate HasAdminRight(row: Row, q: Permissions) {
    row.role.Creator? || (row.role.Admin? && row.status.Active? && Has(row.adminPermissions, q))
  }

  datatype Settings = Settings(
    userDefaultPermissions: Permissions, guestPermissions: Permissions, disableGuest: bool, joinNeedReview: bool,
    disableJoinNewUser: bool, canGetMovieList: bool, canAddMovie: bool, canDeleteMovie: bool, canEditMovie: bool,
    canSetCurrentMovie: bool, canSetCurrentStatus: bool, canSendChatMessage: bool)

  /** Whether the room's switches let plain members use these permissions at all. */
  predicate SwitchedOn(settings: Settings, q: Permissions) {
    && (Has(q, GET_MOVIE_LIST) ==> settings.canGetMovieList)
    && (Has(q, ADD_MOVIE) ==> settings.canAddMovie)
    && (Has(q, DELETE_MOVIE) ==> settings.canDeleteMovie)
    && (Has(q, EDIT_MOVIE) ==> settings.canEditMovie)
    && (Has(q, SET_CURRENT_MOVIE) ==> settings.canSetCurrentMovie)
    && (Has(q, SET_CURRENT_STATUS) ==> settings.canSetCurrentStatus)
    && (Has(q, SEND_CHAT_MESSAGE) ==> settings.canSendChatMessage)
  }

  /** How a row reads once loaded. */
  function Normalise(row: Row, user: string, creator: string, settings: Settings): Row {
    if user == creator then Row(ALL, ALL, Active, Creator)
    else if user == GUEST then
      Row(settings.guestPermissions, NONE, if row.status.Banned? then Active else row.status, Member)
    else if row.role.IsAdmin() then row.(permissions := ALL)
    else row
  }

  // ---- The table ----

  datatype Error = GuestDisabled | NotFound | Database | Refused

  datatype Reply = Loaded(member: Row) | Done | Answer(yes: bool) | RoleIs(role: Role) | Failed(error: Error)

  /** The updates of the members table, each of one row. */
  datatype Change =
    | Approve
    | SetStatus(status: Status)
    | SetPermissions(p: Permissions)
    | AddPermissions(p: Permissions)
    | RemovePermissions(p: Permissions)
    | SetAdminPermissions(p: Permissions)
    | AddAdminPermissions(p: Permissions)
    | RemoveAdminPermissions(p: Permissions)
    | MakeAdmin(p: Permissions)
    | MakeMember(p: Permissions)
    | Delete

  function ChangeRow(row: Row, change: Change): Row {
    match change
    case Approve => row.(status := Active)
    case SetStatus(status) => row.(status := status)
    case SetPermissions(p) => row.(permissions := p)
    case AddPermissions(p) => row.(permissions := Add(row.permissions, p))
    case RemovePermissions(p) => row.(permissions := Remove(row.permissions, p))
    case SetAdminPermissions(p) => row.(adminPermissions := p)
    case AddAdminPermissions(p) => row.(adminPermissions := Add(row.adminPermissions, p))
    case RemoveAdminPermissions(p) => row.(adminPermissions := Remove(row.adminPermissions, p))
    case MakeAdmin(p) => row.(role := Admin, permissions := ALL, adminPermissions := p)
    case MakeMember(p) => row.(role := Member, permissions := p, adminPermissions := NONE)
    case Delete => row
  }

  type Rows = map<string, Row>

  /** An update that fails, or that matches no row, changes nothing. */
  function Changed(rows: Rows, user: string, change: Change, fails: bool): (Rows, Reply) {
    if fails then (rows, Failed(Database))
    else if user !in rows || (change.Approve? && !rows[user].status.Pending?) then (rows, Failed(NotFound))
    else if change.Delete? then (rows - {user}, Done)
    else (rows[user := ChangeRow(rows[user], change)], Done)
  }

  class MemberTable {
    var rows: Rows

    constructor ()
      ensures rows == map[]
    {
      rows := map[];
    }

    method Get(user: string, fails: bool) returns (reply: Reply)
      ensures reply == if fails then Failed(Database) else if user in rows then Loaded(rows[user]) else Failed(NotFound)
    {
      if fails { return Failed(Database); }
      if user !in rows { return Failed(NotFound); }
      return Loaded(rows[user]);
    }

    method FirstOrCreate(user: string, row: Row, readFails: bool, writeFails: bool) returns (reply: Reply)
      modifies this
      ensures readFails || (user !in old(rows) && writeFails) ==> reply == Failed(Database) && rows == old(rows)
      ensures !readFails && user in old(rows) ==> reply == Loaded(old(rows)[user]) && rows == old(rows)
      ensures !readFails && user !in old(rows) && !writeFails ==> reply == Loaded(row) && rows == old(rows)[user := row]
    {
      if readFails { return Failed(Database); }
      if user in rows { return Loaded(rows[user]); }
      if writeFails { return Failed(Database); }
      rows := rows[user := row];
      return Loaded(row);
    }

    method Update(user: string, change: Change, fails: bool) returns (reply: Reply)
      modifies this
      ensures (rows, reply) == Changed(old(rows), user, change, fails)
    {
      if fails { return Failed(Database); }
      if user !in rows || (change.Approve? && !rows[user].status.Pending?) { return Failed(NotFound); }
      if change.Delete? {
        rows := rows - {user};
      } else {
        rows := rows[user := ChangeRow(rows[user], change)];
      }
      return Done;
    }
  }

  // ---- The operations, without a cache ----

  datatype Op =
    | LoadMember(user: string)
    | LoadOrCreate(user: string)
    | UserRole(user: string)
    | HasPermission(user: string, p: Permissions)
    | HasAdminPermission(user: string, p: Permissions)
    | SetSettings(settings: Settings)
    | SetMemberPermissions(user: string, p: Permissions)
    | AddMemberPermissions(user: string, p: Permissions)
    | RemoveMemberPermissions(user: string, p: Permissions)
    | ApprovePending(user: string)
    | Ban(user: string)
    | Unban(user: string)
    | DeleteMember(user: string)
    | ChangeAdminPermissions(user: string, change: Change)
    | SetAdmin(user: string, p: Permissions)
    | SetMember(user: string, p: Permissions)

  /** What lies outside the room during one operation: the site-wide guest switch, and whether
      the database fails to read or to write. */
  datatype Env = Env(enableGuest: bool, readFails: bool, writeFails: bool)

  /** What the database holds of a room. */
  datatype Stored = Stored(creator: string, settings: Settings, rows: Rows)

  predicate GuestShut(user: string, settings: Settings, env: Env) {
    user == GUEST && (settings.disableGuest || !env.enableGuest)
  }

  function Load(room: Stored, user: string, env: Env): Reply {
    if GuestShut(user, room.settings, env) then Failed(GuestDisabled)
    else if env.readFails then Failed(Database)
    else if user !in room.rows then Failed(NotFound)
    else Loaded(Normalise(room.rows[user], user, room.creator, room.settings))
  }

  /** The row of someone who has just joined. */
  function NewRow(creator: string, settings: Settings, user: string): Row {
    if user == creator then Row(ALL, ALL, Active, Creator)
    else Row(if user == GUEST then NONE else settings.userDefaultPermissions, NONE,
             if settings.joinNeedReview then Pending else Active, Member)
  }

  function Join(room: Stored, user: string, env: Env): (Stored, Reply) {
    if room.settings.disableJoinNewUser || GuestShut(user, room.settings, env) || env.readFails || user in room.rows
    then (room, Load(room, user, env))
    else if env.writeFails then (room, Failed(Database))
    else
      var joined := room.(rows := room.rows[user := NewRow(room.creator, room.settings, user)]);
      (joined, Load(joined, user, env))
  }

  predicate IsAdmin(room: Stored, user: string, env: Env) {
    user == room.creator || (Load(room, user, env).Loaded? && Load(room, user, env).member.role.IsAdmin())
  }

  function Saved(room: Stored, settings: Settings, env: Env): (Stored, Reply) {
    if env.writeFails then (room, Failed(Database)) else (room.(settings := settings), Done)
  }

  function GuestSaved(room: Stored, p: Permissions, env: Env): (Stored, Reply) {
    Saved(room, room.settings.(guestPermissions := p), env)
  }

  function Write(room: Stored, user: string, change: Change, env: Env): (Stored, Reply) {
    var (rows, reply) := Changed(room.rows, user, change, env.writeFails);
    (room.(rows := rows), reply)
  }

  predicate AdminChange(change: Change) {
    change.SetAdminPermissions? || change.AddAdminPermissions? || change.RemoveAdminPermissions?
  }

  function Permits(room: Stored, user: string, p: Permissions, loaded: Reply): Reply {
    Answer(user == room.creator
           || (loaded.Loaded? && (loaded.member.role.IsAdmin()
                                  || (SwitchedOn(room.settings, p) && Has(loaded.member.permissions, p)))))
  }

  /** Every operation on the stored room alone. */
  function Reference(room: Stored, op: Op, env: Env): (Stored, Reply) {
    match op
    case LoadMember(u) => (room, Load(room, u, env))
    case LoadOrCreate(u) => Join(room, u, env)
    case UserRole(u) =>
      (room, if u == room.creator then RoleIs(Creator)
             else match Load(room, u, env) case Loaded(m) => RoleIs(m.role) case other => other)
    case HasPermission(u, p) =>
      if u == room.creator then (room, Answer(true)) else (Join(room, u, env).0, Permits(room, u, p, Join(room, u, env).1))
    case HasAdminPermission(u, p) =>
      if u == room.creator then (room, Answer(true))
      else (Join(room, u, env).0, Answer(Join(room, u, env).1.Loaded? && HasAdminRight(Join(room, u, env).1.member, p)))
    case SetSettings(settings) => Saved(room, settings, env)
    case SetMemberPermissions(u, p) =>
      if u == room.creator then (room, Failed(Refused))
      else if u == GUEST then GuestSaved(room, p, env)
      else Write(room, u, SetPermissions(p), env)
    case AddMemberPermissions(u, p) =>
      if u == GUEST then GuestSaved(room, Add(room.settings.guestPermissions, p), env)
      else if IsAdmin(room, u, env) then (room, Failed(Refused))
      else Write(room, u, AddPermissions(p), env)
    case RemoveMemberPermissions(u, p) =>
      if u == GUEST then GuestSaved(room, Remove(room.settings.guestPermissions, p), env)
      else if IsAdmin(room, u, env) then (room, Failed(Refused))
      else Write(room, u, RemovePermissions(p), env)
    case ApprovePending(u) =>
      if u == room.creator then (room, Failed(Refused)) else Write(room, u, Approve, env)
    case Ban(u) =>
      if u == room.creator || u == GUEST then (room, Failed(Refused)) else Write(room, u, SetStatus(Banned), env)
    case Unban(u) =>
      if u == room.creator || u == GUEST then (room, Failed(Refused)) else Write(room, u, SetStatus(Active), env)
    case DeleteMember(u) =>
      if u == room.creator then (room, Failed(Refused)) else Write(room, u, Delete, env)
    case ChangeAdminPermissions(u, change) =>
      if u == room.creator || u == GUEST || !AdminChange(change) then (room, Failed(Refused))
      else if Load(room, u, env).Failed? then (room, Load(room, u, env))
      else if !IsAdmin(room, u, env) then (room, Failed(Refused))
      else Write(room, u, change, env)
    case SetAdmin(u, p) =>
      if u == room.creator || u == GUEST then (room, Failed(Refused)) else Write(room, u, MakeAdmin(p), env)
    case SetMember(u, p) =>
      if u == room.creator then (room, Failed(Refused)) else Write(room, u, MakeMember(p), env)
  }

  // ---- The room with its cache ----

  /** Each cached member is its row, normalised under the current settings. */
  predicate Coherent(members: map<string, Row>, room: Stored) {
    forall u | u in members :: u in room.rows && members[u] == Normalise(room.rows[u], u, room.creator, room.settings)
  }

  /** A cached member is answered without reading the table. */
  function Seen(env: Env, members: map<string, Row>, user: string): Env {
    env.(readFails := env.readFails && user !in members)
  }

  class Room {
    const creator: string
    const table: MemberTable
    var settings: Settings
    var members: map<string, Row>

    constructor (creator: string, settings: Settings)
      ensures Valid() && fresh(table)
      ensures Contents() == Stored(creator, settings, map[])
    {
      this.creator, this.settings, members := creator, settings, map[];
      table := new MemberTable();
    }

    function Contents(): Stored
      reads this, table
    {
      Stored(creator, settings, table.rows)
    }

    predicate Valid()
      reads this, table
    {
      Coherent(members, Contents())
    }

    method StoreMember(user: string, row: Row) returns (member: Row)
      requires Valid() && user in table.rows && row == table.rows[user]
      modifies this`members
      ensures Valid() && member == Normalise(row, user, creator, settings)
      ensures members == old(members)[user := member]
    {
      member := row;
      if user == creator {
        member := member.(role := Creator, permissions := ALL, adminPermissions := ALL, status := Active);
      } else if user == GUEST {
        member := member.(role := Member, permissions := settings.guestPermissions, adminPermissions := NONE);
        if member.status.Banned? { member := member.(status := Active); }
      } else if member.role.IsAdmin() {
        member := member.(permissions := ALL);
      }
      if user in members {
        member := members[user];
      } else {
        members := members[user := member];
      }
    }

    method LoadMember(user: string, env: Env) returns (reply: Reply)
      requires Valid()
      modifies this`members
      ensures Valid()
      ensures (Contents(), reply) == Reference(old(Contents()), Op.LoadMember(user), Seen(env, old(members), user))
      // Whoever is loaded is cached.
      ensures members == if reply.Loaded? then old(members)[user := reply.member] else old(members)
    {
      if user == GUEST && (settings.disableGuest || !env.enableGuest) { return Failed(GuestDisabled); }
      if user in members { return Loaded(members[user]); }
      reply := table.Get(user, env.readFails);
      if reply.Loaded? {
        var member := StoreMember(user, reply.member);
        reply := Loaded(member);
      }
    }

    method LoadOrCreateMember(user: string, env: Env) returns (reply: Reply)
      requires Valid()
      modifies this`members, table
      ensures Valid()
      ensures (Contents(), reply) == Reference(old(Contents()), LoadOrCreate(user), Seen(env, old(members), user))
      // A row is created exactly for someone without one who may join, and waits for a review if the
      // room asks for one.
      ensures table.rows != old(table.rows) <==>
                && user !in old(table.rows) && !settings.disableJoinNewUser && !env.readFails && !env.writeFails
                && !(user == GUEST && (settings.disableGuest || !env.enableGuest))
      ensures table.rows != old(table.rows) ==>
                table.rows == old(table.rows)[user :=
                  if user == creator then Row(0xffff_ffff, 0xffff_ffff, Active, Creator)
                  else Row(if user == GUEST then 0 else settings.userDefaultPermissions, 0,
                           if settings.joinNeedReview then Pending else Active, Member)]
      ensures reply.Loaded? ==> user in table.rows
      ensures members == if reply.Loaded? then old(members)[user := reply.member] else old(members)
    {
      if settings.disableJoinNewUser {
        reply := LoadMember(user, env);
        return;
      }
      if user == GUEST && (settings.disableGuest || !env.enableGuest) { return Failed(GuestDisabled); }
      if user in members { return Loaded(members[user]); }
      var row := Row(NONE, NONE, Pending, Member);
      if user == creator {
        row := Row(ALL, ALL, Active, Creator);
      } else {
        if user != GUEST { row := row.(permissions := settings.userDefaultPermissions); }
        if !settings.joinNeedReview { row := row.(status := Active); }
      }
      reply := table.FirstOrCreate(user, row, env.readFails, env.writeFails);
      if reply.Loaded? {
        var member := StoreMember(user, reply.member);
        reply := Loaded(member);
      }
    }

    method UserRole(user: string, env: Env) returns (reply: Reply)
      requires Valid()
      modifies this`members
      ensures Valid()
      ensures (Contents(), reply) == Reference(old(Contents()), Op.UserRole(user), Seen(env, old(members), user))
    {
      if user == creator { return RoleIs(Creator); }
      reply := LoadMember(user, env);
      if reply.Loaded? { reply := RoleIs(reply.member.role); }
    }

    method HasAdminRole(user: string, env: Env) returns (yes: bool)
      requires Valid()
      modifies this`members
      ensures Valid() && Contents() == old(Contents())
      ensures yes == IsAdmin(Contents(), user, Seen(env, old(members), user))
      ensures user != GUEST ==>
                (yes <==> user == creator || (user in table.rows && table.rows[user].role.IsAdmin()
                                              && (user in old(members) || !env.readFails)))
    {
      var reply := UserRole(user, env);
      return reply.RoleIs? && reply.role.IsAdmin();
    }

    method HasPermission(user: string, p: Permissions, env: Env) returns (reply: Reply)
      requires Valid()
      modifies this`members, table
      ensures Valid()
      ensures (Contents(), reply) == Reference(old(Contents()), Op.HasPermission(user, p), Seen(env, old(members), user))
    {
      hide NewRow, Normalise, Coherent, Has, SwitchedOn;
      if user == creator { return Answer(true); }
      reply := LoadOrCreateMember(user, env);
      if !reply.Loaded? { return Answer(false); }
      var member := reply.member;
      if member.role.IsAdmin() { return Answer(true); }
      var yes := MemberMay(member, p);
      return Answer(yes);
    }

    /** The permission of a member who is no admin. */
    method MemberMay(member: Row, p: Permissions) returns (yes: bool)
      ensures yes <==> SwitchedOn(settings, p) && Has(member.permissions, p)
    {
      if (Has(p, GET_MOVIE_LIST) && !settings.canGetMovieList)
         || (Has(p, ADD_MOVIE) && !settings.canAddMovie)
         || (Has(p, DELETE_MOVIE) && !settings.canDeleteMovie)
         || (Has(p, EDIT_MOVIE) && !settings.canEditMovie)
         || (Has(p, SET_CURRENT_MOVIE) && !settings.canSetCurrentMovie)
         || (Has(p, SET_CURRENT_STATUS) && !settings.canSetCurrentStatus)
         || (Has(p, SEND_CHAT_MESSAGE) && !settings.canSendChatMessage)
      {
        return false;
      }
      return Has(member.permissions, p);
    }

    method HasAdminPermission(user: string, p: Permissions, env: Env) returns (reply: Reply)
      requires Valid()
      modifies this`members, table
      ensures Valid()
      ensures (Contents(), reply) == Reference(old(Contents()), Op.HasAdminPermission(user, p), Seen(env, old(members), user))
    {
      if user == creator { return Answer(true); }
      reply := LoadOrCreateMember(user, env);
      if !reply.Loaded? { return Answer(false); }
      return Answer(HasAdminRight(reply.member, p));
    }

    /** Only a change of the guests' permissions makes a cached member stale. */
    method SetSettings(settings': Settings, env: Env) returns (reply: Reply)
      requires Valid()
      modifies this
      ensures Valid()
      ensures (Contents(), reply) == Reference(old(Contents()), Op.SetSettings(settings'), env)
      ensures (reply == Done <==> !env.writeFails) && settings == (if reply == Done then settings' else old(settings))
    {
      if env.writeFails { return Failed(Database); }
      if settings.guestPermissions != settings'.guestPermissions { members := members - {GUEST}; }
      settings := settings';
      return Done;
    }

    method SetGuestPermissions(p: Permissions, env: Env) returns (reply: Reply)
      requires Valid()
      modifies this
      ensures Valid()
      ensures (Contents(), reply) == GuestSaved(old(Contents()), p, env)
      ensures settings == if env.writeFails then old(settings) else old(settings).(guestPermissions := p)
    {
      reply := SetSettings(settings.(guestPermissions := p), env);
    }

    /** Writes a row, then drops the cached member whether or not the write succeeded. */
    method UpdateRow(user: string, change: Change, env: Env) returns (reply: Reply)
      requires Valid()
      modifies this`members, table
      ensures Valid()
      ensures (Contents(), reply) == Write(old(Contents()), user, change, env)
      ensures members == old(members) - {user}
    {
      reply := table.Update(user, change, env.writeFails);
      members := members - {user};
    }

    method SetMemberPermissions(user: string, p: Permissions, env: Env) returns (reply: Reply)
      requires Valid()
      modifies this, table
      ensures Valid()
      ensures (Contents(), reply) == Reference(old(Contents()), Op.SetMemberPermissions(user, p), env)
      // The guests' permissions are in the settings, all others in the rows; nothing else changes.
      ensures reply == Done <==> !env.writeFails && user != creator && (user == GUEST || user in old(table.rows))
      ensures table.rows == (if reply == Done && user != GUEST
                             then old(table.rows)[user := old(table.rows)[user].(permissions := p)]
                             else old(table.rows))
      ensures settings == (if reply == Done && user == GUEST
                           then old(settings).(guestPermissions := p)
                           else old(settings))
    {
      if user == creator { return Failed(Refused); }
      if user == GUEST {
        reply := SetGuestPermissions(p, env);
        return;
      }
      reply := UpdateRow(user, SetPermissions(p), env);
    }

    method AddMemberPermissions(user: string, p: Permissions, env: Env) returns (reply: Reply)
      requires Valid()
      modifies this, table
      ensures Valid()
      ensures (Contents(), reply) ==
              Reference(old(Contents()), Op.AddMemberPermissions(user, p), Seen(env, old(members), user))
      // The guests' permissions are in the settings, all others in the rows; nothing else changes.
      ensures reply == Done <==>
                && !env.writeFails
                && (user == GUEST
                    || (user in old(table.rows) && user != creator
                        && (old(table.rows)[user].role.IsAdmin() ==> user !in old(members) && env.readFails)))
      ensures table.rows == (if reply == Done && user != GUEST
                             then old(table.rows)[user := old(table.rows)[user].(permissions := Add(old(table.rows)[user].permissions, p))]
                             else old(table.rows))
      ensures settings == (if reply == Done && user == GUEST
                           then old(settings).(guestPermissions := Add(old(settings).guestPermissions, p))
                           else old(settings))
    {
      hide Coherent, Load, IsAdmin, ChangeRow, Add, Remove;
      if user in table.rows { AddedRow(table.rows[user], p); }
      if user == GUEST {
        reply := SetGuestPermissions(Add(settings.guestPermissions, p), env);
        return;
      }
      var admin := HasAdminRole(user, env);
      if admin { return Failed(Refused); }
      reply := UpdateRow(user, AddPermissions(p), env);
    }

    method RemoveMemberPermissions(user: string, p: Permissions, env: Env) returns (reply: Reply)
      requires Valid()
      modifies this, table
      ensures Valid()
      ensures (Contents(), reply) ==
              Reference(old(Contents()), Op.RemoveMemberPermissions(user, p), Seen(env, old(members), user))
      // The guests' permissions are in the settings, all others in the rows; nothing else changes.
      ensures reply == Done <==>
                && !env.writeFails
                && (user == GUEST
                    || (user in old(table.rows) && user != creator
                        && (old(table.rows)[user].role.IsAdmin() ==> user !in old(members) && env.readFails)))
      ensures table.rows == (if reply == Done && user != GUEST
                             then old(table.rows)[user := old(table.rows)[user].(permissions := Remove(old(table.rows)[user].permissions, p))]
                             else old(table.rows))
      ensures settings == (if reply == Done && user == GUEST
                           then old(settings).(guestPermissions := Remove(old(settings).guestPermissions, p))
                           else old(settings))
    {
      hide Coherent, Load, IsAdmin, ChangeRow, Add, Remove;
      if user in table.rows { RemovedRow(table.rows[user], p); }
      if user == GUEST {
        reply := SetGuestPermissions(Remove(settings.guestPermissions, p), env);
        return;
      }
      var admin := HasAdminRole(user, env);
      if admin { return Failed(Refused); }
      reply := UpdateRow(user, RemovePermissions(p), env);
    }

    method ApprovePendingMember(user: string, env: Env) returns (reply: Reply)
      requires Valid()
      modifies this`members, table
      ensures Valid()
      ensures (Contents(), reply) == Reference(old(Contents()), ApprovePending(user), env)
      // The one row changes exactly so, or nothing does.
      ensures reply == Done <==> user != creator && user in old(table.rows) && !env.writeFails && old(table.rows)[user].status == Pending
      ensures table.rows == if reply == Done then old(table.rows)[user := old(table.rows)[user].(status := Active)] else old(table.rows)
    {
      if user == creator { return Failed(Refused); }
      reply := UpdateRow(user, Approve, env);
    }

    method BanMember(user: string, env: Env) returns (reply: Reply)
      requires Valid()
      modifies this`members, table
      ensures Valid()
      ensures (Contents(), reply) == Reference(old(Contents()), Ban(user), env)
      // The one row changes exactly so, or nothing does.
      ensures reply == Done <==> user != creator && user != GUEST && user in old(table.rows) && !env.writeFails
      ensures table.rows == if reply == Done then old(table.rows)[user := old(table.rows)[user].(status := Banned)] else old(table.rows)
    {
      if user == creator { return Failed(Refused); }
      if user == GUEST { return Failed(Refused); }
      reply := UpdateRow(user, SetStatus(Banned), env);
    }

    method UnbanMember(user: string, env: Env) returns (reply: Reply)
      requires Valid()
      modifies this`members, table
      ensures Valid()
      ensures (Contents(), reply) == Reference(old(Contents()), Unban(user), env)
      // The one row changes exactly so, or nothing does.
      ensures reply == Done <==> user != creator && user != GUEST && user in old(table.rows) && !env.writeFails
      ensures table.rows == if reply == Done then old(table.rows)[user := old(table.rows)[user].(status := Active)] else old(table.rows)
    {
      if user == creator { return Failed(Refused); }
      if user == GUEST { return Failed(Refused); }
      reply := UpdateRow(user, SetStatus(Active), env);
    }

    method DeleteMember(user: string, env: Env) returns (reply: Reply)
      requires Valid()
      modifies this`members, table
      ensures Valid()
      ensures (Contents(), reply) == Reference(old(Contents()), Op.DeleteMember(user), env)
      ensures reply == Done <==> user != creator && user in old(table.rows) && !env.writeFails
      ensures table.rows == if reply == Done then old(table.rows) - {user} else old(table.rows)
    {
      if user == creator { return Failed(Refused); }
      reply := UpdateRow(user, Delete, env);
    }

    /** What the three changes of admin permissions ask for first. */
    method CheckAdmin(user: string, env: Env) returns (reply: Reply)
      requires Valid()
      modifies this`members
      ensures Valid() && Contents() == old(Contents())
      ensures user == creator || user == GUEST ==> reply == Failed(Refused)
      ensures user != creator && user != GUEST ==>
                var loaded := Load(Contents(), user, Seen(env, old(members), user));
                && (loaded.Failed? ==> reply == loaded)
                && (loaded.Loaded? ==> reply == if IsAdmin(Contents(), user, Seen(env, old(members), user)) then Done else Failed(Refused))
                && (loaded.Failed? || loaded.Loaded?)
      ensures reply == Done <==>
                && user != creator && user != GUEST && user in table.rows && (user in old(members) || !env.readFails)
                && (table.rows[user].role == Admin || table.rows[user].role == Creator)
    {
      if user == creator { return Failed(Refused); }
      if user == GUEST { return Failed(Refused); }
      reply := LoadMember(user, env);
      if reply.Loaded? {
        reply := if reply.member.role.IsAdmin() then Done else Failed(Refused);
      }
    }

    /** SetAdminPermissions, AddAdminPermissions and RemoveAdminPermissions. */
    method ChangeAdminPermissions(user: string, change: Change, env: Env) returns (reply: Reply)
      requires Valid() && AdminChange(change)
      modifies this`members, table
      ensures Valid()
      ensures (Contents(), reply) ==
              Reference(old(Contents()), Op.ChangeAdminPermissions(user, change), Seen(env, old(members), user))
      // Only for an admin who can be loaded, and only the admin permissions change.
      ensures reply == Done <==>
                && user != creator && user != GUEST && user in old(table.rows) && !env.writeFails
                && (user in old(members) || !env.readFails)
                && (old(table.rows)[user].role == Admin || old(table.rows)[user].role == Creator)
      ensures reply == Done ==>
                var row := old(table.rows)[user];
                && (change.SetAdminPermissions? ==>
                      table.rows == old(table.rows)[user := row.(adminPermissions := change.p)])
                && (change.AddAdminPermissions? ==>
                      table.rows == old(table.rows)[user := row.(adminPermissions := Add(row.adminPermissions, change.p))])
                && (change.RemoveAdminPermissions? ==>
                      table.rows == old(table.rows)[user := row.(adminPermissions := Remove(row.adminPermissions, change.p))])
      ensures reply != Done ==> table.rows == old(table.rows)
    {
      hide Coherent, Load, IsAdmin, ChangeRow, Add, Remove;
      reply := CheckAdmin(user, env);
      if reply != Done { return; }
      AdminRow(table.rows[user], change);
      reply := UpdateRow(user, change, env);
    }

    method SetAdmin(user: string, p: Permissions, env: Env) returns (reply: Reply)
      requires Valid()
      modifies this`members, table
      ensures Valid()
      ensures (Contents(), reply) == Reference(old(Contents()), Op.SetAdmin(user, p), env)
      // The one row changes exactly so, or nothing does.
      ensures reply == Done <==> user != creator && user != GUEST && user in old(table.rows) && !env.writeFails
      ensures table.rows == if reply == Done then old(table.rows)[user := old(table.rows)[user].(role := Admin, permissions := 0xffff_ffff, adminPermissions := p)] else old(table.rows)
    {
      if user == creator { return Failed(Refused); }
      if user == GUEST { return Failed(Refused); }
      reply := UpdateRow(user, MakeAdmin(p), env);
    }

    method SetMember(user: string, p: Permissions, env: Env) returns (reply: Reply)
      requires Valid()
      modifies this`members, table
      ensures Valid()
      ensures (Contents(), reply) == Reference(old(Contents()), Op.SetMember(user, p), env)
      // The one row changes exactly so, or nothing does.
      ensures reply == Done <==> user != creator && user in old(table.rows) && !env.writeFails
      ensures table.rows == if reply == Done then old(table.rows)[user := old(table.rows)[user].(role := Member, permissions := p, adminPermissions := 0)] else old(table.rows)
    {
      if user == creator { return Failed(Refused); }
      reply := UpdateRow(user, MakeMember(p), env);
    }

    /** Closing the room empties the cache and nothing else. */
    method Close()
      requires Valid()
      modifies this`members
      ensures Valid() && Contents() == old(Contents()) && members == map[]
    {
      members := map[];
    }
  }

  lemma AdminRow(row: Row, change: Change)
    ensures change.SetAdminPermissions? ==> ChangeRow(row, change) == row.(adminPermissions := change.p)
    ensures change.AddAdminPermissions? ==> ChangeRow(row, change) == row.(adminPermissions := Add(row.adminPermissions, change.p))
    ensures change.RemoveAdminPermissions? ==> ChangeRow(row, change) == row.(adminPermissions := Remove(row.adminPermissions, change.p))
  {
    hide Add, Remove;
  }

  lemma AddedRow(row: Row, p: Permissions)
    ensures ChangeRow(row, AddPermissions(p)) == row.(permissions := Add(row.permissions, p))
  {
    hide Add, Remove;
  }

  lemma RemovedRow(row: Row, p: Permissions)
    ensures ChangeRow(row, RemovePermissions(p)) == row.(permissions := Remove(row.permissions, p))
  {
    hide Add, Remove;
  }

  // ---- Every sequence of operations ----

  function Run(room: Stored, ops: seq<(Op, Env)>): Stored {
    if ops == [] then room
    else
      var earlier := Run(room, ops[..|ops| - 1]);
      Reference(earlier, ops[|ops| - 1].0, ops[|ops| - 1].1).0
  }

  /** Only the creator's row has the creator's role, the guest's is a plain member's, and plain
      members' rows carry no admin permissions. */
  predicate RowFits(creator: string, user: string, row: Row) {
    && !row.role.Unknown?
    && (row.role.Creator? ==> user == creator)
    && (user == GUEST != creator ==> row.role.Member?)
    && (row.role.Member? ==> row.adminPermissions == NONE)
  }

  predicate RowsFit(room: Stored) {
    forall u | u in room.rows :: RowFits(room.creator, u, room.rows[u])
  }

  lemma WriteKeepsRows(room: Stored, user: string, change: Change, env: Env)
    requires RowsFit(room) && user != room.creator
    requires change.MakeAdmin? ==> user != GUEST
    requires AdminChange(change) && user in room.rows ==> room.rows[user].role.Admin?
    ensures RowsFit(Write(room, user, change, env).0)
  {
    if user in room.rows { assert RowFits(room.creator, user, ChangeRow(room.rows[user], change)); }
  }

  lemma JoinKeepsRows(room: Stored, user: string, env: Env)
    requires RowsFit(room)
    ensures RowsFit(Join(room, user, env).0) && Join(room, user, env).0.creator == room.creator
  {
    assert RowFits(room.creator, user, NewRow(room.creator, room.settings, user));
  }

  lemma ReferenceKeepsRows(room: Stored, op: Op, env: Env)
    requires RowsFit(room)
    ensures RowsFit(Reference(room, op, env).0) && Reference(room, op, env).0.creator == room.creator
  {
    hide Changed, ChangeRow, Join, RowFits, Permits, HasAdminRight, Load, Add, Remove;
    if op.SetSettings? {
    } else if op.user == room.creator || op.LoadMember? || op.LoadOrCreate? || op.UserRole? || op.HasPermission? || op.HasAdminPermission? {
      JoinKeepsRows(room, op.user, env);
    } else {
      ChangesKeepRows(room, op, env);
    }
  }

  lemma ChangesKeepRows(room: Stored, op: Op, env: Env)
    requires RowsFit(room) && !op.SetSettings? && op.user != room.creator
    requires !(op.LoadMember? || op.LoadOrCreate? || op.UserRole? || op.HasPermission? || op.HasAdminPermission?)
    ensures RowsFit(Reference(room, op, env).0) && Reference(room, op, env).0.creator == room.creator
  {
    hide Changed, ChangeRow, Join, RowFits, Permits, HasAdminRight, Load, Add, Remove;
    match op
    case SetMemberPermissions(u, p) => WriteKeepsRows(room, u, SetPermissions(p), env);
    case AddMemberPermissions(u, p) => WriteKeepsRows(room, u, AddPermissions(p), env);
    case RemoveMemberPermissions(u, p) => WriteKeepsRows(room, u, RemovePermissions(p), env);
    case ApprovePending(u) => WriteKeepsRows(room, u, Approve, env);
    case Ban(u) => WriteKeepsRows(room, u, SetStatus(Banned), env);
    case Unban(u) => WriteKeepsRows(room, u, SetStatus(Active), env);
    case DeleteMember(u) => WriteKeepsRows(room, u, Delete, env);
    case ChangeAdminPermissions(u, change) => AdminChangeKeepsRows(room, u, change, env);
    case SetAdmin(u, p) => if u != GUEST { WriteKeepsRows(room, u, MakeAdmin(p), env); }
    case SetMember(u, p) => WriteKeepsRows(room, u, MakeMember(p), env);
  }

  lemma AdminChangeKeepsRows(room: Stored, user: string, change: Change, env: Env)
    requires RowsFit(room)
    ensures var room' := Reference(room, ChangeAdminPermissions(user, change), env).0;
            RowsFit(room') && room'.creator == room.creator
  {
    hide Changed, ChangeRow, Join, Permits, HasAdminRight;
    if user != room.creator && user != GUEST && Load(room, user, env).Loaded? && IsAdmin(room, user, env) {
      RowAt(room, user);
      hide RowFits;
      WriteKeepsRows(room, user, change, env);
    } else {
      hide RowFits;
    }
  }

  lemma {:induction false} RunKeepsRows(room: Stored, ops: seq<(Op, Env)>)
    requires RowsFit(room)
    ensures RowsFit(Run(room, ops)) && Run(room, ops).creator == room.creator
  {
    hide Reference, RowsFit;
    if ops != [] {
      RunKeepsRows(room, ops[..|ops| - 1]);
      ReferenceKeepsRows(Run(room, ops[..|ops| - 1]), ops[|ops| - 1].0, ops[|ops| - 1].1);
    }
  }

  /** After any operations on a new room, whoever can be loaded loads with the right powers: the
      creator with all of them, the guest with exactly the guests' permissions, a plain member
      with no admin permission, and nobody else as creator. */
  lemma LoadedPowers(creator: string, settings: Settings, ops: seq<(Op, Env)>, user: string, env: Env)
    ensures var room := Run(Stored(creator, settings, map[]), ops);
            var reply := Load(room, user, env);
            reply.Loaded? ==>
              && (user == creator ==> reply.member == Row(ALL, ALL, Active, Creator))
              && (user == GUEST != creator ==>
                    reply.member.role.Member? && reply.member.permissions == room.settings.guestPermissions
                    && reply.member.adminPermissions == NONE && !reply.member.status.Banned?)
              && (user != creator ==> !reply.member.role.Creator?)
              && (reply.member.role.Member? ==> reply.member.adminPermissions == NONE)
              && (reply.member.role.IsAdmin() ==> reply.member.permissions == ALL)
              // All others load as they are stored.
              && user in room.rows
              && (user != creator && user != GUEST ==>
                    && reply.member.role == room.rows[user].role && reply.member.status == room.rows[user].status
                    && reply.member.adminPermissions == room.rows[user].adminPermissions
                    && (reply.member.role.Member? ==> reply.member.permissions == room.rows[user].permissions))
              && (user == GUEST != creator ==>
                    reply.member.status == if room.rows[user].status.Banned? then Active else room.rows[user].status)
  {
    hide Run, Reference;
    RunKeepsRows(Stored(creator, settings, map[]), ops);
  }

  /** Nobody but an admin of the room passes a check for an admin permission. */
  lemma OnlyAdminsAdminister(creator: string, settings: Settings, ops: seq<(Op, Env)>, user: string, p: Permissions, env: Env)
    requires user != creator && p != NONE
    requires Reference(Run(Stored(creator, settings, map[]), ops), HasAdminPermission(user, p), env).1 == Answer(true)
    ensures var room := Run(Stored(creator, settings, map[]), ops);
            user != GUEST && user in room.rows && room.rows[user].role.Admin? && room.rows[user].status.Active?
            && room.rows[user].adminPermissions & p == p
  {
    hide Run;
    RunKeepsRows(Stored(creator, settings, map[]), ops);
  }

  // ---- Verdicts ----

  /** Each of the seven switches governs its own permission, and no other permission has one. */
  lemma SwitchedOnIff(settings: Settings, q: Permissions)
    ensures SwitchedOn(settings, q) <==>
              && (q & 1 == 1 ==> settings.canGetMovieList) && (q & 2 == 2 ==> settings.canAddMovie)
              && (q & 4 == 4 ==> settings.canDeleteMovie) && (q & 8 == 8 ==> settings.canEditMovie)
              && (q & 16 == 16 ==> settings.canSetCurrentMovie) && (q & 32 == 32 ==> settings.canSetCurrentStatus)
              && (q & 64 == 64 ==> settings.canSendChatMessage)
  {
  }

  /** The verdict on whoever can be loaded: the creator may do anything, an admin too, and a member
      what the member's permissions, or for the guest the guests' permissions, and the switches allow. */
  lemma AllowedIff(room: Stored, user: string, p: Permissions, env: Env)
    requires user in room.rows && !env.readFails && (user == GUEST ==> !room.settings.disableGuest && env.enableGuest)
    ensures Reference(room, HasPermission(user, p), env).0 == room
    ensures var row := room.rows[user];
            var held := if user == GUEST then room.settings.guestPermissions else row.permissions;
            Reference(room, HasPermission(user, p), env).1 == Answer(
              || user == room.creator
              || (user != GUEST && (row.role == Admin || row.role == Creator))
              || (SwitchedOn(room.settings, p) && Has(held, p)))
  {
    hide SwitchedOn, Has;
  }

  /** The verdict on admin permissions: only the creator and active admins who hold them pass. */
  lemma AdminAllowedIff(room: Stored, user: string, p: Permissions, env: Env)
    requires RowsFit(room) && user in room.rows && !env.readFails
    requires user == GUEST ==> !room.settings.disableGuest && env.enableGuest
    ensures Reference(room, HasAdminPermission(user, p), env).0 == room
    ensures var row := room.rows[user];
            Reference(room, HasAdminPermission(user, p), env).1 == Answer(
              || user == room.creator
              || (row.role == Admin && row.status == Active && Has(row.adminPermissions, p)))
  {
    hide Has;
    RowAt(room, user);
  }

  /** Whoever cannot be loaded and is not the creator is denied. */
  lemma UnknownIsDenied(room: Stored, user: string, p: Permissions, env: Env)
    requires user != room.creator && Join(room, user, env).1.Failed?
    ensures Reference(room, HasPermission(user, p), env).1 == Answer(false)
    ensures Reference(room, HasAdminPermission(user, p), env).1 == Answer(false)
  {
    hide SwitchedOn, Has;
  }

  // ---- Granting and revoking ----

  /** A plain member whose permissions are taken away is denied every request that needs one of
      them, and one who is granted permissions is allowed them when the room's switches do. */
  lemma RevokedIsDenied(room: Stored, user: string, p: Permissions, q: Permissions, env: Env, later: Env)
    requires RowsFit(room) && user != room.creator && p & q != 0
    requires Reference(room, RemoveMemberPermissions(user, p), env).1 == Done
    requires user == GUEST || !env.readFails
    ensures var room' := Reference(room, RemoveMemberPermissions(user, p), env).0;
            Reference(room', HasPermission(user, q), later).1 == Answer(false)
  {
    hide Reference, Has, Remove;
    var room' := Reference(room, RemoveMemberPermissions(user, p), env).0;
    if user == GUEST {
      GuestLoses(room, p, env);
      RemovedLacks(room.settings.guestPermissions, p, q);
    } else {
      PlainMemberLoses(room, user, p, env);
      RemovedLacks(room.rows[user].permissions, p, q);
    }
    DeniedWithout(room', user, q, later);
  }

  lemma GuestLoses(room: Stored, p: Permissions, env: Env)
    requires Reference(room, RemoveMemberPermissions(GUEST, p), env).1 == Done
    ensures Reference(room, RemoveMemberPermissions(GUEST, p), env).0 ==
            room.(settings := room.settings.(guestPermissions := Remove(room.settings.guestPermissions, p)))
  {
    hide Remove;
  }

  lemma PlainMemberLoses(room: Stored, user: string, p: Permissions, env: Env)
    requires RowsFit(room) && user != room.creator && user != GUEST && !env.readFails
    requires Reference(room, RemoveMemberPermissions(user, p), env).1 == Done
    ensures user in room.rows && room.rows[user].role.Member?
    ensures Reference(room, RemoveMemberPermissions(user, p), env).0 ==
            room.(rows := room.rows[user := ChangeRow(room.rows[user], RemovePermissions(p))])
  {
    hide ChangeRow, Remove;
    if user in room.rows { RowAt(room, user); }
  }

  lemma DeniedWithout(room: Stored, user: string, q: Permissions, env: Env)
    requires user != room.creator
    requires if user == GUEST then !Has(room.settings.guestPermissions, q)
             else user in room.rows && room.rows[user].role.Member? && !Has(room.rows[user].permissions, q)
    ensures Reference(room, HasPermission(user, q), env).1 == Answer(false)
  {
    hide Has, SwitchedOn;
  }

  /** The guest is let in, and has a row or gets one. */
  predicate GuestCanCome(room: Stored, env: Env) {
    && !GuestShut(GUEST, room.settings, env)
    && (GUEST in room.rows || (!room.settings.disableJoinNewUser && !env.writeFails))
  }

  lemma GrantedIsAllowed(room: Stored, user: string, p: Permissions, q: Permissions, env: Env, later: Env)
    requires p & q == q && SwitchedOn(room.settings, q) && !later.readFails && (user == GUEST ==> GuestCanCome(room, later))
    requires Reference(room, AddMemberPermissions(user, p), env).1 == Done
    ensures var room' := Reference(room, AddMemberPermissions(user, p), env).0;
            Reference(room', HasPermission(user, q), later).1 == Answer(true)
  {
    if user == GUEST {
      GuestIsAllowed(room, p, q, env, later);
    } else {
      hide SwitchedOn;
      AddedHas(room.rows[user].permissions, p, q);
    }
  }

  lemma GuestIsAllowed(room: Stored, p: Permissions, q: Permissions, env: Env, later: Env)
    requires p & q == q && SwitchedOn(room.settings, q) && !later.readFails && GuestCanCome(room, later)
    requires Reference(room, AddMemberPermissions(GUEST, p), env).1 == Done
    ensures var room' := Reference(room, AddMemberPermissions(GUEST, p), env).0;
            Reference(room', HasPermission(GUEST, q), later).1 == Answer(true)
  {
    var held := room.settings.guestPermissions;
    AddedHas(held, p, q);
    SameSwitches(room.settings, Add(held, p), q);
    hide Reference, Add, Has, SwitchedOn;
    GuestGains(room, p, env);
    GuestWith(room.(settings := room.settings.(guestPermissions := Add(held, p))), q, later);
  }

  lemma GuestGains(room: Stored, p: Permissions, env: Env)
    requires Reference(room, AddMemberPermissions(GUEST, p), env).1 == Done
    ensures Reference(room, AddMemberPermissions(GUEST, p), env).0 ==
            room.(settings := room.settings.(guestPermissions := Add(room.settings.guestPermissions, p)))
  {
    hide Add;
  }

  lemma GuestWith(room: Stored, q: Permissions, env: Env)
    requires Has(room.settings.guestPermissions, q) && SwitchedOn(room.settings, q) && !env.readFails && GuestCanCome(room, env)
    ensures Reference(room, HasPermission(GUEST, q), env).1 == Answer(true)
  {
    hide Has, SwitchedOn;
  }

  lemma SameSwitches(settings: Settings, p: Permissions, q: Permissions)
    ensures SwitchedOn(settings.(guestPermissions := p), q) == SwitchedOn(settings, q)
  {
    hide Has;
  }

  /** The check of a member's permissions does not look at the member's status: a banned or pending
      member is judged like an active one. */
  lemma PermissionIgnoresStatus(room: Stored, user: string, status: Status, p: Permissions, env: Env)
    requires user in room.rows
    ensures var room' := room.(rows := room.rows[user := room.rows[user].(status := status)]);
            Reference(room', HasPermission(user, p), env).1 == Reference(room, HasPermission(user, p), env).1
  {
    hide SwitchedOn, Has;
  }

  /** The member's own check, `RoomMember.HasPermission`, which the room does not call: it looks at
      role and status, but not at the room's switches. */
  predicate HasMemberRight(row: Row, q: Permissions) {
    row.role.IsAdmin() || (row.role.Member? && row.status.Active? && Has(row.permissions, q))
  }

  /** Exactly when the two checks part: for someone who holds the permission and is no admin, the room
      alone says yes if it switched the permission on and the member is not an active one, and the
      member's own check alone says yes if the member is active and the room switched it off. */
  lemma ChecksPartIff(room: Stored, user: string, p: Permissions, env: Env)
    requires user in room.rows && Load(room, user, env).Loaded?
    ensures var m := Load(room, user, env).member;
            var allowed := Reference(room, HasPermission(user, p), env).1 == Answer(true);
            var held := !m.role.IsAdmin() && Has(m.permissions, p);
            && (allowed && !HasMemberRight(m, p) <==>
                  held && SwitchedOn(room.settings, p) && !(m.role.Member? && m.status.Active?))
            && (!allowed && HasMemberRight(m, p) <==>
                  held && !SwitchedOn(room.settings, p) && m.role.Member? && m.status.Active?)
  {
    hide SwitchedOn, Has;
  }

  lemma RowAt(room: Stored, user: string)
    requires RowsFit(room) && user in room.rows
    ensures RowFits(room.creator, user, room.rows[user])
  {
  }

  lemma RemovedLacks(held: Permissions, p: Permissions, q: Permissions)
    requires p & q != 0
    ensures !Has(Remove(held, p), q)
  {
  }

  lemma AddedHas(held: Permissions, p: Permissions, q: Permissions)
    requires p & q == q
    ensures Has(Add(held, p), q)
  {
  }
}
