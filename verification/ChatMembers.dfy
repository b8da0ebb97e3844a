/** The invariant of chat_room_members: exactly one of user and agent, and no duplicates in a room. */
module ChatMembers {
  import opened Names
  import opened Referential
  import opened ChatSchema
  import opened Prelude

  // ---------------------------------------------------------------- constraints of the table

  /** CK_chat_room_members_user_or_agent */
  predicate UserOrAgent(row: Row) {
    (UserId in row.refs && AgentId !in row.refs) || (UserId !in row.refs && AgentId in row.refs)
  }

  /** The two rows clash in UNIQUE (room_id, f); NULLs never clash. */
  predicate Clash(a: Row, b: Row, f: Field) {
    RoomId in a.refs && RoomId in b.refs && f in a.refs && f in b.refs
    && a.refs[RoomId] == b.refs[RoomId] && a.refs[f] == b.refs[f]
  }

  /** Every member has exactly one of user and agent, and (room, user) and (room, agent) are unique. */
  ghost predicate MembersOk(rows: Rows) {
    && (forall x <- rows :: x.table == ChatRoomMembers ==> UserOrAgent(rows[x]))
    && (forall x, y :: x in rows && y in rows && x != y && x.table == y.table == ChatRoomMembers ==>
          !Clash(rows[x], rows[y], UserId) && !Clash(rows[x], rows[y], AgentId))
  }

  // ---------------------------------------------------------------- runs

  datatype Event = Insert(id: RowId, row: Row) | Delete(root: RowId, now: int)

  /** The checks that an INSERT passes: primary key, foreign keys, NOT NULL, CHECK and UNIQUE. */
  predicate Insertable(s: Schema, rows: Rows, id: RowId, row: Row) {
    && id !in rows
    && (forall k <- s.keys :: k.table == id.table ==>
          if k.name in row.refs then RowId(s.keys[k].target, row.refs[k.name]) in rows[id := row]
          else !s.keys[k].notNull)
    && (id.table == ChatRoomMembers ==>
          && UserOrAgent(row)
          && forall x <- rows :: x.table == ChatRoomMembers ==>
            !Clash(rows[x], row, UserId) && !Clash(rows[x], row, AgentId))
  }

  /** A rejected statement changes nothing. */
  ghost function Apply(s: Schema, rows: Rows, e: Event): Rows {
    match e
    case Insert(id, row) => if Insertable(s, rows, id, row) then rows[id := row] else rows
    case Delete(root, now) =>
      (match DeleteOutcome(s, rows, root, now)
       case Accepted(after) => after
       case Rejected => rows)
  }

  ghost function Run(s: Schema, rows: Rows, events: seq<Event>): Rows
    decreases |events|
  {
    if events == [] then rows else Run(s, Apply(s, rows, events[0]), events[1..])
  }

  // ---------------------------------------------------------------- the invariant

  /** No link of a member is ever cleared. */
  ghost predicate LinksStay(s: Schema) {
    forall f <- {UserId, AgentId} :: Column(ChatRoomMembers, f) in s.keys ==>
      s.keys[Column(ChatRoomMembers, f)].onDelete != SetNull
  }

  lemma DeleteKeepsMembers(s: Schema, rows: Rows, root: RowId, now: int)
    requires LinksStay(s) && MembersOk(rows) && DeleteOutcome(s, rows, root, now).Accepted?
    ensures MembersOk(DeleteOutcome(s, rows, root, now).rows)
  {
    var after := DeleteOutcome(s, rows, root, now).rows;
    forall x | x in after && x.table == ChatRoomMembers
      ensures x in rows && forall f <- {UserId, AgentId} :: f in after[x].refs <==> f in rows[x].refs
      ensures forall f <- after[x].refs :: f in rows[x].refs && after[x].refs[f] == rows[x].refs[f]
    {
      SurvivorsKeepTheRest(s, rows, root, now, x);
    }
  }

  lemma InsertKeepsAll(s: Schema, rows: Rows, id: RowId, row: Row)
    requires Valid(s, rows) && MembersOk(rows) && Insertable(s, rows, id, row)
    ensures Valid(s, rows[id := row]) && MembersOk(rows[id := row])
  {
    var after := rows[id := row];
    forall x, f, y | Refers(s, after, x, f, y) ensures y in after {
      assert Column(x.table, f) in s.keys;
      assert x != id ==> Refers(s, rows, x, f, y);
    }
  }

  /** An insert is accepted exactly when its id is new and all constraints hold with the row. */
  lemma InsertableExactly(s: Schema, rows: Rows, id: RowId, row: Row)
    requires Valid(s, rows) && MembersOk(rows)
    ensures Insertable(s, rows, id, row) <==>
      id !in rows && Valid(s, rows[id := row]) && MembersOk(rows[id := row])
    ensures Apply(s, rows, Insert(id, row)) == if Insertable(s, rows, id, row) then rows[id := row] else rows
  {
    var after := rows[id := row];
    if Insertable(s, rows, id, row) {
      InsertKeepsAll(s, rows, id, row);
    } else if id !in rows && Valid(s, after) && MembersOk(after) {
      forall k | k in s.keys && k.table == id.table
        ensures if k.name in row.refs then RowId(s.keys[k].target, row.refs[k.name]) in after else !s.keys[k].notNull
      {
        assert Column(id.table, k.name) == k && after[id] == row;
        assert k.name in row.refs ==> Refers(s, after, id, k.name, RowId(s.keys[k].target, row.refs[k.name]));
      }
      assert false;
    }
  }

  /** What the two unique constraints mean: a room has no user and no agent twice. */
  lemma NoMemberTwice(rows: Rows, x: RowId, y: RowId, f: Field)
    requires MembersOk(rows) && x in rows && y in rows && x.table == y.table == ChatRoomMembers
    requires f == UserId || f == AgentId
    requires {RoomId, f} <= rows[x].refs.Keys && {RoomId, f} <= rows[y].refs.Keys
    requires rows[x].refs[RoomId] == rows[y].refs[RoomId] && rows[x].refs[f] == rows[y].refs[f]
    ensures x == y
  {
    assert Clash(rows[x], rows[y], f);
  }

  /** Nothing else makes a store bad: the CHECK and the two unique constraints are all there is. */
  lemma MembersOkExactly(rows: Rows)
    requires forall x <- rows :: x.table == ChatRoomMembers ==> (UserId in rows[x].refs) != (AgentId in rows[x].refs)
    requires forall x, y ::
      x in rows && y in rows && x.table == y.table == ChatRoomMembers
      && {RoomId, UserId} <= rows[x].refs.Keys && {RoomId, UserId} <= rows[y].refs.Keys
      && rows[x].refs[RoomId] == rows[y].refs[RoomId] && rows[x].refs[UserId] == rows[y].refs[UserId] ==>
      x == y
    requires forall x, y ::
      x in rows && y in rows && x.table == y.table == ChatRoomMembers
      && {RoomId, AgentId} <= rows[x].refs.Keys && {RoomId, AgentId} <= rows[y].refs.Keys
      && rows[x].refs[RoomId] == rows[y].refs[RoomId] && rows[x].refs[AgentId] == rows[y].refs[AgentId] ==>
      x == y
    ensures MembersOk(rows)
  {
    forall x, y | x in rows && y in rows && x != y && x.table == y.table == ChatRoomMembers
      ensures !Clash(rows[x], rows[y], UserId) && !Clash(rows[x], rows[y], AgentId)
    {
    }
  }

  /** Over any run of inserts and deletes, accepted or not, the constraints of the table hold. */
  lemma {:induction false} MembersInvariant(s: Schema, rows: Rows, events: seq<Event>)
    requires WellFormed(s) && LinksStay(s) && Valid(s, rows) && MembersOk(rows)
    ensures Valid(s, Run(s, rows, events)) && MembersOk(Run(s, rows, events))
    decreases |events|
  {
    if events != [] {
      var after := Apply(s, rows, events[0]);
      match events[0] {
        case Insert(id, row) =>
          if Insertable(s, rows, id, row) {
            InsertKeepsAll(s, rows, id, row);
          }
        case Delete(root, now) =>
          if DeleteOutcome(s, rows, root, now).Accepted? {
            DeleteKeepsValid(s, rows, root, now);
            DeleteKeepsMembers(s, rows, root, now);
          }
      }
      MembersInvariant(s, after, events[1..]);
    }
  }

  lemma {:induction false} RunThen(s: Schema, rows: Rows, events: seq<Event>, e: Event)
    ensures Run(s, rows, events + [e]) == Apply(s, Run(s, rows, events), e)
    decreases |events|
  {
    if events == [] {
      assert Run(s, rows, [e]) == Run(s, Apply(s, rows, e), []);
    } else {
      assert (events + [e])[1..] == events[1..] + [e];
      RunThen(s, Apply(s, rows, events[0]), events[1..], e);
    }
  }

  /** After any run, an insert adds its row if the id is new and all constraints hold with it, or else nothing. */
  lemma InsertAfterRun(s: Schema, rows: Rows, events: seq<Event>, id: RowId, row: Row)
    requires WellFormed(s) && LinksStay(s) && Valid(s, rows) && MembersOk(rows)
    ensures var before := Run(s, rows, events);
      Run(s, rows, events + [Insert(id, row)]) ==
        if id !in before && Valid(s, before[id := row]) && MembersOk(before[id := row]) then before[id := row]
        else before
  {
    MembersInvariant(s, rows, events);
    RunThen(s, rows, events, Insert(id, row));
    InsertableExactly(s, Run(s, rows, events), id, row);
  }

  /** The schema of the migrations, starting from empty tables; a member's user or agent exists. */
  lemma MembersOfChat(events: seq<Event>, member: RowId)
    requires member.table == ChatRoomMembers && member in Run(Chat(), map[], events)
    ensures var rows := Run(Chat(), map[], events);
      && MembersOk(rows)
      && RoomId in rows[member].refs && RowId(ChatRooms, rows[member].refs[RoomId]) in rows
      && (UserId in rows[member].refs <==> AgentId !in rows[member].refs)
      && (UserId in rows[member].refs ==> RowId(Users, rows[member].refs[UserId]) in rows)
      && (AgentId in rows[member].refs ==> RowId(Agents, rows[member].refs[AgentId]) in rows)
      && (forall other, f ::
            other in rows && other.table == ChatRoomMembers && f in {UserId, AgentId}
            && {RoomId, f} <= rows[member].refs.Keys && {RoomId, f} <= rows[other].refs.Keys
            && rows[member].refs[RoomId] == rows[other].refs[RoomId] && rows[member].refs[f] == rows[other].refs[f] ==>
            other == member)
  {
    ChatIsWellFormed();
    var s := Chat();
    var rows := Run(s, map[], events);
    ChatMemberLinks();
    MembersInvariant(s, map[], events);
    assert Column(ChatRoomMembers, RoomId).table == member.table;
    var row := rows[member];
    assert Refers(s, rows, member, RoomId, RowId(ChatRooms, row.refs[RoomId]));
    assert UserId in row.refs ==> Refers(s, rows, member, UserId, RowId(Users, row.refs[UserId]));
    assert AgentId in row.refs ==> Refers(s, rows, member, AgentId, RowId(Agents, row.refs[AgentId]));
  }

  lemma ChatMemberLinks()
    ensures Column(ChatRoomMembers, RoomId) in Chat().keys
    ensures Chat().keys[Column(ChatRoomMembers, RoomId)] == ForeignKey(ChatRooms, Cascade, true)
    ensures Column(ChatRoomMembers, UserId) in Chat().keys
    ensures Chat().keys[Column(ChatRoomMembers, UserId)] == ForeignKey(Users, Cascade, false)
    ensures Column(ChatRoomMembers, AgentId) in Chat().keys
    ensures Chat().keys[Column(ChatRoomMembers, AgentId)] == ForeignKey(Agents, Cascade, false)
  {
    assert KeyOf(ChatRoomMembers, RoomId).Some? && KeyOf(ChatRoomMembers, UserId).Some?
      && KeyOf(ChatRoomMembers, AgentId).Some?;
  }

  // ---------------------------------------------------------------- why both links are CASCADE

  /** The chat schema with other actions on the two links of a member. */
  function LinkedKey(user: Action, agent: Action, t: Table, f: Field): Option<ForeignKey> {
    if t == ChatRoomMembers && f == UserId then Some(ForeignKey(Users, user, false))
    else if t == ChatRoomMembers && f == AgentId then Some(ForeignKey(Agents, agent, false))
    else KeyOf(t, f)
  }

  function Linked(user: Action, agent: Action): Schema {
    Schema(map t: Table, f: Field | LinkedKey(user, agent, t, f).Some? ::
      Column(t, f) := LinkedKey(user, agent, t, f).value,
           STAMPED)
  }

  ghost predicate DeletesKeepMembers(s: Schema) {
    forall rows, root, now :: Valid(s, rows) && MembersOk(rows) && DeleteOutcome(s, rows, root, now).Accepted? ==>
      MembersOk(DeleteOutcome(s, rows, root, now).rows)
  }

  /** The owner 1 of workspace 1 with room 1, one further user 2, agent 1, and one member of the room. */
  function SmallChat(member: Row): Rows {
    map[
      RowId(Users, 1) := Row(map[], 0, 0),
      RowId(Users, 2) := Row(map[], 0, 0),
      RowId(Workspaces, 1) := Row(map[OwnerUserId := 1], 0, 0),
      RowId(Agents, 1) := Row(map[WorkspaceId := 1, CreatedBy := 1], 0, 0),
      RowId(ChatRooms, 1) := Row(map[WorkspaceId := 1, CreatedById := 1], 0, 0),
      RowId(ChatRoomMembers, 1) := member
    ]
  }

  function Member(f: Field, id: int): Row {
    Row(map[RoomId := 1, f := id], 0, 0)
  }

  lemma LinkedKeys(user: Action, agent: Action, x: RowId, f: Field)
    ensures Column(x.table, f) in Linked(user, agent).keys <==> LinkedKey(user, agent, x.table, f).Some?
    ensures Column(x.table, f) in Linked(user, agent).keys ==>
      Linked(user, agent).keys[Column(x.table, f)] == LinkedKey(user, agent, x.table, f).value
  {
  }

  /** Where the rows of the small chat other than the member hold a reference. */
  predicate OtherCell(t: Table, g: Field) {
    match t
    case Workspaces => g == OwnerUserId
    case Agents => g == WorkspaceId || g == CreatedBy
    case ChatRooms => g == WorkspaceId || g == CreatedById
    case _ => false
  }

  lemma SmallChatCells(f: Field, id: int, x: RowId, g: Field)
    requires x in SmallChat(Member(f, id)) && g in SmallChat(Member(f, id))[x].refs
    ensures x != RowId(ChatRoomMembers, 1) ==> OtherCell(x.table, g) && SmallChat(Member(f, id))[x].refs[g] == 1
    ensures x == RowId(ChatRoomMembers, 1) ==> SmallChat(Member(f, id))[x] == Member(f, id) && (g == RoomId || g == f)
  {
  }

  lemma OtherTarget(user: Action, agent: Action, t: Table, g: Field)
    requires OtherCell(t, g)
    ensures LinkedKey(user, agent, t, g).Some?
    ensures LinkedKey(user, agent, t, g).value.target == if g == WorkspaceId then Workspaces else Users
  {
    match t {
      case Workspaces =>
      case Agents =>
      case ChatRooms =>
    }
  }

  lemma MemberTarget(user: Action, agent: Action)
    ensures LinkedKey(user, agent, ChatRoomMembers, RoomId) == Some(ForeignKey(ChatRooms, Cascade, true))
  {
  }

  /** Every reference that the rows of the small chat hold. */
  lemma SmallChatReferences(user: Action, agent: Action, f: Field, id: int, x: RowId, g: Field, y: RowId)
    requires f == UserId || f == AgentId
    requires Refers(Linked(user, agent), SmallChat(Member(f, id)), x, g, y)
    ensures y == RowId(Users, 1) || y == RowId(Workspaces, 1) || y == RowId(ChatRooms, 1)
      || (x == RowId(ChatRoomMembers, 1) && g == f && y == RowId(if f == UserId then Users else Agents, id))
  {
    LinkedKeys(user, agent, x, g);
    SmallChatCells(f, id, x, g);
    if x == RowId(ChatRoomMembers, 1) {
      MemberTarget(user, agent);
    } else {
      OtherTarget(user, agent, x.table, g);
    }
  }

  lemma OneMember(f: Field, id: int, x: RowId)
    requires x in SmallChat(Member(f, id)) && x.table == ChatRoomMembers
    ensures x == RowId(ChatRoomMembers, 1) && SmallChat(Member(f, id))[x] == Member(f, id)
  {
  }

  lemma SmallTables(f: Field, id: int, x: RowId)
    requires x in SmallChat(Member(f, id))
    ensures x == RowId(ChatRoomMembers, 1) || x.table == Users || x.table == Workspaces || x.table == Agents
      || x.table == ChatRooms
  {
  }

  lemma NotNullCells(user: Action, agent: Action, t: Table, g: Field)
    requires t == Users || t == Workspaces || t == Agents || t == ChatRooms
    requires LinkedKey(user, agent, t, g).Some? && LinkedKey(user, agent, t, g).value.notNull
    ensures OtherCell(t, g)
  {
  }

  lemma FilledCells(f: Field, id: int, x: RowId, g: Field)
    requires x in SmallChat(Member(f, id)) && OtherCell(x.table, g)
    ensures g in SmallChat(Member(f, id))[x].refs
  {
  }

  lemma MemberCell(user: Action, agent: Action, g: Field)
    requires LinkedKey(user, agent, ChatRoomMembers, g).Some?
    requires LinkedKey(user, agent, ChatRoomMembers, g).value.notNull
    ensures g == RoomId
  {
  }

  lemma SmallChatHasNoNull(user: Action, agent: Action, f: Field, id: int, x: RowId, g: Field)
    requires x in SmallChat(Member(f, id)) && LinkedKey(user, agent, x.table, g).Some?
    requires LinkedKey(user, agent, x.table, g).value.notNull
    ensures g in SmallChat(Member(f, id))[x].refs
  {
    SmallTables(f, id, x);
    if x == RowId(ChatRoomMembers, 1) {
      MemberCell(user, agent, g);
      OneMember(f, id, x);
    } else {
      NotNullCells(user, agent, x.table, g);
      FilledCells(f, id, x, g);
    }
  }

  lemma SmallChatHasItsTargets(user: Action, agent: Action, f: Field, id: int, x: RowId, g: Field, y: RowId)
    requires (f == UserId && id == 2) || (f == AgentId && id == 1)
    requires Refers(Linked(user, agent), SmallChat(Member(f, id)), x, g, y)
    ensures y in SmallChat(Member(f, id))
  {
    SmallChatReferences(user, agent, f, id, x, g, y);
  }

  lemma SmallChatIsValid(user: Action, agent: Action, f: Field, id: int)
    requires (f == UserId && id == 2) || (f == AgentId && id == 1)
    ensures Valid(Linked(user, agent), SmallChat(Member(f, id)))
  {
    var s := Linked(user, agent);
    var rows := SmallChat(Member(f, id));
    forall x, g, y | Refers(s, rows, x, g, y) ensures y in rows {
      SmallChatHasItsTargets(user, agent, f, id, x, g, y);
    }
    forall x, k | x in rows && k in s.keys && k.table == x.table && s.keys[k].notNull ensures k.name in rows[x].refs {
      LinkedKeys(user, agent, x, k.name);
      SmallChatHasNoNull(user, agent, f, id, x, k.name);
    }
  }

  /** A table with one member row in it, which has one link. */
  lemma LoneMember(rows: Rows, f: Field, id: int)
    requires f == UserId || f == AgentId
    requires forall x <- rows :: x.table == ChatRoomMembers ==>
      x == RowId(ChatRoomMembers, 1) && rows[x] == Member(f, id)
    ensures MembersOk(rows)
  {
  }

  lemma SmallChatMembersOk(f: Field, id: int, rows: Rows)
    requires (f == UserId || f == AgentId) && rows == SmallChat(Member(f, id))
    ensures MembersOk(rows)
  {
    forall x | x in rows && x.table == ChatRoomMembers
      ensures x == RowId(ChatRoomMembers, 1) && rows[x] == Member(f, id)
    {
      OneMember(f, id, x);
    }
    LoneMember(rows, f, id);
  }

  /** The one reference to the root is the member's link, which is SET NULL. */
  lemma RefersToRoot(user: Action, agent: Action, f: Field, root: RowId, x: RowId, g: Field)
    requires (f == UserId && root == RowId(Users, 2) && user == SetNull)
      || (f == AgentId && root == RowId(Agents, 1) && agent == SetNull)
    requires Refers(Linked(user, agent), SmallChat(Member(f, root.id)), x, g, root)
    ensures ActionOf(Linked(user, agent), x, g) == SetNull
  {
    SmallChatReferences(user, agent, f, root.id, x, g, root);
    LinkedKeys(user, agent, x, g);
  }

  /** Where every reference to the root is SET NULL, the root goes alone. */
  lemma OnlyTheRootGoes(s: Schema, rows: Rows, root: RowId)
    requires root in rows && forall x, g :: Refers(s, rows, x, g, root) ==> ActionOf(s, x, g) == SetNull
    ensures Closure(s, rows, root) == {root} && !Blocked(s, rows, {root})
  {
    ClosureIsLeast(s, rows, root);
    assert root in {root} && ClosedUnderCascade(s, rows, {root});
  }

  lemma MemberIsCleared(user: Action, agent: Action, f: Field, root: RowId)
    requires (f == UserId && root == RowId(Users, 2) && user == SetNull)
      || (f == AgentId && root == RowId(Agents, 1) && agent == SetNull)
    ensures RowId(ChatRoomMembers, 1) in SmallChat(Member(f, root.id))
    ensures SmallChat(Member(f, root.id))[RowId(ChatRoomMembers, 1)] == Member(f, root.id)
    ensures f in Cleared(Linked(user, agent), SmallChat(Member(f, root.id)), RowId(ChatRoomMembers, 1), {root})
  {
    LinkedKeys(user, agent, RowId(ChatRoomMembers, 1), f);
  }

  /** Deleting the member's only link leaves a row that the CHECK forbids. */
  lemma ClearingBreaksTheCheck(user: Action, agent: Action, f: Field, root: RowId, rows: Rows)
    requires (f == UserId && root == RowId(Users, 2) && user == SetNull)
      || (f == AgentId && root == RowId(Agents, 1) && agent == SetNull)
    requires rows == SmallChat(Member(f, root.id))
    ensures !DeletesKeepMembers(Linked(user, agent))
  {
    var s := Linked(user, agent);
    var member := RowId(ChatRoomMembers, 1);
    SmallChatIsValid(user, agent, f, root.id);
    SmallChatMembersOk(f, root.id, rows);
    forall x, g | Refers(s, rows, x, g, root) ensures ActionOf(s, x, g) == SetNull {
      RefersToRoot(user, agent, f, root, x, g);
    }
    OnlyTheRootGoes(s, rows, root);
    MemberIsCleared(user, agent, f, root);
    BrokenMember(s, rows, root, member, f);
  }

  lemma BrokenMember(s: Schema, rows: Rows, root: RowId, member: RowId, f: Field)
    requires Valid(s, rows) && MembersOk(rows) && root in rows
    requires Closure(s, rows, root) == {root} && !Blocked(s, rows, {root})
    requires member in rows && member.table == ChatRoomMembers && member != root
    requires f in Cleared(s, rows, member, {root}) && (f == UserId || f == AgentId)
    ensures !DeletesKeepMembers(s)
  {
    var outcome := DeleteOutcome(s, rows, root, 0);
    assert member in outcome.rows && !UserOrAgent(outcome.rows[member]);
    assert outcome.Accepted? && !MembersOk(outcome.rows);
  }

  /** The CHECK survives every delete if and only if neither link is SET NULL. */
  lemma WhenDeletesKeepMembers(user: Action, agent: Action)
    ensures DeletesKeepMembers(Linked(user, agent)) <==> user != SetNull && agent != SetNull
  {
    var s := Linked(user, agent);
    LinkedKeys(user, agent, RowId(ChatRoomMembers, 0), UserId);
    LinkedKeys(user, agent, RowId(ChatRoomMembers, 0), AgentId);
    if user == SetNull {
      ClearingBreaksTheCheck(user, agent, UserId, RowId(Users, 2), SmallChat(Member(UserId, 2)));
    } else if agent == SetNull {
      ClearingBreaksTheCheck(user, agent, AgentId, RowId(Agents, 1), SmallChat(Member(AgentId, 1)));
    } else {
      forall rows, root, now | Valid(s, rows) && MembersOk(rows) && DeleteOutcome(s, rows, root, now).Accepted?
        ensures MembersOk(DeleteOutcome(s, rows, root, now).rows)
      {
        DeleteKeepsMembers(s, rows, root, now);
      }
    }
  }
}
