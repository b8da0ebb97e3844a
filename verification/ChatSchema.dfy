/**
  The foreign keys around users, workspaces, projects, agents and chat, as created by the
  migrations before 1769913983449, and the chat-member invariant that rests on them.
 */
module ChatSchema {
  import opened Names
  import opened Referential
  import opened Prelude

  /** The two tables whose trigger InitialSchema creates. */
  const STAMPED: set<Table> := {Users, Workspaces}

  /** The foreign key on column f of table t, if there is one. */
  function KeyOf(t: Table, f: Field): Option<ForeignKey> {
    match (t, f)
    // users <-> workspaces: a cycle
    case (Workspaces, OwnerUserId) => Some(ForeignKey(Users, Cascade, true))
    case (Users, CurrentWorkspaceId) => Some(ForeignKey(Workspaces, SetNull, false))
    case (WorkspaceMembers, WorkspaceId) => Some(ForeignKey(Workspaces, Cascade, true))
    case (WorkspaceMembers, UserId) => Some(ForeignKey(Users, Cascade, true))
    case (WorkspaceInvitations, WorkspaceId) => Some(ForeignKey(Workspaces, Cascade, true))
    case (WorkspaceInvitations, InviterUserId) => Some(ForeignKey(Users, Cascade, true))
    case (Projects, WorkspaceId) => Some(ForeignKey(Workspaces, Cascade, true))
    case (Projects, CreatedByUserId) => Some(ForeignKey(Users, Cascade, true))
    case (ProjectPreferences, ProjectId) => Some(ForeignKey(Projects, Cascade, true))
    case (Agents, WorkspaceId) => Some(ForeignKey(Workspaces, Cascade, true))
    case (Agents, ProjectId) => Some(ForeignKey(Projects, Cascade, false))
    case (Agents, CreatedBy) => Some(ForeignKey(Users, Cascade, true))
    // messages, status updates, threads
    case (ChatMessages, WorkspaceId) => Some(ForeignKey(Workspaces, Cascade, true))
    case (ChatMessages, ProjectId) => Some(ForeignKey(Projects, Cascade, false))
    case (ChatMessages, AgentId) => Some(ForeignKey(Agents, SetNull, false))
    case (ChatMessages, UserId) => Some(ForeignKey(Users, SetNull, false))
    case (ChatMessages, ConversationId) => Some(ForeignKey(ConversationThreads, SetNull, false))
    case (ChatMessages, RoomId) => Some(ForeignKey(ChatRooms, Cascade, false))
    case (AgentStatusUpdates, WorkspaceId) => Some(ForeignKey(Workspaces, Cascade, true))
    case (AgentStatusUpdates, ProjectId) => Some(ForeignKey(Projects, Cascade, false))
    case (AgentStatusUpdates, AgentId) => Some(ForeignKey(Agents, Cascade, true))
    case (AgentStatusUpdates, ChatMessageId) => Some(ForeignKey(ChatMessages, SetNull, false))
    case (ConversationThreads, WorkspaceId) => Some(ForeignKey(Workspaces, Cascade, true))
    case (ConversationThreads, ProjectId) => Some(ForeignKey(Projects, Cascade, false))
    case (ConversationThreads, AgentId) => Some(ForeignKey(Agents, SetNull, false))
    // rooms
    case (ChatRooms, WorkspaceId) => Some(ForeignKey(Workspaces, Cascade, true))
    case (ChatRooms, ProjectId) => Some(ForeignKey(Projects, Cascade, false))
    case (ChatRooms, CreatedById) => Some(ForeignKey(Users, Cascade, true))
    case (ChatRoomMembers, RoomId) => Some(ForeignKey(ChatRooms, Cascade, true))
    case (ChatRoomMembers, UserId) => Some(ForeignKey(Users, Cascade, false))
    case (ChatRoomMembers, AgentId) => Some(ForeignKey(Agents, Cascade, false))
    case (ChatRoomInvitations, RoomId) => Some(ForeignKey(ChatRooms, Cascade, true))
    case (ChatRoomInvitations, InvitedById) => Some(ForeignKey(Users, Cascade, true))
    case (ChatRoomInvitations, InvitedUserId) => Some(ForeignKey(Users, Cascade, true))
    case (UserRoomRestrictions, RoomId) => Some(ForeignKey(ChatRooms, Cascade, true))
    case (UserRoomRestrictions, UserId) => Some(ForeignKey(Users, Cascade, true))
    case (UserRoomRestrictions, CreatedById) => Some(ForeignKey(Users, Cascade, true))
    case (ModerationLog, RoomId) => Some(ForeignKey(ChatRooms, Cascade, true))
    case (ModerationLog, ModeratorId) => Some(ForeignKey(Users, Cascade, true))
    case (ModerationLog, TargetUserId) => Some(ForeignKey(Users, SetNull, false))
    case (ModerationLog, TargetMessageId) => Some(ForeignKey(ChatMessages, SetNull, false))
    case (PinnedMessages, RoomId) => Some(ForeignKey(ChatRooms, Cascade, true))
    case (PinnedMessages, MessageId) => Some(ForeignKey(ChatMessages, Cascade, true))
    case (PinnedMessages, PinnedById) => Some(ForeignKey(Users, Cascade, true))
    case _ => None
  }

  function Chat(): Schema {
    Schema(map t: Table, f: Field | KeyOf(t, f).Some? :: Column(t, f) := KeyOf(t, f).value, STAMPED)
  }

  /** The columns that lose their value with what they reference; all other keys take the row along. */
  predicate OutlivesTarget(t: Table, f: Field) {
    match t
    case Users => f == CurrentWorkspaceId
    case ChatMessages => f == AgentId || f == UserId || f == ConversationId
    case AgentStatusUpdates => f == ChatMessageId
    case ConversationThreads => f == AgentId
    case ModerationLog => f == TargetUserId || f == TargetMessageId
    case _ => false
  }

  /** The columns of the other keys that may be NULL. */
  predicate Optional(t: Table, f: Field) {
    (f == ProjectId && t != ProjectPreferences) || (t == ChatMessages && f == RoomId)
      || (t == ChatRoomMembers && (f == UserId || f == AgentId))
  }

  /** The key references the table it is named after, and is SET NULL and NOT NULL as said above. */
  predicate AsSaid(t: Table, f: Field, k: ForeignKey) {
    && k.target == Referenced(f)
    && k.onDelete == (if OutlivesTarget(t, f) then SetNull else Cascade)
    && (k.notNull <==> !OutlivesTarget(t, f) && !Optional(t, f))
  }

  datatype Group = Accounts | Agency | Messages | Rooms | Keyless

  function GroupOf(t: Table): Group {
    match t
    case Users => Accounts
    case Workspaces => Accounts
    case WorkspaceMembers => Accounts
    case WorkspaceInvitations => Accounts
    case Projects => Accounts
    case ChatMessages => Messages
    case AgentStatusUpdates => Messages
    case ConversationThreads => Messages
    case PinnedMessages => Messages
    case ChatRooms => Rooms
    case ChatRoomMembers => Rooms
    case ChatRoomInvitations => Rooms
    case UserRoomRestrictions => Rooms
    case ModerationLog => Rooms
    case ProjectPreferences => Agency
    case Agents => Agency
    case _ => Keyless
  }

  lemma AccountKeys(t: Table, f: Field, k: ForeignKey)
    requires KeyOf(t, f) == Some(k) && GroupOf(t) == Accounts
    ensures AsSaid(t, f, k)
  {
    match t
    case Users =>
    case Workspaces =>
    case WorkspaceMembers =>
    case WorkspaceInvitations =>
    case Projects =>
  }

  lemma MessageKeys(t: Table, f: Field, k: ForeignKey)
    requires KeyOf(t, f) == Some(k) && GroupOf(t) == Messages
    ensures AsSaid(t, f, k)
  {
    match t
    case ChatMessages =>
    case AgentStatusUpdates =>
    case ConversationThreads =>
    case PinnedMessages =>
  }

  lemma RoomKeys(t: Table, f: Field, k: ForeignKey)
    requires KeyOf(t, f) == Some(k) && GroupOf(t) == Rooms
    ensures AsSaid(t, f, k)
  {
    match t
    case ChatRooms =>
    case ChatRoomMembers =>
    case ChatRoomInvitations =>
    case UserRoomRestrictions =>
    case ModerationLog =>
  }

  lemma AgentKeys(t: Table, f: Field, k: ForeignKey)
    requires KeyOf(t, f) == Some(k) && GroupOf(t) == Agency
    ensures AsSaid(t, f, k)
  {
    match t
    case ProjectPreferences =>
    case Agents =>
  }

  lemma KeylessTables(t: Table, f: Field)
    requires GroupOf(t) == Keyless
    ensures KeyOf(t, f) == None
  {}

  lemma ChatKeysExactly(t: Table, f: Field, k: ForeignKey)
    requires KeyOf(t, f) == Some(k)
    ensures AsSaid(t, f, k)
  {
    match GroupOf(t)
    case Accounts => AccountKeys(t, f, k);
    case Agency => AgentKeys(t, f, k);
    case Messages => MessageKeys(t, f, k);
    case Rooms => RoomKeys(t, f, k);
    case Keyless => KeylessTables(t, f);
  }

  lemma ChatIsWellFormed()
    ensures WellFormed(Chat())
    ensures forall k <- Chat().keys :: Chat().keys[k].onDelete != NoAction
  {}

  /** With no NO ACTION in the schema, every delete is accepted and leaves a valid store. */
  lemma ChatDeletesAreAccepted(rows: Rows, root: RowId, now: int)
    requires Valid(Chat(), rows)
    ensures DeleteOutcome(Chat(), rows, root, now).Accepted?
    ensures Valid(Chat(), DeleteOutcome(Chat(), rows, root, now).rows)
  {
    ChatIsWellFormed();
    DeleteKeepsValid(Chat(), rows, root, now);
  }

  lemma ChatActionAt(rows: Rows, x: RowId, f: Field, y: RowId)
    requires Refers(Chat(), rows, x, f, y)
    ensures ActionOf(Chat(), x, f) == if OutlivesTarget(x.table, f) then SetNull else Cascade
  {
    ChatKeysExactly(x.table, f, KeyOf(x.table, f).value);
  }

  /**
    What outlives what: a row whose other references all stay loses the reference to what is
    deleted; so messages outlive their author, threads and messages their agent, and users
    their current workspace.
   */
  lemma ChatRowOutlives(rows: Rows, root: RowId, now: int, x: RowId, f: Field, y: RowId)
    requires Valid(Chat(), rows) && x != root && y in Closure(Chat(), rows, root)
    requires Refers(Chat(), rows, x, f, y) && OutlivesTarget(x.table, f)
    requires forall g, z :: Refers(Chat(), rows, x, g, z) && !OutlivesTarget(x.table, g) ==>
      z !in Closure(Chat(), rows, root)
    ensures DeleteOutcome(Chat(), rows, root, now).Accepted?
    ensures var after := DeleteOutcome(Chat(), rows, root, now).rows; x in after && f !in after[x].refs && y !in after
  {
    var s := Chat();
    ChatDeletesAreAccepted(rows, root, now);
    ChatActionAt(rows, x, f, y);
    forall g, z | Refers(s, rows, x, g, z) && ActionOf(s, x, g) == Cascade ensures z !in Closure(s, rows, root) {
      ChatActionAt(rows, x, g, z);
    }
    OutlivesAndIsCleared(s, rows, root, now, x, f, y);
  }
}
