/** 1739700000000-CreateMultiUserChat: what `up` creates and `down` drops. */
module ChatMigration {
  import opened Prelude
  import opened Names
  import opened Catalog
  import opened Blueprints

  /** The objects that `up` creates, in order. */
  const CREATES: seq<Name> := [
    TypeN(ChatRoomType), TypeN(ChatRoomMemberRole), TypeN(ChatRoomMemberType), TypeN(InvitationStatus),
    TypeN(RestrictionKind), TypeN(ModerationActionKind), TableN(ChatRooms), TableN(ChatRoomMembers),
    TableN(ChatRoomInvitations), TableN(UserRoomRestrictions), TableN(ModerationLog), TableN(PinnedMessages),
    ColumnN(ChatMessages, RoomId), ConstraintN(ChatMessages, FK_room), IndexN(ChatRooms_workspace_id),
    IndexN(ChatRooms_workspace_type), IndexN(ChatRooms_workspace_created), IndexN(ChatRooms_project_id),
    IndexN(ChatRoomMembers_room_id), IndexN(ChatRoomMembers_user_id), IndexN(ChatRoomMembers_agent_id),
    IndexN(ChatRoomInvitations_user_status), IndexN(ChatRoomInvitations_room_status),
    IndexN(UserRoomRestrictions_room_id), IndexN(UserRoomRestrictions_user_id),
    IndexN(ModerationLog_room_created), IndexN(PinnedMessages_room_pinned), IndexN(ChatMessages_room_id),
    IndexN(ChatMessages_room_created), IndexN(ChatMessages_room_pagination)
  ]

  /** The objects that `down` drops, in order. */
  const DROPS: seq<Name> := [
    IndexN(ChatMessages_room_pagination), IndexN(ChatMessages_room_created), IndexN(ChatMessages_room_id),
    ConstraintN(ChatMessages, FK_room), ColumnN(ChatMessages, RoomId), IndexN(PinnedMessages_room_pinned),
    IndexN(ModerationLog_room_created), IndexN(UserRoomRestrictions_user_id),
    IndexN(UserRoomRestrictions_room_id), IndexN(ChatRoomInvitations_room_status),
    IndexN(ChatRoomInvitations_user_status), IndexN(ChatRoomMembers_agent_id), IndexN(ChatRoomMembers_user_id),
    IndexN(ChatRoomMembers_room_id), IndexN(ChatRooms_project_id), IndexN(ChatRooms_workspace_created),
    IndexN(ChatRooms_workspace_type), IndexN(ChatRooms_workspace_id), TableN(PinnedMessages),
    TableN(ModerationLog), TableN(UserRoomRestrictions), TableN(ChatRoomInvitations), TableN(ChatRoomMembers),
    TableN(ChatRooms), TypeN(ModerationActionKind), TypeN(RestrictionKind), TypeN(InvitationStatus),
    TypeN(ChatRoomMemberType), TypeN(ChatRoomMemberRole), TypeN(ChatRoomType)
  ]

  /** The objects of earlier migrations that this one refers to. */
  predicate Base(n: Name) {
    match n
    case TableN(t) => t == Workspaces || t == Projects || t == Users || t == Agents || t == ChatMessages
    case ColumnN(t, f) =>
      (match t
       case Workspaces => f == Id
       case Projects => f == Id
       case Users => f == Id
       case Agents => f == Id
       case ChatMessages => f == Id || f == CreatedAt
       case _ => false)
    case _ => false
  }

  const ROOM_SETTINGS := "{\"allowAgents\":true,\"threadingEnabled\":false,\"reactionsEnabled\":true}"

  function ChatRoomsColumn(f: Field): Option<Def> {
    match f
    case Id => Some(STAMP)
    case WorkspaceId => Some(REQUIRED)
    case ProjectId => Some(NULLABLE)
    case RoomName => Some(REQUIRED)
    case Description => Some(NULLABLE)
    case RoomType => Some(ColumnDef(Enum(ChatRoomType), true, Default(Str("group"))))
    case IsPrivate => Some(Preset(Bool(false)))
    case IsLocked => Some(Preset(Bool(false)))
    case CreatedById => Some(REQUIRED)
    case Settings => Some(Preset(Str(ROOM_SETTINGS)))
    case MemberCount => Some(Preset(Num(0)))
    case LastMessageAt => Some(NULLABLE)
    case CreatedAt => Some(STAMP)
    case UpdatedAt => Some(STAMP)
    case _ => None
  }

  function ChatRoomsConstraint(c: ConstraintName): Option<Def> {
    match c
    case PK => Some(KeyDef([Id]))
    case FK_workspace => Some(ForeignDef(WorkspaceId, Workspaces))
    case FK_project => Some(ForeignDef(ProjectId, Projects))
    case FK_created_by => Some(ForeignDef(CreatedById, Users))
    case _ => None
  }

  function ChatRoomMembersColumn(f: Field): Option<Def> {
    match f
    case Id => Some(STAMP)
    case RoomId => Some(REQUIRED)
    case UserId => Some(NULLABLE)
    case AgentId => Some(NULLABLE)
    case MemberType => Some(ColumnDef(Enum(ChatRoomMemberType), true, NoDefault))
    case Role => Some(ColumnDef(Enum(ChatRoomMemberRole), true, Default(Str("member"))))
    case JoinedAt => Some(STAMP)
    case LastReadAt => Some(NULLABLE)
    case IsMuted => Some(Preset(Bool(false)))
    case MutedUntil => Some(NULLABLE)
    case _ => None
  }

  function ChatRoomMembersConstraint(c: ConstraintName): Option<Def> {
    match c
    case PK => Some(KeyDef([Id]))
    case FK_room => Some(ForeignDef(RoomId, ChatRooms))
    case FK_user => Some(ForeignDef(UserId, Users))
    case FK_agent => Some(ForeignDef(AgentId, Agents))
    case UQ_room_user => Some(KeyDef([RoomId, UserId]))
    case UQ_room_agent => Some(KeyDef([RoomId, AgentId]))
    case CK_user_or_agent => Some(CheckDef(ExactlyOne(UserId, AgentId)))
    case _ => None
  }

  function ChatRoomInvitationsColumn(f: Field): Option<Def> {
    match f
    case Id => Some(STAMP)
    case RoomId => Some(REQUIRED)
    case InvitedById => Some(REQUIRED)
    case InvitedUserId => Some(REQUIRED)
    case Status => Some(ColumnDef(Enum(InvitationStatus), true, Default(Str("pending"))))
    case Role => Some(ColumnDef(Enum(ChatRoomMemberRole), true, Default(Str("member"))))
    case Message => Some(NULLABLE)
    case ExpiresAt => Some(STAMP)
    case RespondedAt => Some(NULLABLE)
    case CreatedAt => Some(STAMP)
    case _ => None
  }

  function ChatRoomInvitationsConstraint(c: ConstraintName): Option<Def> {
    match c
    case PK => Some(KeyDef([Id]))
    case FK_room => Some(ForeignDef(RoomId, ChatRooms))
    case FK_invited_by => Some(ForeignDef(InvitedById, Users))
    case FK_invited_user => Some(ForeignDef(InvitedUserId, Users))
    case _ => None
  }

  function UserRoomRestrictionsColumn(f: Field): Option<Def> {
    match f
    case Id => Some(STAMP)
    case RoomId => Some(REQUIRED)
    case UserId => Some(REQUIRED)
    case RestrictionType => Some(ColumnDef(Enum(RestrictionKind), true, NoDefault))
    case Reason => Some(NULLABLE)
    case ExpiresAt => Some(NULLABLE)
    case CreatedById => Some(REQUIRED)
    case CreatedAt => Some(STAMP)
    case _ => None
  }

  function UserRoomRestrictionsConstraint(c: ConstraintName): Option<Def> {
    match c
    case PK => Some(KeyDef([Id]))
    case FK_room => Some(ForeignDef(RoomId, ChatRooms))
    case FK_user => Some(ForeignDef(UserId, Users))
    case FK_created_by => Some(ForeignDef(CreatedById, Users))
    case UQ_room_user_type => Some(KeyDef([RoomId, UserId, RestrictionType]))
    case _ => None
  }

  function ModerationLogColumn(f: Field): Option<Def> {
    match f
    case Id => Some(STAMP)
    case RoomId => Some(REQUIRED)
    case ModeratorId => Some(REQUIRED)
    case ModerationAction => Some(ColumnDef(Enum(ModerationActionKind), true, NoDefault))
    case TargetUserId => Some(NULLABLE)
    case TargetMessageId => Some(NULLABLE)
    case Reason => Some(NULLABLE)
    case Metadata => Some(NULLABLE)
    case CreatedAt => Some(STAMP)
    case _ => None
  }

  function ModerationLogConstraint(c: ConstraintName): Option<Def> {
    match c
    case PK => Some(KeyDef([Id]))
    case FK_room => Some(ForeignDef(RoomId, ChatRooms))
    case FK_moderator => Some(ForeignDef(ModeratorId, Users))
    case FK_target_user => Some(ForeignDef(TargetUserId, Users))
    case FK_target_message => Some(ForeignDef(TargetMessageId, ChatMessages))
    case _ => None
  }

  function PinnedMessagesColumn(f: Field): Option<Def> {
    match f
    case Id => Some(STAMP)
    case RoomId => Some(REQUIRED)
    case MessageId => Some(REQUIRED)
    case PinnedById => Some(REQUIRED)
    case PinnedAt => Some(STAMP)
    case _ => None
  }

  function PinnedMessagesConstraint(c: ConstraintName): Option<Def> {
    match c
    case PK => Some(KeyDef([Id]))
    case FK_room => Some(ForeignDef(RoomId, ChatRooms))
    case FK_message => Some(ForeignDef(MessageId, ChatMessages))
    case FK_pinned_by => Some(ForeignDef(PinnedById, Users))
    case UQ_room_message => Some(KeyDef([RoomId, MessageId]))
    case _ => None
  }

  function IndexOf(x: IndexName): Option<Def> {
    match x
    case ChatRooms_workspace_id => Some(IndexDef(ChatRooms, [WorkspaceId]))
    case ChatRooms_workspace_type => Some(IndexDef(ChatRooms, [WorkspaceId, RoomType]))
    case ChatRooms_workspace_created => Some(IndexDef(ChatRooms, [WorkspaceId, CreatedAt]))
    case ChatRooms_project_id => Some(IndexDef(ChatRooms, [ProjectId]))
    case ChatRoomMembers_room_id => Some(IndexDef(ChatRoomMembers, [RoomId]))
    case ChatRoomMembers_user_id => Some(IndexDef(ChatRoomMembers, [UserId]))
    case ChatRoomMembers_agent_id => Some(IndexDef(ChatRoomMembers, [AgentId]))
    case ChatRoomInvitations_user_status => Some(IndexDef(ChatRoomInvitations, [InvitedUserId, Status]))
    case ChatRoomInvitations_room_status => Some(IndexDef(ChatRoomInvitations, [RoomId, Status]))
    case UserRoomRestrictions_room_id => Some(IndexDef(UserRoomRestrictions, [RoomId]))
    case UserRoomRestrictions_user_id => Some(IndexDef(UserRoomRestrictions, [UserId]))
    case ModerationLog_room_created => Some(IndexDef(ModerationLog, [RoomId, CreatedAt]))
    case PinnedMessages_room_pinned => Some(IndexDef(PinnedMessages, [RoomId, PinnedAt]))
    case ChatMessages_room_id => Some(IndexDef(ChatMessages, [RoomId]))
    case ChatMessages_room_created => Some(IndexDef(ChatMessages, [RoomId, CreatedAt]))
    case ChatMessages_room_pagination => Some(IndexDef(ChatMessages, [RoomId, Id]))
    case _ => None
  }

  /** The new objects. */
  function Define(n: Name): Option<Def> {
    match n
    case TypeN(ty) =>
      if ty == ChatRoomType || ty == ChatRoomMemberRole || ty == ChatRoomMemberType
        || ty == InvitationStatus || ty == RestrictionKind || ty == ModerationActionKind
      then Some(TypeDef) else None
    case TableN(t) =>
      if t == ChatRooms || t == ChatRoomMembers || t == ChatRoomInvitations || t == UserRoomRestrictions
        || t == ModerationLog || t == PinnedMessages
      then Some(TableDef) else None
    case ColumnN(t, f) =>
      (match t
       case ChatRooms => ChatRoomsColumn(f)
       case ChatRoomMembers => ChatRoomMembersColumn(f)
       case ChatRoomInvitations => ChatRoomInvitationsColumn(f)
       case UserRoomRestrictions => UserRoomRestrictionsColumn(f)
       case ModerationLog => ModerationLogColumn(f)
       case PinnedMessages => PinnedMessagesColumn(f)
       case ChatMessages =>
         if f == RoomId then Some(NULLABLE)
         else None
       case _ => None)
    case ConstraintN(t, c) =>
      (match t
       case ChatRooms => ChatRoomsConstraint(c)
       case ChatRoomMembers => ChatRoomMembersConstraint(c)
       case ChatRoomInvitations => ChatRoomInvitationsConstraint(c)
       case UserRoomRestrictions => UserRoomRestrictionsConstraint(c)
       case ModerationLog => ModerationLogConstraint(c)
       case PinnedMessages => PinnedMessagesConstraint(c)
       case ChatMessages =>
         if c == FK_room then Some(ForeignDef(RoomId, ChatRooms))
         else None
       case _ => None)
    case IndexN(x) => IndexOf(x)
  }

  /** The columns and constraints that have a statement of their own. */
  predicate Own(n: Name) {
    n == ColumnN(ChatMessages, RoomId) || n == ConstraintN(ChatMessages, FK_room)
  }

  function Objects(): Definitions {
    Definitions(Define, Own, Base)
  }

  function Migration(): Blueprint {
    Blueprint(CREATES, DROPS, Objects(), true, n => true)
  }

  // ---------------------------------------------------------------- the lists meet the conditions

  lemma Distinct(i: int, j: int)
    ensures 0 <= i < j < |CREATES| ==> CREATES[i] != CREATES[j]
  {}

  lemma Heads(i: int)
    ensures Objects().HeadsAt(CREATES, i)
  {}

  lemma Listed(n: Name)
    ensures Objects().ListedAt(CREATES, n)
  {}

  lemma BuildsIndexesInOrder(i: int, j: int, n: Name)
    ensures n.IndexN? ==> Objects().BuildsInOrderAt(CREATES, i, j, n)
  {}

  lemma BuildsOthersInOrder(i: int, j: int, n: Name)
    ensures !n.IndexN? ==> Objects().BuildsInOrderAt(CREATES, i, j, n)
  {}

  lemma DropsIndexesInOrder(i: int, j: int, n: Name)
    ensures n.IndexN? ==> Objects().DropsInOrderAt(DROPS, i, j, n)
  {}

  lemma DropsColumnsInOrder(i: int, j: int, n: Name)
    ensures n.ColumnN? ==> Objects().DropsInOrderAt(DROPS, i, j, n)
  {}

  lemma DropsKeysInOrder(i: int, j: int, n: Name)
    ensures n.ConstraintN? ==> Objects().DropsInOrderAt(DROPS, i, j, n)
  {}

  lemma DropsTablesInOrder(i: int, j: int, n: Name)
    ensures n.TableN? || n.TypeN? ==> Objects().DropsInOrderAt(DROPS, i, j, n)
  {}

  lemma References(n: Name)
    ensures Objects().TypeThere(n) && Objects().TargetThere(n)
  {}

  lemma Shapes(n: Name)
    ensures Objects().ShapedAt(n)
  {}

  lemma Homes(n: Name)
    ensures Objects().HomeThere(n) && (Base(n) ==> !n.TypeN?)
  {}

  lemma Harmless(n: Name)
    ensures Objects().HarmlessAt(n)
  {}

  lemma Fields(n: Name, k: int)
    ensures Objects().FieldThere(n, k)
  {}

  /** Position by position and name by name, the lists meet every condition of a good plan. */
  lemma IsGood()
    ensures Migration().Good()
  {
    forall i, j, n ensures Migration().GoodAt(i, j, n) {
      Distinct(i, j);
      Heads(i);
      Listed(n);
      BuildsIndexesInOrder(i, j, n);
      BuildsOthersInOrder(i, j, n);
      DropsIndexesInOrder(i, j, n);
      DropsColumnsInOrder(i, j, n);
      DropsKeysInOrder(i, j, n);
      DropsTablesInOrder(i, j, n);
      References(n);
      Shapes(n);
      Homes(n);
      Harmless(n);
      Fields(n, i);
    }
    Migration().GoodFromEach();
  }
}
