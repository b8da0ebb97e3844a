/**
  The tables as the migrations create them: the keys of ChatSchema have the same columns and
  targets, and are NOT NULL exactly where the column is; the constraints of chat_room_members
  enforce its invariant.
 */
module SchemaMatch {
  import opened Prelude
  import opened Names
  import opened ChatSchema
  import opened Catalog
  import opened Integrity
  import ChatMigration
  import HistoryMigration

  /** Column f has a key to the target, which is NOT NULL if the column is. */
  predicate AsDefined(t: Table, f: Field, target: Table, column: Option<Def>) {
    match KeyOf(t, f)
    case None => false
    case Some(k) => k.target == target && k.notNull == match column
      case Some(ColumnDef(_, notNull, _)) => notNull
      case _ => false
  }

  lemma RoomKeysAsDefined(t: Table, c: ConstraintName, f: Field, target: Table)
    requires t == ChatRooms && ChatMigration.Define(ConstraintN(t, c)) == Some(ForeignDef(f, target))
    ensures AsDefined(t, f, target, ChatMigration.Define(ColumnN(t, f)))
  {
  }

  lemma MemberKeysAsDefined(t: Table, c: ConstraintName, f: Field, target: Table)
    requires t == ChatRoomMembers && ChatMigration.Define(ConstraintN(t, c)) == Some(ForeignDef(f, target))
    ensures AsDefined(t, f, target, ChatMigration.Define(ColumnN(t, f)))
  {
  }

  lemma InvitationKeysAsDefined(t: Table, c: ConstraintName, f: Field, target: Table)
    requires t == ChatRoomInvitations && ChatMigration.Define(ConstraintN(t, c)) == Some(ForeignDef(f, target))
    ensures AsDefined(t, f, target, ChatMigration.Define(ColumnN(t, f)))
  {
  }

  lemma RestrictionKeysAsDefined(t: Table, c: ConstraintName, f: Field, target: Table)
    requires t == UserRoomRestrictions && ChatMigration.Define(ConstraintN(t, c)) == Some(ForeignDef(f, target))
    ensures AsDefined(t, f, target, ChatMigration.Define(ColumnN(t, f)))
  {
  }

  lemma LogKeysAsDefined(t: Table, c: ConstraintName, f: Field, target: Table)
    requires t == ModerationLog && ChatMigration.Define(ConstraintN(t, c)) == Some(ForeignDef(f, target))
    ensures AsDefined(t, f, target, ChatMigration.Define(ColumnN(t, f)))
  {
  }

  lemma PinKeysAsDefined(t: Table, c: ConstraintName, f: Field, target: Table)
    requires t == PinnedMessages && ChatMigration.Define(ConstraintN(t, c)) == Some(ForeignDef(f, target))
    ensures AsDefined(t, f, target, ChatMigration.Define(ColumnN(t, f)))
  {
  }

  lemma MessageKeysAsDefined(t: Table, c: ConstraintName, f: Field, target: Table)
    requires t == ChatMessages
    requires ChatMigration.Define(ConstraintN(t, c)) == Some(ForeignDef(f, target))
    ensures AsDefined(t, f, target, ChatMigration.Define(ColumnN(t, f)))
  {
  }

  lemma ThreadKeysAsDefined(t: Table, c: ConstraintName, f: Field, target: Table)
    requires t == ConversationThreads || t == ChatMessages
    requires HistoryMigration.Define(ConstraintN(t, c)) == Some(ForeignDef(f, target))
    ensures AsDefined(t, f, target, HistoryMigration.Define(ColumnN(t, f)))
  {
    match t
    case ConversationThreads =>
    case ChatMessages =>
  }

  lemma NoOtherChatKeys(t: Table, c: ConstraintName)
    requires GroupOf(t) != Rooms && t != PinnedMessages && t != ChatMessages
    ensures ChatMigration.Define(ConstraintN(t, c)) == None
  {}

  lemma NoOtherThreadKeys(t: Table, c: ConstraintName)
    requires t != ConversationThreads && t != ChatMessages
    ensures HistoryMigration.Define(ConstraintN(t, c)) == None
  {}

  /**
    Every foreign key that the chat migration creates is in the schema, with its target, and
    NOT NULL as its column.
   */
  lemma SchemaHasChatKeys(t: Table, c: ConstraintName, f: Field, target: Table)
    requires ChatMigration.Define(ConstraintN(t, c)) == Some(ForeignDef(f, target))
    ensures AsDefined(t, f, target, ChatMigration.Define(ColumnN(t, f)))
  {
    match t
    case ChatRooms => RoomKeysAsDefined(t, c, f, target);
    case ChatRoomMembers => MemberKeysAsDefined(t, c, f, target);
    case ChatRoomInvitations => InvitationKeysAsDefined(t, c, f, target);
    case UserRoomRestrictions => RestrictionKeysAsDefined(t, c, f, target);
    case ModerationLog => LogKeysAsDefined(t, c, f, target);
    case PinnedMessages => PinKeysAsDefined(t, c, f, target);
    case ChatMessages => MessageKeysAsDefined(t, c, f, target);
    case _ => NoOtherChatKeys(t, c);
  }

  /** The same for the conversation history. */
  lemma SchemaHasThreadKeys(t: Table, c: ConstraintName, f: Field, target: Table)
    requires HistoryMigration.Define(ConstraintN(t, c)) == Some(ForeignDef(f, target))
    ensures AsDefined(t, f, target, HistoryMigration.Define(ColumnN(t, f)))
  {
    if t == ConversationThreads || t == ChatMessages {
      ThreadKeysAsDefined(t, c, f, target);
    } else {
      NoOtherThreadKeys(t, c);
    }
  }

  // ---------------------------------------------------------------- members

  predicate OfMembers(n: Name) {
    (n.TableN? || n.ColumnN? || n.ConstraintN?) && n.table == ChatRoomMembers
  }

  /** The objects of chat_room_members are as the migration defines them. */
  ghost predicate HasMembers(db: Db) {
    forall n: Name :: OfMembers(n) && ChatMigration.Define(n).Some? ==>
      n in db.objects && db.objects[n] == ChatMigration.Define(n).value
  }

  predicate Is(db: Db, n: Name, d: Def) {
    n in db.objects && db.objects[n] == d
  }

  lemma Has(db: Db, n: Name, d: Def)
    requires HasMembers(db) && OfMembers(n) && ChatMigration.Define(n) == Some(d)
    ensures Is(db, n, d)
  {
  }

  lemma RoomDefinitions(db: Db)
    requires HasMembers(db)
    ensures Is(db, ColumnN(ChatRoomMembers, RoomId), REQUIRED)
    ensures Is(db, ConstraintN(ChatRoomMembers, FK_room), ForeignDef(RoomId, ChatRooms))
    ensures Is(db, ConstraintN(ChatRoomMembers, CK_user_or_agent), CheckDef(ExactlyOne(UserId, AgentId)))
  {
    Has(db, ColumnN(ChatRoomMembers, RoomId), REQUIRED);
    Has(db, ConstraintN(ChatRoomMembers, FK_room), ForeignDef(RoomId, ChatRooms));
    Has(db, ConstraintN(ChatRoomMembers, CK_user_or_agent), CheckDef(ExactlyOne(UserId, AgentId)));
  }

  lemma UserDefinitions(db: Db)
    requires HasMembers(db)
    ensures Is(db, ConstraintN(ChatRoomMembers, FK_user), ForeignDef(UserId, Users))
    ensures Is(db, ConstraintN(ChatRoomMembers, UQ_room_user), KeyDef([RoomId, UserId]))
  {
    Has(db, ConstraintN(ChatRoomMembers, FK_user), ForeignDef(UserId, Users));
    Has(db, ConstraintN(ChatRoomMembers, UQ_room_user), KeyDef([RoomId, UserId]));
  }

  lemma AgentDefinitions(db: Db)
    requires HasMembers(db)
    ensures Is(db, ConstraintN(ChatRoomMembers, FK_agent), ForeignDef(AgentId, Agents))
    ensures Is(db, ConstraintN(ChatRoomMembers, UQ_room_agent), KeyDef([RoomId, AgentId]))
  {
    Has(db, ConstraintN(ChatRoomMembers, FK_agent), ForeignDef(AgentId, Agents));
    Has(db, ConstraintN(ChatRoomMembers, UQ_room_agent), KeyDef([RoomId, AgentId]));
  }

  ghost predicate RowOf(tuples: Tuples, value: Value) {
    exists id <- tuples :: value == Num(id)
  }

  /** A foreign key in an intact database: each row has NULL there, or the id of a row of the target. */
  lemma Linked(db: Db, t: Table, c: ConstraintName, f: Field, target: Table, i: int)
    requires Intact(db) && Is(db, ConstraintN(t, c), ForeignDef(f, target))
    ensures t in db.data && target in db.data
    ensures i in db.data[t] ==>
      f in db.data[t][i] && (db.data[t][i][f] == Null || RowOf(db.data[target], db.data[t][i][f]))
  {
    var n := ConstraintN(t, c);
    assert {TableN(t), ColumnN(t, f), TableN(target)} <= Needs(n, db.objects[n]);
    assert Satisfies(db.data, n, db.objects[n]);
    if i in db.data[t] && db.data[t][i][f] != Null {
      assert db.data[t][i][f] == Num(db.data[t][i][f].n);
    }
  }

  lemma Holds(db: Db, n: Name, d: Def)
    requires Intact(db) && Is(db, n, d)
    ensures Satisfies(db.data, n, d)
  {
  }

  lemma Required(db: Db, t: Table, f: Field, i: int)
    requires Intact(db) && Is(db, ColumnN(t, f), REQUIRED) && t in db.data && i in db.data[t]
    ensures f in db.data[t][i] && db.data[t][i][f] != Null
  {
    Holds(db, ColumnN(t, f), REQUIRED);
  }

  lemma OneOfTwo(data: map<Table, Tuples>, t: Table, c: ConstraintName, f: Field, g: Field, i: int)
    requires Satisfies(data, ConstraintN(t, c), CheckDef(ExactlyOne(f, g)))
    requires t in data && i in data[t] && f in data[t][i] && g in data[t][i]
    ensures (data[t][i][f] == Null) != (data[t][i][g] == Null)
  {
    assert Passes(ExactlyOne(f, g), data[t][i]);
  }

  /** Rows that agree in both columns of a unique pair, without NULL, are one. */
  lemma UniquePair(db: Db, t: Table, c: ConstraintName, f: Field, g: Field, i: int, j: int)
    requires Intact(db) && Is(db, ConstraintN(t, c), KeyDef([f, g]))
    requires t in db.data && i in db.data[t] && j in db.data[t]
    requires f in db.data[t][i] && g in db.data[t][i] && f in db.data[t][j] && g in db.data[t][j]
    requires db.data[t][i][f] == db.data[t][j][f] != Null && db.data[t][i][g] == db.data[t][j][g] != Null
    ensures i == j
  {
    Holds(db, ConstraintN(t, c), KeyDef([f, g]));
  }

  /**
    In every database where the constraints of the migration hold, each member is in an
    existing room and is exactly one of an existing user and an existing agent.
   */
  lemma MembersOfDatabase(db: Db, i: int)
    requires Intact(db) && HasMembers(db)
    ensures ChatRoomMembers in db.data && ChatRooms in db.data && Users in db.data && Agents in db.data
    ensures i in db.data[ChatRoomMembers] ==>
      var row := db.data[ChatRoomMembers][i];
      && RoomId in row && UserId in row && AgentId in row && RowOf(db.data[ChatRooms], row[RoomId])
      && ((row[UserId] == Null && RowOf(db.data[Agents], row[AgentId]))
          || (row[AgentId] == Null && RowOf(db.data[Users], row[UserId])))
  {
    RoomDefinitions(db);
    UserDefinitions(db);
    AgentDefinitions(db);
    MemberLinks(db, i);
  }

  lemma MemberLinks(db: Db, i: int)
    requires Intact(db)
    requires Is(db, ColumnN(ChatRoomMembers, RoomId), REQUIRED)
    requires Is(db, ConstraintN(ChatRoomMembers, FK_room), ForeignDef(RoomId, ChatRooms))
    requires Is(db, ConstraintN(ChatRoomMembers, FK_user), ForeignDef(UserId, Users))
    requires Is(db, ConstraintN(ChatRoomMembers, FK_agent), ForeignDef(AgentId, Agents))
    requires Is(db, ConstraintN(ChatRoomMembers, CK_user_or_agent), CheckDef(ExactlyOne(UserId, AgentId)))
    ensures ChatRoomMembers in db.data && ChatRooms in db.data && Users in db.data && Agents in db.data
    ensures i in db.data[ChatRoomMembers] ==>
      var row := db.data[ChatRoomMembers][i];
      && RoomId in row && UserId in row && AgentId in row && RowOf(db.data[ChatRooms], row[RoomId])
      && ((row[UserId] == Null && RowOf(db.data[Agents], row[AgentId]))
          || (row[AgentId] == Null && RowOf(db.data[Users], row[UserId])))
  {
    Linked(db, ChatRoomMembers, FK_room, RoomId, ChatRooms, i);
    Linked(db, ChatRoomMembers, FK_user, UserId, Users, i);
    Linked(db, ChatRoomMembers, FK_agent, AgentId, Agents, i);
    if i in db.data[ChatRoomMembers] {
      Required(db, ChatRoomMembers, RoomId, i);
      OneLink(db, i);
    }
  }

  lemma OneLink(db: Db, i: int)
    requires Intact(db) && ChatRoomMembers in db.data && i in db.data[ChatRoomMembers]
    requires Is(db, ConstraintN(ChatRoomMembers, CK_user_or_agent), CheckDef(ExactlyOne(UserId, AgentId)))
    requires UserId in db.data[ChatRoomMembers][i] && AgentId in db.data[ChatRoomMembers][i]
    ensures (db.data[ChatRoomMembers][i][UserId] == Null) != (db.data[ChatRoomMembers][i][AgentId] == Null)
  {
    Holds(db, ConstraintN(ChatRoomMembers, CK_user_or_agent), CheckDef(ExactlyOne(UserId, AgentId)));
    OneOfTwo(db.data, ChatRoomMembers, CK_user_or_agent, UserId, AgentId, i);
  }

  /** And no user and no agent is in a room twice. */
  lemma NobodyIsTwice(db: Db, i: int, j: int, f: Field)
    requires Intact(db) && HasMembers(db) && (f == UserId || f == AgentId)
    requires ChatRoomMembers in db.data && i in db.data[ChatRoomMembers] && j in db.data[ChatRoomMembers]
    ensures var a, b := db.data[ChatRoomMembers][i], db.data[ChatRoomMembers][j];
      && RoomId in a && f in a && RoomId in b && f in b
      && (a[RoomId] == b[RoomId] && a[f] == b[f] && a[f] != Null ==> i == j)
  {
    MembersOfDatabase(db, i);
    MembersOfDatabase(db, j);
    if f == UserId {
      UserDefinitions(db);
      NotTwice(db, UQ_room_user, f, i, j);
    } else {
      AgentDefinitions(db);
      NotTwice(db, UQ_room_agent, f, i, j);
    }
  }

  lemma NotTwice(db: Db, c: ConstraintName, f: Field, i: int, j: int)
    requires Intact(db) && Is(db, ConstraintN(ChatRoomMembers, c), KeyDef([RoomId, f]))
    requires ChatRoomMembers in db.data && i in db.data[ChatRoomMembers] && j in db.data[ChatRoomMembers]
    requires var a, b := db.data[ChatRoomMembers][i], db.data[ChatRoomMembers][j];
      RoomId in a && f in a && RoomId in b && f in b && a[RoomId] != Null
    ensures var a, b := db.data[ChatRoomMembers][i], db.data[ChatRoomMembers][j];
      a[RoomId] == b[RoomId] && a[f] == b[f] && a[f] != Null ==> i == j
  {
    var a, b := db.data[ChatRoomMembers][i], db.data[ChatRoomMembers][j];
    if a[RoomId] == b[RoomId] && a[f] == b[f] && a[f] != Null {
      UniquePair(db, ChatRoomMembers, c, RoomId, f, i, j);
    }
  }
}
