/** 1739600000000-AddConversationHistory: what `up` creates and `down` drops. */
module HistoryMigration {
  import opened Prelude
  import opened Names
  import opened Catalog
  import opened Blueprints

  /** The objects that `up` creates, in order. */
  const CREATES: seq<Name> := [
    TableN(ConversationThreads), ConstraintN(ConversationThreads, FK_workspace),
    ConstraintN(ConversationThreads, FK_project), ConstraintN(ConversationThreads, FK_agent),
    IndexN(ConversationThreads_workspace_id), IndexN(ConversationThreads_workspace_created_at),
    IndexN(ConversationThreads_workspace_last_message),
    IndexN(ConversationThreads_workspace_agent_last_message), ColumnN(ChatMessages, ConversationId),
    ColumnN(ChatMessages, IsArchived), ColumnN(ChatMessages, ArchivedAt),
    ConstraintN(ChatMessages, FK_conversation), IndexN(ChatMessages_conversation_id),
    IndexN(ChatMessages_workspace_conversation_created_at), IndexN(ChatMessages_is_archived),
    ColumnN(ChatMessages, SearchVector), IndexN(ChatMessages_search_vector)
  ]

  /** The objects that `down` drops, in order. */
  const DROPS: seq<Name> := [
    IndexN(ChatMessages_search_vector), ColumnN(ChatMessages, SearchVector), IndexN(ChatMessages_is_archived),
    IndexN(ChatMessages_workspace_conversation_created_at), IndexN(ChatMessages_conversation_id),
    ConstraintN(ChatMessages, FK_conversation), ColumnN(ChatMessages, ArchivedAt),
    ColumnN(ChatMessages, IsArchived), ColumnN(ChatMessages, ConversationId),
    IndexN(ConversationThreads_workspace_agent_last_message),
    IndexN(ConversationThreads_workspace_last_message), IndexN(ConversationThreads_workspace_created_at),
    IndexN(ConversationThreads_workspace_id), ConstraintN(ConversationThreads, FK_agent),
    ConstraintN(ConversationThreads, FK_project), ConstraintN(ConversationThreads, FK_workspace),
    TableN(ConversationThreads)
  ]

  /** The objects of earlier migrations that this one refers to. */
  predicate Base(n: Name) {
    match n
    case TableN(t) => t == Workspaces || t == Projects || t == Agents || t == ChatMessages
    case ColumnN(t, f) =>
      (match t
       case Workspaces => f == Id
       case Projects => f == Id
       case Agents => f == Id
       case ChatMessages => f == Id || f == WorkspaceId || f == CreatedAt || f == MessageText
       case _ => false)
    case _ => false
  }

  function ConversationThreadsColumn(f: Field): Option<Def> {
    match f
    case Id => Some(STAMP)
    case WorkspaceId => Some(REQUIRED)
    case ProjectId => Some(NULLABLE)
    case AgentId => Some(NULLABLE)
    case Title => Some(NULLABLE)
    case MessageCount => Some(Preset(Num(0)))
    case LastMessageAt => Some(NULLABLE)
    case LastMessagePreview => Some(NULLABLE)
    case IsArchived => Some(Preset(Bool(false)))
    case ArchivedAt => Some(NULLABLE)
    case CreatedAt => Some(STAMP)
    case UpdatedAt => Some(STAMP)
    case _ => None
  }

  function ConversationThreadsConstraint(c: ConstraintName): Option<Def> {
    match c
    case PK => Some(KeyDef([Id]))
    case FK_workspace => Some(ForeignDef(WorkspaceId, Workspaces))
    case FK_project => Some(ForeignDef(ProjectId, Projects))
    case FK_agent => Some(ForeignDef(AgentId, Agents))
    case _ => None
  }

  function IndexOf(x: IndexName): Option<Def> {
    match x
    case ConversationThreads_workspace_id => Some(IndexDef(ConversationThreads, [WorkspaceId]))
    case ConversationThreads_workspace_created_at => Some(IndexDef(ConversationThreads, [WorkspaceId, CreatedAt]))
    case ConversationThreads_workspace_last_message => Some(IndexDef(ConversationThreads, [WorkspaceId, LastMessageAt]))
    case ConversationThreads_workspace_agent_last_message =>
      Some(IndexDef(ConversationThreads, [WorkspaceId, AgentId, LastMessageAt]))
    case ChatMessages_conversation_id => Some(IndexDef(ChatMessages, [ConversationId]))
    case ChatMessages_workspace_conversation_created_at =>
      Some(IndexDef(ChatMessages, [WorkspaceId, ConversationId, CreatedAt]))
    case ChatMessages_is_archived => Some(IndexDef(ChatMessages, [IsArchived]))
    case ChatMessages_search_vector => Some(IndexDef(ChatMessages, [SearchVector]))
    case _ => None
  }

  /** The new objects. */
  function Define(n: Name): Option<Def> {
    match n
    case TypeN(_) => None
    case TableN(t) =>
      if t == ConversationThreads
      then Some(TableDef) else None
    case ColumnN(t, f) =>
      (match t
       case ConversationThreads => ConversationThreadsColumn(f)
       case ChatMessages =>
         if f == ConversationId then Some(NULLABLE)
         else if f == IsArchived then Some(Preset(Bool(false)))
         else if f == ArchivedAt then Some(NULLABLE)
         else if f == SearchVector then Some(ColumnDef(Builtin, false, Generated(MessageText)))
         else None
       case _ => None)
    case ConstraintN(t, c) =>
      (match t
       case ConversationThreads => ConversationThreadsConstraint(c)
       case ChatMessages =>
         if c == FK_conversation then Some(ForeignDef(ConversationId, ConversationThreads))
         else None
       case _ => None)
    case IndexN(x) => IndexOf(x)
  }

  /** The columns and constraints that have a statement of their own. */
  predicate Own(n: Name) {
    (n.ColumnN? && n.table == ChatMessages) || (n.ConstraintN? && n.constraint != PK)
  }

  function Objects(): Definitions {
    Definitions(Define, Own, Base)
  }

  function Migration(): Blueprint {
    Blueprint(CREATES, DROPS, Objects(), false, n => true)
  }

  // ---------------------------------------------------------------- the lists meet the conditions

  lemma Distinct(i: int, j: int)
    ensures 0 <= i < j < |CREATES| ==> CREATES[i] != CREATES[j]
  {}

  lemma FirstHeads(i: int)
    ensures i < 9 ==> Objects().HeadsAt(CREATES, i)
  {}

  lemma LaterHeads(i: int)
    ensures i >= 9 ==> Objects().HeadsAt(CREATES, i)
  {}

  lemma Listed(n: Name)
    ensures Objects().ListedAt(CREATES, n)
  {}

  lemma BuildsIndexesInOrder(i: int, j: int, n: Name)
    ensures n.IndexN? ==> Objects().BuildsInOrderAt(CREATES, i, j, n)
  {}

  lemma BuildsKeysInOrder(i: int, j: int, n: Name)
    ensures n.ConstraintN? ==> Objects().BuildsInOrderAt(CREATES, i, j, n)
  {}

  lemma BuildsRestInOrder(i: int, j: int, n: Name)
    ensures !n.IndexN? && !n.ConstraintN? ==> Objects().BuildsInOrderAt(CREATES, i, j, n)
  {}

  lemma DropsIndexesInOrder(i: int, j: int, n: Name)
    ensures n.IndexN? ==> Objects().DropsInOrderAt(DROPS, i, j, n)
  {}

  lemma DropsKeysInOrder(i: int, j: int, n: Name)
    ensures n.ConstraintN? ==> Objects().DropsInOrderAt(DROPS, i, j, n)
  {}

  lemma DropsRestInOrder(i: int, j: int, n: Name)
    ensures !n.IndexN? && !n.ConstraintN? ==> Objects().DropsInOrderAt(DROPS, i, j, n)
  {}

  lemma References(n: Name)
    ensures Objects().TypeThere(n) && Objects().TargetThere(n)
  {}

  lemma Fits(n: Name)
    ensures Objects().FitsAt(n)
  {}

  lemma Fields(n: Name, k: int)
    ensures Objects().FieldThere(n, k)
  {}

  /** Position by position and name by name, the lists meet every condition of a good plan. */
  lemma IsGood()
    ensures Migration().Good()
  {
    forall i, j, n ensures Migration().GoodAt(i, j, n) {
      Distinct(i, j);
      FirstHeads(i);
      LaterHeads(i);
      Listed(n);
      BuildsIndexesInOrder(i, j, n);
      BuildsKeysInOrder(i, j, n);
      BuildsRestInOrder(i, j, n);
      DropsIndexesInOrder(i, j, n);
      DropsKeysInOrder(i, j, n);
      DropsRestInOrder(i, j, n);
      References(n);
      Fits(n);
      Fields(n, i);
    }
    Migration().GoodFromEach();
  }
}
