/** 1738680000000-CreateDeploymentApprovals: what `up` creates and `down` drops. */
module ApprovalMigration {
  import opened Prelude
  import opened Names
  import opened Catalog
  import opened Blueprints

  /** The objects that `up` creates, in order. */
  const CREATES: seq<Name> := [
    TypeN(ApprovalMode), ColumnN(ProjectPreferences, DeploymentApprovalMode), TypeN(ApprovalStatus),
    TableN(DeploymentApprovals), IndexN(DeploymentApprovals_project_status),
    IndexN(DeploymentApprovals_workspace), IndexN(DeploymentApprovals_requested_at)
  ]

  /** The objects that `down` drops, in order. */
  const DROPS: seq<Name> := [
    IndexN(DeploymentApprovals_requested_at), IndexN(DeploymentApprovals_workspace),
    IndexN(DeploymentApprovals_project_status), TableN(DeploymentApprovals), TypeN(ApprovalStatus),
    ColumnN(ProjectPreferences, DeploymentApprovalMode), TypeN(ApprovalMode)
  ]

  /** The objects of earlier migrations that this one refers to. */
  predicate Base(n: Name) {
    match n
    case TableN(t) => t == Projects || t == ProjectPreferences
    case ColumnN(t, f) =>
      (match t
       case Projects => f == Id
       case _ => false)
    case _ => false
  }

  function DeploymentApprovalsColumn(f: Field): Option<Def> {
    match f
    case Id => Some(STAMP)
    case ProjectId => Some(REQUIRED)
    case WorkspaceId => Some(REQUIRED)
    case Platform => Some(REQUIRED)
    case Branch => Some(REQUIRED)
    case CommitSha => Some(NULLABLE)
    case Environment => Some(REQUIRED)
    case Status => Some(ColumnDef(Enum(ApprovalStatus), true, Default(Str("pending"))))
    case StoryId => Some(NULLABLE)
    case StoryTitle => Some(NULLABLE)
    case Changes => Some(NULLABLE)
    case TestResults => Some(NULLABLE)
    case RequestedBy => Some(Preset(Str("system")))
    case ReviewedBy => Some(NULLABLE)
    case RejectionReason => Some(NULLABLE)
    case RequestedAt => Some(STAMP)
    case ReviewedAt => Some(NULLABLE)
    case _ => None
  }

  function DeploymentApprovalsConstraint(c: ConstraintName): Option<Def> {
    match c
    case PK => Some(KeyDef([Id]))
    case FK_project => Some(ForeignDef(ProjectId, Projects))
    case _ => None
  }

  function IndexOf(x: IndexName): Option<Def> {
    match x
    case DeploymentApprovals_project_status => Some(IndexDef(DeploymentApprovals, [ProjectId, Status]))
    case DeploymentApprovals_workspace => Some(IndexDef(DeploymentApprovals, [WorkspaceId]))
    case DeploymentApprovals_requested_at => Some(IndexDef(DeploymentApprovals, [RequestedAt]))
    case _ => None
  }

  /** The new objects. */
  function Define(n: Name): Option<Def> {
    match n
    case TypeN(ty) =>
      if ty == ApprovalMode || ty == ApprovalStatus
      then Some(TypeDef) else None
    case TableN(t) =>
      if t == DeploymentApprovals
      then Some(TableDef) else None
    case ColumnN(t, f) =>
      (match t
       case DeploymentApprovals => DeploymentApprovalsColumn(f)
       case ProjectPreferences =>
         if f == DeploymentApprovalMode then Some(ColumnDef(Enum(ApprovalMode), true, Default(Str("automatic"))))
         else None
       case _ => None)
    case ConstraintN(t, c) =>
      (match t
       case DeploymentApprovals => DeploymentApprovalsConstraint(c)
       case _ => None)
    case IndexN(x) => IndexOf(x)
  }

  /** The columns and constraints that have a statement of their own. */
  predicate Own(n: Name) {
    n == ColumnN(ProjectPreferences, DeploymentApprovalMode)
  }

  function Objects(): Definitions {
    Definitions(Define, Own, Base)
  }

  function Migration(): Blueprint {
    Blueprint(CREATES, DROPS, Objects(), false, n => false)
  }

  // ---------------------------------------------------------------- the lists meet the conditions

  lemma Lists(i: int, j: int, n: Name)
    ensures Migration().DistinctAt(i, j) && Objects().HeadsAt(CREATES, i) &&
      Objects().ListedAt(CREATES, n)
  {}

  lemma BuildsInOrder(i: int, j: int, n: Name)
    ensures Objects().BuildsInOrderAt(CREATES, i, j, n)
  {}

  lemma DropsInOrder(i: int, j: int, n: Name)
    ensures Objects().DropsInOrderAt(DROPS, i, j, n)
  {}

  lemma References(n: Name)
    ensures Objects().TypeThere(n) && Objects().TargetThere(n)
  {}

  lemma Fits(n: Name)
    ensures Objects().FitsAt(n)
  {}

  lemma Fields(n: Name, k: int)
    ensures Objects().FieldThere(n, k)
  {}

  /** Position by position and name by name, the lists meet every condition of a good plan. */
  lemma IsGood()
    ensures Migration().Good()
  {
    forall i, j, n ensures Migration().GoodAt(i, j, n) {
      Lists(i, j, n);
      BuildsInOrder(i, j, n);
      DropsInOrder(i, j, n);
      References(n);
      Fits(n);
      Fields(n, i);
    }
    Migration().GoodFromEach();
  }
}
