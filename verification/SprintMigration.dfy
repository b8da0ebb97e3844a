/** 1738790000000-CreateSprints: what `up` creates and `down` drops. */
module SprintMigration {
  import opened Prelude
  import opened Names
  import opened Catalog
  import opened Blueprints

  /** The objects that `up` creates, in order. */
  const CREATES: seq<Name> := [
    TypeN(SprintStatus), TableN(Sprints), IndexN(Sprints_project_number), IndexN(Sprints_project_status),
    ColumnN(Stories, SprintId), ConstraintN(Stories, FK_sprint), IndexN(Stories_sprint)
  ]

  /** The objects that `down` drops, in order. */
  const DROPS: seq<Name> := [
    ConstraintN(Stories, FK_sprint), IndexN(Stories_sprint), ColumnN(Stories, SprintId),
    IndexN(Sprints_project_status), IndexN(Sprints_project_number), TableN(Sprints), TypeN(SprintStatus)
  ]

  /** The objects of earlier migrations that this one refers to. */
  predicate Base(n: Name) {
    match n
    case TableN(t) => t == Projects || t == Stories
    case ColumnN(t, f) =>
      (match t
       case Projects => f == Id
       case _ => false)
    case _ => false
  }

  function SprintsColumn(f: Field): Option<Def> {
    match f
    case Id => Some(STAMP)
    case ProjectId => Some(REQUIRED)
    case SprintNumber => Some(REQUIRED)
    case SprintName => Some(REQUIRED)
    case Goal => Some(NULLABLE)
    case StartDate => Some(NULLABLE)
    case EndDate => Some(NULLABLE)
    case Capacity => Some(NULLABLE)
    case Status => Some(ColumnDef(Enum(SprintStatus), true, Default(Str("planned"))))
    case CompletedAt => Some(NULLABLE)
    case CreatedAt => Some(STAMP)
    case UpdatedAt => Some(STAMP)
    case _ => None
  }

  function SprintsConstraint(c: ConstraintName): Option<Def> {
    match c
    case PK => Some(KeyDef([Id]))
    case FK_project => Some(ForeignDef(ProjectId, Projects))
    case _ => None
  }

  function IndexOf(x: IndexName): Option<Def> {
    match x
    case Sprints_project_number => Some(IndexDef(Sprints, [ProjectId, SprintNumber]))
    case Sprints_project_status => Some(IndexDef(Sprints, [ProjectId, Status]))
    case Stories_sprint => Some(IndexDef(Stories, [SprintId]))
    case _ => None
  }

  /** The new objects. */
  function Define(n: Name): Option<Def> {
    match n
    case TypeN(ty) =>
      if ty == SprintStatus
      then Some(TypeDef) else None
    case TableN(t) =>
      if t == Sprints
      then Some(TableDef) else None
    case ColumnN(t, f) =>
      (match t
       case Sprints => SprintsColumn(f)
       case Stories =>
         if f == SprintId then Some(NULLABLE)
         else None
       case _ => None)
    case ConstraintN(t, c) =>
      (match t
       case Sprints => SprintsConstraint(c)
       case Stories =>
         if c == FK_sprint then Some(ForeignDef(SprintId, Sprints))
         else None
       case _ => None)
    case IndexN(x) => IndexOf(x)
  }

  /** The columns and constraints that have a statement of their own. */
  predicate Own(n: Name) {
    n == ColumnN(Stories, SprintId) || n == ConstraintN(Stories, FK_sprint)
  }

  function Objects(): Definitions {
    Definitions(Define, Own, Base)
  }

  function Migration(): Blueprint {
    Blueprint(CREATES, DROPS, Objects(), false, n => false)
  }

  // ---------------------------------------------------------------- the lists meet the conditions

  lemma Lists(i: int, j: int, n: Name)
    ensures Migration().DistinctAt(i, j) && Objects().HeadsAt(CREATES, i) &&
      Objects().ListedAt(CREATES, n)
  {}

  lemma BuildsInOrder(i: int, j: int, n: Name)
    ensures Objects().BuildsInOrderAt(CREATES, i, j, n)
  {}

  lemma DropsInOrder(i: int, j: int, n: Name)
    ensures Objects().DropsInOrderAt(DROPS, i, j, n)
  {}

  lemma References(n: Name)
    ensures Objects().TypeThere(n) && Objects().TargetThere(n)
  {}

  lemma Fits(n: Name)
    ensures Objects().FitsAt(n)
  {}

  lemma Fields(n: Name, k: int)
    ensures Objects().FieldThere(n, k)
  {}

  /** Position by position and name by name, the lists meet every condition of a good plan. */
  lemma IsGood()
    ensures Migration().Good()
  {
    forall i, j, n ensures Migration().GoodAt(i, j, n) {
      Lists(i, j, n);
      BuildsInOrder(i, j, n);
      DropsInOrder(i, j, n);
      References(n);
      Fits(n);
      Fields(n, i);
    }
    Migration().GoodFromEach();
  }
}
