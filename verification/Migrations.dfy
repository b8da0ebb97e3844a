/**
  The migrations that are modelled as lists, in the order in which they run, and what holds of
  each of them and of any stack of such migrations.
 */
module Migrations {
  import opened Prelude
  import opened Names
  import opened Catalog
  import opened Integrity
  import opened Undo
  import opened TakenTypes
  import opened Blueprints
  import ApprovalMigration
  import SprintMigration
  import HistoryMigration
  import ChatMigration

  datatype Title = Approvals | Sprints | History | Chat

  function Of(m: Title): Blueprint {
    match m
    case Approvals => ApprovalMigration.Migration()
    case Sprints => SprintMigration.Migration()
    case History => HistoryMigration.Migration()
    case Chat => ChatMigration.Migration()
  }

  lemma EachIsGood(m: Title)
    ensures Of(m).Good() && (Of(m).skipTypes <==> m == Chat)
  {
    match m
    case Approvals => ApprovalMigration.IsGood();
    case Sprints => SprintMigration.IsGood();
    case History => HistoryMigration.IsGood();
    case Chat => ChatMigration.IsGood();
  }

  /** `down` after `up` gives back the database, every row included, exactly when no new name was taken. */
  lemma DownUndoesUp(m: Title, db: Db)
    requires Consistent(db) && Of(m).Covers(db)
    ensures (Run(db, Of(m).Up()).Ok? && Run(Run(db, Of(m).Up()).value, Of(m).Down()) == Ok(db)) <==>
      Apart(db, New(Of(m).Up()))
  {
    EachIsGood(m);
    Of(m).DownUndoesUp(db);
  }

  /** After `up` and any writes to any table `down` succeeds and takes away exactly the new objects. */
  lemma DownAfterUse(m: Title, db: Db, used: Db)
    requires Consistent(db) && Of(m).Covers(db) && Apart(db, New(Of(m).Up()))
    requires used.objects == db.objects + New(Of(m).Up())
    ensures Run(used, Of(m).Down()) == Ok(Without(used, New(Of(m).Up()).Keys))
  {
    EachIsGood(m);
    Of(m).DownAfterUse(db, used);
  }

  /** Every DROP of `down` has IF EXISTS and alters a table that stays. */
  ghost predicate Repeatable(b: Blueprint) {
    forall n <- b.drops :: b.ifExists(n) && ((n.ColumnN? || n.ConstraintN?) ==> !b.Defines(TableN(n.table)))
  }

  /** The chat migration alters one table, which it does not create. */
  lemma ChatAlters(b: Blueprint, n: Name)
    requires b == Of(Chat) && (n.ColumnN? || n.ConstraintN?) && b.objects.own(n)
    ensures !b.Defines(TableN(n.table))
  {
  }

  lemma ChatIsRepeatable(b: Blueprint, n: Name)
    requires b == Of(Chat) && b.Good() && n in b.drops
    ensures b.ifExists(n) && ((n.ColumnN? || n.ConstraintN?) ==> !b.Defines(TableN(n.table)))
  {
    b.DropsAreDistinct();
    b.ListedAt(n);
    if n.ColumnN? || n.ConstraintN? {
      ChatAlters(b, n);
    }
  }

  /** DROP CONSTRAINT IF EXISTS on conversation_threads, which the first `down` has dropped. */
  lemma HistoryIsNotRepeatable(b: Blueprint, n: Name)
    requires b == Of(History) && n == ConstraintN(ConversationThreads, FK_agent)
    ensures n in b.drops && b.Defines(TableN(n.table))
  {
    assert b.drops[13] == n;
  }

  lemma RepeatableExactly(m: Title)
    ensures Repeatable(Of(m)) <==> m == Chat
  {
    match m
    case Approvals => assert Of(m).drops[0] in Of(m).drops;
    case Sprints => assert Of(m).drops[0] in Of(m).drops;
    case History => HistoryIsNotRepeatable(Of(m), ConstraintN(ConversationThreads, FK_agent));
    case Chat =>
      EachIsGood(m);
      forall n <- Of(m).drops
        ensures Of(m).ifExists(n) && ((n.ColumnN? || n.ConstraintN?) ==> !Of(m).Defines(TableN(n.table)))
      {
        ChatIsRepeatable(Of(m), n);
      }
  }

  /**
    A second `down` changes nothing for the chat migration and fails for the others: the
    history migration has IF EXISTS throughout, but alters a table that the first has dropped.
   */
  lemma DownTwice(m: Title, db: Db, used: Db)
    requires Consistent(db) && Of(m).Covers(db) && Apart(db, New(Of(m).Up()))
    requires used.objects == db.objects + New(Of(m).Up())
    ensures var once := Run(used, Of(m).Down());
      once.Ok? && Run(once.value, Of(m).Down()) == if m == Chat then once else Err(MissingName)
  {
    EachIsGood(m);
    RepeatableExactly(m);
    Of(m).DownTwice(db, used);
  }

  /**
    Where new names are taken: `up` fails, except that the chat migration skips types.  Its
    `down` then drops the types that were there before, or fails if something else uses one.
   */
  lemma WhereNamesAreTaken(m: Title, db: Db)
    requires Consistent(db) && Of(m).Covers(db)
    ensures var taken := Taken(Of(m).ThePlan(), db);
      && (Run(db, Of(m).Up()).Ok? <==> taken == {} || (m == Chat && forall n <- taken :: n.TypeN?))
      && (Run(db, Of(m).Up()).Ok? && NobodyNeeds(db, taken) ==>
            Run(Run(db, Of(m).Up()).value, Of(m).Down()) == Ok(Without(db, taken)))
      && (Run(db, Of(m).Up()).Ok? && !NobodyNeeds(db, taken) ==> Run(Run(db, Of(m).Up()).value, Of(m).Down()).Err?)
  {
    EachIsGood(m);
    Taking(Of(m), db);
  }

  lemma Taking(b: Blueprint, db: Db)
    requires b.Good() && Consistent(db) && b.Covers(db)
    ensures var taken := Taken(b.ThePlan(), db);
      && (Run(db, b.Up()).Ok? <==> taken == {} || (b.skipTypes && forall n <- taken :: n.TypeN?))
      && (Run(db, b.Up()).Ok? && NobodyNeeds(db, taken) ==>
            Run(Run(db, b.Up()).value, b.Down()) == Ok(Without(db, taken)))
      && (Run(db, b.Up()).Ok? && !NobodyNeeds(db, taken) ==> Run(Run(db, b.Up()).value, b.Down()).Err?)
  {
    b.UpWhereTypesAreTaken(db);
    if Run(db, b.Up()).Ok? {
      b.DownWhereTypesAreTaken(db);
    }
  }

  /** The database had the type been created before. */
  function Prior(db: Db, ty: TypeName): Db {
    With(db, map[TypeN(ty) := TypeDef])
  }

  lemma PriorIsConsistent(db: Db, ty: TypeName)
    requires Consistent(db) && TypeN(ty) !in db.objects
    ensures Consistent(Prior(db, ty)) && NobodyNeeds(Prior(db, ty), {TypeN(ty)})
    ensures Without(Prior(db, ty), {TypeN(ty)}) == db
  {
    var made := map[TypeN(ty) := TypeDef];
    assert made.Keys == {TypeN(ty)};
    WithIsConsistent(db, made);
    WithoutWith(db, made);
  }

  lemma TakenIsPrior(p: Plan, db: Db, ty: TypeName)
    requires Apart(db, New(p.up)) && TypeN(ty) in New(p.up)
    ensures Taken(p, Prior(db, ty)) == {TypeN(ty)}
  {
    var have := Prior(db, ty).objects.Keys;
    assert have == db.objects.Keys + {TypeN(ty)};
  }

  /** So on every database that fits, had one of its types been there before, the chat migration loses it. */
  lemma SkippedTypeIsLost(db: Db, ty: TypeName)
    requires Consistent(db) && Of(Chat).Covers(db) && Apart(db, New(Of(Chat).Up())) && TypeN(ty) in New(Of(Chat).Up())
    ensures Prior(db, ty) != db && Run(Prior(db, ty), Of(Chat).Up()).Ok?
    ensures Run(Run(Prior(db, ty), Of(Chat).Up()).value, Of(Chat).Down()) == Ok(db)
  {
    EachIsGood(Chat);
    PriorTypeIsLost(Of(Chat), db, ty);
  }

  lemma PriorTypeIsLost(b: Blueprint, db: Db, ty: TypeName)
    requires b.Good() && b.skipTypes && Consistent(db)
    requires b.Covers(db) && Apart(db, New(b.Up())) && TypeN(ty) in New(b.Up())
    ensures Prior(db, ty) != db && Run(Prior(db, ty), b.Up()).Ok?
    ensures Run(Run(Prior(db, ty), b.Up()).value, b.Down()) == Ok(db)
  {
    var before := Prior(db, ty);
    PriorIsConsistent(db, ty);
    TakenIsPrior(b.ThePlan(), db, ty);
    assert TypeN(ty) in before.objects && TypeN(ty) !in db.objects;
    Taking(b, before);
  }

  // ---------------------------------------------------------------- what old rows get

  /** Unless `up` fails, row i of table t is there afterwards and holds v in column f. */
  ghost predicate Holds(b: Blueprint, db: Db, t: Table, i: int, f: Field, v: Value) {
    Run(db, b.Up()).Ok? ==>
      var after := Run(db, b.Up()).value.data; t in after && i in after[t] && f in after[t][i] && after[t][i][f] == v
  }

  /** v is what an old row gets in a column with this definition. */
  predicate Gets(row: Tuple, d: Def, v: Value) {
    d.ColumnDef? &&
      match d.fill
      case Default(w) => v == w
      case NoDefault => v == Null
      case Generated(from) => from in row && v == Vector(row[from])
  }

  lemma OldRowHolds(b: Blueprint, db: Db, t: Table, i: int, f: Field, d: Def, v: Value)
    requires b.Good() && Consistent(db) && b.Covers(db) && t in db.data && i in db.data[t]
    requires b.objects.define(ColumnN(t, f)) == Some(d) && Gets(db.data[t][i], d, v)
    ensures Holds(b, db, t, i, f, v)
  {
    if Run(db, b.Up()).Ok? {
      b.UpGrowsRows(db);
      b.NewIs(ColumnN(t, f));
      assert GrownRow(db.data[t][i], Run(db, b.Up()).value.data[t][i], t, New(b.Up()));
    }
  }

  lemma ApprovalsDefine(b: Blueprint)
    requires b == Of(Approvals)
    ensures b.objects.define(ColumnN(ProjectPreferences, DeploymentApprovalMode))
      == Some(ColumnDef(Enum(ApprovalMode), true, Default(Str("automatic"))))
  {}

  lemma SprintsDefine(b: Blueprint)
    requires b == Of(Title.Sprints)
    ensures b.objects.define(ColumnN(Stories, SprintId)) == Some(NULLABLE)
  {}

  lemma HistoryPlainColumns()
    ensures HistoryMigration.Define(ColumnN(ChatMessages, ConversationId)) == Some(NULLABLE)
    ensures HistoryMigration.Define(ColumnN(ChatMessages, IsArchived)) == Some(Preset(Bool(false)))
    ensures HistoryMigration.Define(ColumnN(ChatMessages, ArchivedAt)) == Some(NULLABLE)
  {}

  lemma HistorySearchColumn()
    ensures HistoryMigration.Define(ColumnN(ChatMessages, SearchVector))
      == Some(ColumnDef(Builtin, false, Generated(MessageText)))
    ensures HistoryMigration.Base(ColumnN(ChatMessages, MessageText))
  {}

  lemma HistoryDefines(b: Blueprint, n: Name)
    requires b == Of(History)
    ensures b.objects.define(n) == HistoryMigration.Define(n) && b.objects.base(n) == HistoryMigration.Base(n)
  {}

  lemma ChatDefines(b: Blueprint)
    requires b == Of(Chat)
    ensures b.objects.define(ColumnN(ChatMessages, RoomId)) == Some(NULLABLE)
  {}

  /** Every project has the approval mode 'automatic' at first. */
  lemma PreferencesGetTheirMode(b: Blueprint, db: Db, i: int)
    requires b == Of(Approvals) && Consistent(db) && b.Covers(db)
    requires ProjectPreferences in db.data && i in db.data[ProjectPreferences]
    ensures Holds(b, db, ProjectPreferences, i, DeploymentApprovalMode, Str("automatic"))
  {
    EachIsGood(Approvals);
    ApprovalsDefine(b);
    var d := ColumnDef(Enum(ApprovalMode), true, Default(Str("automatic")));
    OldRowHolds(b, db, ProjectPreferences, i, DeploymentApprovalMode, d, Str("automatic"));
  }

  /** Stories are in no sprint at first. */
  lemma StoriesGetNoSprint(b: Blueprint, db: Db, i: int)
    requires b == Of(Title.Sprints) && Consistent(db) && b.Covers(db) && Stories in db.data && i in db.data[Stories]
    ensures Holds(b, db, Stories, i, SprintId, Null)
  {
    EachIsGood(Title.Sprints);
    SprintsDefine(b);
    OldRowHolds(b, db, Stories, i, SprintId, NULLABLE, Null);
  }

  /** Messages are in no conversation and not archived at first, and are searched by their text. */
  lemma MessagesGetTheirHistory(b: Blueprint, db: Db, i: int)
    requires b == Of(History) && Consistent(db) && b.Covers(db) && ChatMessages in db.data && i in db.data[ChatMessages]
    ensures MessageText in db.data[ChatMessages][i]
    ensures Holds(b, db, ChatMessages, i, ConversationId, Null)
    ensures Holds(b, db, ChatMessages, i, IsArchived, Bool(false))
    ensures Holds(b, db, ChatMessages, i, ArchivedAt, Null)
    ensures Holds(b, db, ChatMessages, i, SearchVector, Vector(db.data[ChatMessages][i][MessageText]))
  {
    EachIsGood(History);
    HistoryPlainColumns();
    HistorySearchColumn();
    forall n ensures b.objects.define(n) == HistoryMigration.Define(n)
      && b.objects.base(n) == HistoryMigration.Base(n) {
      HistoryDefines(b, n);
    }
    assert ColumnN(ChatMessages, MessageText) in db.objects;
    OldRowHolds(b, db, ChatMessages, i, ConversationId, NULLABLE, Null);
    OldRowHolds(b, db, ChatMessages, i, IsArchived, Preset(Bool(false)), Bool(false));
    OldRowHolds(b, db, ChatMessages, i, ArchivedAt, NULLABLE, Null);
    var d := ColumnDef(Builtin, false, Generated(MessageText));
    OldRowHolds(b, db, ChatMessages, i, SearchVector, d, Vector(db.data[ChatMessages][i][MessageText]));
  }

  /** Messages are in no room at first. */
  lemma MessagesGetNoRoom(b: Blueprint, db: Db, i: int)
    requires b == Of(Chat) && Consistent(db) && b.Covers(db) && ChatMessages in db.data && i in db.data[ChatMessages]
    ensures Holds(b, db, ChatMessages, i, RoomId, Null)
  {
    EachIsGood(Chat);
    ChatDefines(b);
    OldRowHolds(b, db, ChatMessages, i, RoomId, NULLABLE, Null);
  }

  // ---------------------------------------------------------------- stacks of migrations

  /** Each migration, at its turn, finds the objects it refers to and none of its new names. */
  ghost predicate AllFit(db: Db, stack: seq<Blueprint>)
    decreases |stack|
  {
    stack == [] || (
      && stack[0].Good() && stack[0].Covers(db) && Apart(db, New(stack[0].Up()))
      && AllFit(With(db, New(stack[0].Up())), stack[1..]))
  }

  function RunUps(db: Db, stack: seq<Blueprint>): Result<Db, Failure>
    decreases |stack|
  {
    if stack == [] then Ok(db)
    else
      match Run(db, stack[0].Up())
      case Ok(next) => RunUps(next, stack[1..])
      case Err(e) => Err(e)
  }

  /** The last migration is reverted first. */
  function RunDowns(db: Db, stack: seq<Blueprint>): Result<Db, Failure>
    decreases |stack|
  {
    if stack == [] then Ok(db)
    else
      match RunDowns(db, stack[1..])
      case Ok(next) => Run(next, stack[0].Down())
      case Err(e) => Err(e)
  }

  lemma UpStays(b: Blueprint, db: Db)
    requires b.Good() && Consistent(db) && b.Covers(db) && Apart(db, New(b.Up()))
    ensures Run(db, b.Up()) == Ok(With(db, New(b.Up()))) && Consistent(With(db, New(b.Up())))
  {
    b.ApartFits(db);
    b.ThePlan().UpSucceeds(db);
    b.StatementsTyped();
    ScriptsKeepIntact(db, b.Up());
  }

  /** Any stack of good migrations, run in order and reverted from the last to the first, gives back the database. */
  lemma {:induction false} StackIsUndone(db: Db, stack: seq<Blueprint>)
    requires Consistent(db) && AllFit(db, stack)
    ensures RunUps(db, stack).Ok? && RunDowns(RunUps(db, stack).value, stack) == Ok(db)
    decreases |stack|
  {
    if stack != [] {
      UpStays(stack[0], db);
      StackIsUndone(With(db, New(stack[0].Up())), stack[1..]);
      stack[0].DownUndoesUp(db);
    }
  }

  /** No two of them create an object of one name. */
  ghost predicate PairwiseApart(stack: seq<Blueprint>) {
    forall i, j :: 0 <= i < j < |stack| ==> New(stack[i].Up()).Keys !! New(stack[j].Up()).Keys
  }

  ghost predicate EachFits(db: Db, stack: seq<Blueprint>) {
    forall i :: 0 <= i < |stack| ==> stack[i].Good() && stack[i].Covers(db) && Apart(db, New(stack[i].Up()))
  }

  lemma {:induction false} ApartStackFits(db: Db, stack: seq<Blueprint>)
    requires EachFits(db, stack) && PairwiseApart(stack)
    ensures AllFit(db, stack)
    decreases |stack|
  {
    if stack != [] {
      var next, rest := With(db, New(stack[0].Up())), stack[1..];
      forall i | 0 <= i < |rest| ensures rest[i].Good() && rest[i].Covers(next) && Apart(next, New(rest[i].Up())) {
        StillFits(db, stack[0], stack[i + 1]);
      }
      assert forall i, j :: 0 <= i < j < |rest| ==> rest[i] == stack[i + 1] && rest[j] == stack[j + 1];
      ApartStackFits(next, rest);
    }
  }

  lemma StillFits(db: Db, first: Blueprint, later: Blueprint)
    requires later.Covers(db) && Apart(db, New(later.Up())) && New(first.Up()).Keys !! New(later.Up()).Keys
    ensures later.Covers(With(db, New(first.Up()))) && Apart(With(db, New(first.Up())), New(later.Up()))
  {
  }

  // ---------------------------------------------------------------- the four in their order

  predicate Creates(m: Title, n: Name) {
    match m
    case Approvals => ApprovalMigration.Define(n).Some?
    case Sprints => SprintMigration.Define(n).Some?
    case History => HistoryMigration.Define(n).Some?
    case Chat => ChatMigration.Define(n).Some?
  }

  lemma CreatesIsDefines(m: Title, n: Name)
    ensures Creates(m, n) <==> Of(m).Defines(n)
  {}

  lemma OneCreates(m: Title, l: Title, n: Name)
    ensures Creates(m, n) && Creates(l, n) ==> m == l
  {}

  lemma TwoAreApart(m: Title, l: Title)
    requires m != l
    ensures New(Of(m).Up()).Keys !! New(Of(l).Up()).Keys
  {
    EachIsGood(m);
    EachIsGood(l);
    forall n | n in New(Of(m).Up()) ensures n !in New(Of(l).Up()) {
      DefinedByOne(Of(m), Of(l), m, l, n);
    }
  }

  lemma DefinedByOne(b: Blueprint, c: Blueprint, m: Title, l: Title, n: Name)
    requires b == Of(m) && c == Of(l) && b.Good() && c.Good() && m != l && n in New(b.Up())
    ensures n !in New(c.Up())
  {
    b.NewIs(n);
    c.NewIs(n);
    CreatesIsDefines(m, n);
    CreatesIsDefines(l, n);
    OneCreates(m, l, n);
  }

  function Stack(titles: seq<Title>): seq<Blueprint> {
    seq(|titles|, i requires 0 <= i < |titles| => Of(titles[i]))
  }

  /** The order in which the four run. */
  const IN_ORDER: seq<Title> := [Approvals, Title.Sprints, History, Chat]

  /**
    Any of the four, each at most once, run in any order and reverted from the last to the
    first, give back every database that has the objects they refer to and none of their names.
   */
  lemma AnyOfTheFourAreUndone(db: Db, titles: seq<Title>)
    requires Consistent(db) && forall m <- titles :: Of(m).Covers(db) && Apart(db, New(Of(m).Up()))
    requires forall i, j :: 0 <= i < j < |titles| ==> titles[i] != titles[j]
    ensures RunUps(db, Stack(titles)).Ok? && RunDowns(RunUps(db, Stack(titles)).value, Stack(titles)) == Ok(db)
  {
    var stack := Stack(titles);
    forall i | 0 <= i < |stack| ensures stack[i].Good() && stack[i].Covers(db) && Apart(db, New(stack[i].Up())) {
      assert titles[i] in titles;
      EachIsGood(titles[i]);
    }
    forall i, j | 0 <= i < j < |stack| ensures New(stack[i].Up()).Keys !! New(stack[j].Up()).Keys {
      TwoAreApart(titles[i], titles[j]);
    }
    ApartStackFits(db, stack);
    StackIsUndone(db, stack);
  }

  lemma TheFourAreUndone(db: Db)
    requires Consistent(db) && forall m <- IN_ORDER :: Of(m).Covers(db) && Apart(db, New(Of(m).Up()))
    ensures RunUps(db, Stack(IN_ORDER)).Ok? && RunDowns(RunUps(db, Stack(IN_ORDER)).value, Stack(IN_ORDER)) == Ok(db)
  {
    AnyOfTheFourAreUndone(db, IN_ORDER);
  }
}
