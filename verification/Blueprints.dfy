/**
  Migrations written as lists: the names that `up` creates and the names that `down` drops, in
  their order, with the definitions beside them.  Positions are found by searching the lists.
  The conditions of a good plan then follow from conditions on the lists themselves.
 */
module Blueprints {
  import opened Prelude
  import opened Names
  import opened Catalog
  import opened Undo
  import opened Integrity
  import opened TakenTypes

  predicate Distinct(names: seq<Name>) {
    forall i, j :: 0 <= i < j < |names| ==> names[i] != names[j]
  }

  /** Where the list has the name, or -1. */
  function Position(names: seq<Name>, n: Name): (i: int)
    ensures -1 <= i < |names|
    ensures if n in names then i >= 0 && names[i] == n else i == -1
    decreases |names|
  {
    if names == [] then -1
    else if names[|names| - 1] == n then |names| - 1
    else Position(names[..|names| - 1], n)
  }

  lemma PositionOf(names: seq<Name>, i: nat)
    requires Distinct(names) && i < |names|
    ensures Position(names, names[i]) == i
  {
  }

  function SetOf(names: seq<Name>): set<Name> {
    set n <- names
  }

  lemma {:induction false} DistinctSize(names: seq<Name>)
    ensures |SetOf(names)| <= |names|
    ensures |SetOf(names)| == |names| <==> Distinct(names)
    decreases |names|
  {
    if names != [] {
      var k := |names| - 1;
      var front, last := names[..k], names[k];
      DistinctSize(front);
      assert names == front + [last];
      assert SetOf(names) == SetOf(front) + {last};
      if Distinct(names) {
        assert forall i :: 0 <= i < k ==> front[i] == names[i];
        assert last !in front;
      }
      if last !in front && Distinct(front) {
        forall i, j | 0 <= i < j < |names| ensures names[i] != names[j] {
          assert j < k ==> names[i] == front[i] && names[j] == front[j];
        }
      }
    }
  }

  /** Membership in Needs, for an object in a statement of its own. */
  predicate Mentions(n: Name, d: Def, m: Name) {
    match (n, d)
    case (ColumnN(t, _), ColumnDef(ty, _, fill)) =>
      m == TableN(t) || (m.TypeN? && ty == Enum(m.ty)) || (fill.Generated? && m == ColumnN(t, fill.from))
    case (ConstraintN(t, _), ForeignDef(f, target)) =>
      m == TableN(t) || m == ColumnN(t, f) || m == TableN(target) || m == ColumnN(target, Id)
    case (IndexN(_), IndexDef(t, fields)) => m == TableN(t) || (m.ColumnN? && m.table == t && m.field in fields)
    case _ => m in Needs(n, d)
  }

  lemma MentionsIsNeeds(n: Name, d: Def, m: Name)
    ensures Mentions(n, d, m) <==> m in Needs(n, d)
  {
  }

  predicate Shaped(n: Name, d: Def) {
    match n
    case TypeN(_) => d == TypeDef
    case TableN(_) => d == TableDef
    case ColumnN(_, _) => d.ColumnDef?
    case ConstraintN(_, _) => d.KeyDef? || d.CheckDef? || d.ForeignDef?
    case IndexN(_) => d.IndexDef?
  }

  predicate Computed(d: Def) {
    d.ColumnDef? && d.fill.Generated?
  }

  /** What a migration creates, by name. */
  datatype Definitions = Definitions(
    define: Name -> Option<Def>,    // every new object
    own: Name -> bool,              // which columns and constraints have a statement of their own
    base: Name -> bool)             // objects of earlier migrations that it refers to
  {
    predicate Defines(n: Name) {
      define(n).Some?
    }

    /** n is the name of a column or constraint that would come with its table. */
    predicate IsPart(n: Name) {
      (n.ColumnN? || n.ConstraintN?) && !own(n)
    }

    /** The name of the statement with which n comes and goes. */
    function Via(n: Name): Name {
      if IsPart(n) then TableN(n.table) else n
    }

    // ---- conditions, one position and one name at a time

    /** The statement at i creates something. */
    predicate HeadsAt(creates: seq<Name>, i: int) {
      0 <= i < |creates| ==> Defines(creates[i]) && !IsPart(creates[i])
    }

    /** A new object that does not come with a table is in the list. */
    predicate ListedAt(creates: seq<Name>, n: Name) {
      Defines(n) && !IsPart(n) ==> n in creates
    }

    /** In up, what comes at i does not refer to what comes at j, later. */
    predicate BuildsInOrderAt(creates: seq<Name>, i: int, j: int, n: Name) {
      0 <= i < j < |creates| && !creates[j].IndexN? && !creates[j].ConstraintN?
        && Defines(n) && Via(n) == creates[i] && creates[j] != creates[i]
      ==> !Mentions(n, define(n).value, creates[j])
    }

    /** In down, what goes at j does not refer to what went at i, earlier. */
    predicate DropsInOrderAt(drops: seq<Name>, i: int, j: int, n: Name) {
      0 <= i < j < |drops| && !drops[i].IndexN? && !drops[i].ConstraintN?
        && Defines(n) && Via(n) == drops[j] && drops[j] != drops[i]
      ==> !Mentions(n, define(n).value, drops[i])
    }

    predicate There(m: Name) {
      base(m) || Defines(m)
    }

    /** The table and columns of an index, key or check. */
    function FieldsOf(n: Name): (Table, seq<Field>) {
      match (n, define(n))
      case (IndexN(_), Some(IndexDef(t, fields))) => (t, fields)
      case (ConstraintN(t, _), Some(KeyDef(fields))) => (t, fields)
      case (ConstraintN(t, _), Some(CheckDef(check))) => (t, CheckedFields(check))
      case _ => (Users, [])
    }

    predicate FieldThere(n: Name, k: int) {
      0 <= k < |FieldsOf(n).1| ==> There(ColumnN(FieldsOf(n).0, FieldsOf(n).1[k]))
    }

    predicate TypeThere(n: Name) {
      n.ColumnN? && Defines(n) && define(n).value.ColumnDef? && define(n).value.ty.Enum? ==>
        Defines(TypeN(define(n).value.ty.ty))
    }

    predicate TargetThere(n: Name) {
      n.ConstraintN? && Defines(n) && define(n).value.ForeignDef? ==>
        && There(ColumnN(n.table, define(n).value.field))
        && There(TableN(define(n).value.target)) && There(ColumnN(define(n).value.target, Id))
    }

    /** The definition fits the name; what is computed from other columns has a statement of its own. */
    predicate ShapedAt(n: Name) {
      Defines(n) ==> Shaped(n, define(n).value) && (IsPart(n) ==> !Computed(define(n).value))
    }

    /** The table is there: a new one for what comes with its table. */
    predicate HomeThere(n: Name) {
      Defines(n) ==>
        match n
        case ColumnN(t, _) => if own(n) then There(TableN(t)) else Defines(TableN(t))
        case ConstraintN(t, _) => if own(n) then There(TableN(t)) else Defines(TableN(t))
        case IndexN(_) => define(n).value.IndexDef? ==> There(TableN(define(n).value.on))
        case _ => true
    }

    /** No row that is there already can violate what is added to its table. */
    predicate HarmlessAt(n: Name) {
      own(n) && Defines(n) ==>
        match (n, define(n))
        case (ColumnN(t, _), Some(ColumnDef(_, notNull, fill))) =>
          && !Defines(TableN(t)) && (notNull ==> fill.Default? && fill.value != Null)
          && (fill.Generated? ==> base(ColumnN(t, fill.from)))
        case (ConstraintN(t, _), Some(ForeignDef(f, _))) =>
          Defines(TableN(t)) || define(ColumnN(t, f)) == Some(NULLABLE)
        case _ => false
    }

    predicate FitsAt(n: Name) {
      ShapedAt(n) && HomeThere(n) && HarmlessAt(n) && (base(n) ==> !n.TypeN?)
    }
  }

  datatype Blueprint = Blueprint(
    creates: seq<Name>,             // what the statements of up create, in order
    drops: seq<Name>,               // what the statements of down drop, in order
    objects: Definitions,
    skipTypes: bool,                // CREATE TYPE does nothing when the type exists
    ifExists: Name -> bool)         // DROP ... IF EXISTS
  {
    predicate Defines(n: Name) {
      objects.Defines(n)
    }

    function DefOf(n: Name): Def
      requires Defines(n)
    {
      objects.define(n).value
    }

    predicate Inside(n: Name) {
      Defines(n) && objects.IsPart(n)
    }

    predicate Heads(n: Name) {
      Defines(n) && !objects.IsPart(n)
    }

    function Via(n: Name): Name {
      objects.Via(n)
    }

    function SpecOf(t: Table): TableSpec {
      TableSpec(map f: Field | Inside(ColumnN(t, f)) :: DefOf(ColumnN(t, f)),
                map c: ConstraintName | Inside(ConstraintN(t, c)) :: DefOf(ConstraintN(t, c)))
    }

    /** What the statement at n creates. */
    function Created(n: Name): Objects {
      if n.TableN? then TableObjects(n.table, SpecOf(n.table))
      else if Defines(n) then map[n := DefOf(n)]
      else map[]
    }

    function Up(): seq<Statement> {
      seq(|creates|, i requires 0 <= i < |creates| => Create(Created(creates[i]), creates[i].TypeN? && skipTypes))
    }

    function Down(): seq<Statement> {
      seq(|drops|, j requires 0 <= j < |drops| => Drop(drops[j], ifExists(drops[j])))
    }

    function ThePlan(): Plan {
      Plan(Up(), Down(), objects.base, n => Position(creates, Via(n)), n => Position(drops, Via(n)))
    }

    predicate DistinctAt(i: int, j: int) {
      0 <= i < j < |creates| ==> creates[i] != creates[j]
    }

    predicate SameNames() {
      |creates| == |drops| && SetOf(creates) == SetOf(drops)
    }

    predicate InOrderAt(i: int, j: int, n: Name) {
      objects.BuildsInOrderAt(creates, i, j, n) && objects.DropsInOrderAt(drops, i, j, n)
    }

    predicate GoodName(n: Name) {
      objects.TypeThere(n) && objects.TargetThere(n) && objects.FitsAt(n)
    }

    ghost predicate Good() {
      && SameNames()
      && (forall i, j :: DistinctAt(i, j))
      && (forall i :: objects.HeadsAt(creates, i))
      && (forall n :: objects.ListedAt(creates, n))
      && (forall i, j, n :: InOrderAt(i, j, n))
      && (forall n :: GoodName(n))
      && (forall n, k :: objects.FieldThere(n, k))
    }

    /** All the conditions that concern these positions and this name. */
    predicate GoodAt(i: int, j: int, n: Name) {
      && DistinctAt(i, j) && objects.HeadsAt(creates, i) && objects.ListedAt(creates, n)
      && InOrderAt(i, j, n) && GoodName(n) && objects.FieldThere(n, i)
    }

    lemma GoodFromEach()
      requires SameNames() && forall i, j, n :: GoodAt(i, j, n)
      ensures Good()
    {
      var any := TableN(Users);
      forall i, j ensures DistinctAt(i, j) {
        assert GoodAt(i, j, any);
      }
      forall i ensures objects.HeadsAt(creates, i) {
        assert GoodAt(i, 0, any);
      }
      forall n ensures objects.ListedAt(creates, n) {
        assert GoodAt(0, 0, n);
      }
      forall i, j, n ensures InOrderAt(i, j, n) {
        assert GoodAt(i, j, n);
      }
      forall n ensures GoodName(n) {
        assert GoodAt(0, 0, n);
      }
      forall n, k ensures objects.FieldThere(n, k) {
        assert GoodAt(k, 0, n);
      }
    }

    // ---- the plan is good

    lemma CreatesAreDistinct()
      requires Good()
      ensures Distinct(creates)
    {
      forall i, j | 0 <= i < j < |creates| ensures creates[i] != creates[j] {
        assert DistinctAt(i, j);
      }
    }

    lemma DropsAreDistinct()
      requires Good()
      ensures Distinct(drops) && forall n :: n in creates <==> n in drops
    {
      CreatesAreDistinct();
      DistinctSize(creates);
      DistinctSize(drops);
      forall n ensures n in creates <==> n in drops {
        assert n in SetOf(creates) <==> n in SetOf(drops);
      }
    }

    lemma ListedAt(n: Name)
      requires Good()
      ensures n in creates <==> Heads(n)
      ensures Defines(n) ==> GoodName(n)
    {
      assert GoodName(n) && objects.ListedAt(creates, n);
      if n in creates {
        var i :| 0 <= i < |creates| && creates[i] == n;
        assert objects.HeadsAt(creates, i);
      }
    }

    lemma ViaIsListed(n: Name)
      requires Good() && Defines(n)
      ensures Via(n) in creates && !Inside(Via(n)) && (n.TableN? ==> Via(n) == n)
    {
      ListedAt(n);
      ListedAt(Via(n));
    }

    lemma PartOfTable(t: Table, n: Name)
      ensures n in TableObjects(t, SpecOf(t)) <==> n == TableN(t) || (Inside(n) && n.table == t)
      ensures n in TableObjects(t, SpecOf(t)) && n != TableN(t) ==> TableObjects(t, SpecOf(t))[n] == DefOf(n)
      ensures TableN(t) in TableObjects(t, SpecOf(t)) ==> TableObjects(t, SpecOf(t))[TableN(t)] == TableDef
    {
      assert n in TableObjects(t, SpecOf(t)) <==> Part(t, SpecOf(t), n).Some?;
    }

    /** What a statement creates comes with it. */
    lemma CreatedVia(s: Name, n: Name)
      requires Good() && s in creates
      ensures n in Created(s) <==> Defines(n) && Via(n) == s
      ensures n in Created(s) ==> Created(s)[n] == DefOf(n)
    {
      ListedAt(s);
      if s.TableN? {
        PartOfTable(s.table, n);
      }
    }

    lemma MakesAt(n: Name)
      requires Good()
      ensures Defines(n) <==> ThePlan().Makes(n)
      ensures Defines(n) ==> ThePlan().DefOf(n) == DefOf(n)
    {
      var p := ThePlan();
      if p.Makes(n) {
        CreatedVia(creates[p.born(n)], n);
      }
      if Defines(n) {
        ViaIsListed(n);
        CreatedVia(Via(n), n);
        assert p.up[p.born(n)] == Create(Created(Via(n)), Via(n).TypeN? && skipTypes);
      }
    }

    lemma CreatesInPlace(i: int)
      requires Good()
      ensures ThePlan().CreateAt(i)
    {
      if 0 <= i < |creates| {
        forall n <- Created(creates[i]) ensures Position(creates, Via(n)) == i {
          CreatedVia(creates[i], n);
          CreatesAreDistinct();
          PositionOf(creates, i);
        }
        if creates[i].TypeN? {
          CreatedVia(creates[i], creates[i]);
          ListedAt(creates[i]);
        }
      }
    }

    lemma DropsInPlace(j: int)
      requires Good()
      ensures ThePlan().DropAt(j)
    {
      if 0 <= j < |drops| {
        DropsAreDistinct();
        var n := drops[j];
        assert n in creates;
        ListedAt(n);
        MakesAt(n);
        PositionOf(drops, j);
      }
    }

    /** n refers to the statement that m comes with, or comes with it too. */
    predicate RefersTo(n: Name, m: Name) {
      Defines(n) && Defines(m) && (Via(m) == Via(n) || Mentions(n, DefOf(n), Via(m)))
    }

    lemma MentionsNoIndex(n: Name, d: Def, m: Name)
      requires Mentions(n, d, m)
      ensures !m.IndexN? && !m.ConstraintN?
    {
    }

    lemma ComesNoLater(n: Name, m: Name)
      requires Good() && RefersTo(n, m)
      ensures 0 <= Position(creates, Via(m)) <= Position(creates, Via(n)) < |creates|
    {
      ViaIsListed(n);
      ViaIsListed(m);
      if Via(m) != Via(n) {
        MentionsNoIndex(n, DefOf(n), Via(m));
      }
      assert InOrderAt(Position(creates, Via(n)), Position(creates, Via(m)), n);
    }

    lemma GoesNoEarlier(n: Name, m: Name)
      requires Good() && RefersTo(n, m)
      ensures 0 <= Position(drops, Via(n)) <= Position(drops, Via(m)) < |drops|
    {
      ViaIsListed(n);
      ViaIsListed(m);
      DropsAreDistinct();
      if Via(m) != Via(n) {
        MentionsNoIndex(n, DefOf(n), Via(m));
      }
      assert InOrderAt(Position(drops, Via(m)), Position(drops, Via(n)), n);
    }

    /** What an object refers to comes no later and does not go earlier. */
    lemma MentionedIsReady(n: Name, m: Name)
      requires Good() && RefersTo(n, m)
      ensures ThePlan().Ready(n, m)
    {
      MakesAt(m);
      ComesNoLater(n, m);
      GoesNoEarlier(n, m);
    }

    /** What an object needs is there; a column that comes with its table is mentioned together with the table. */
    lemma NeedIsReady(n: Name, m: Name)
      requires Good() && Defines(n) && m in Needs(n, DefOf(n))
      ensures ThePlan().Ready(n, m)
    {
      var d := DefOf(n);
      NeedIsThere(n, d, m);
      if Defines(m) {
        MentionsIsNeeds(n, d, m);
        MentionsIsNeeds(n, d, Via(m));
        MentionedIsReady(n, m);
      }
    }

    lemma NeedIsThere(n: Name, d: Def, m: Name)
      requires Good() && objects.define(n) == Some(d) && m in Needs(n, d)
      ensures objects.There(m)
      ensures Defines(m) ==> Via(m) in Needs(n, d)
    {
      assert GoodName(n) && GoodName(m);
      var fields := objects.FieldsOf(n).1;
      if m.ColumnN? && m.field in fields {
        var k :| 0 <= k < |fields| && fields[k] == m.field;
        assert objects.FieldThere(n, k);
      }
    }

    lemma GoesInPlace(n: Name)
      requires Good() && Defines(n) && ThePlan().Makes(n)
      ensures ThePlan().Drops(n)
    {
      var p := ThePlan();
      assert GoodName(n);
      MakesAt(n);
      ViaIsListed(n);
      DropsAreDistinct();
      assert p.down[p.dies(n)] == Drop(Via(n), ifExists(Via(n)));
    }

    lemma NewIsHarmless(n: Name)
      requires Good() && Defines(n) && ThePlan().Makes(n)
      ensures ThePlan().Harmless(n) && WellTyped(n, DefOf(n))
    {
      assert GoodName(n);
      MakesAt(n);
      if n.ColumnN? || n.ConstraintN? {
        MakesAt(TableN(n.table));
      }
      if n.ConstraintN? && DefOf(n).ForeignDef? {
        MakesAt(ColumnN(n.table, DefOf(n).field));
      }
    }

    lemma DefinedIsGood(n: Name)
      requires Good() && Defines(n)
      ensures ThePlan().Makes(n) && ThePlan().GoodObject(n)
    {
      MakesAt(n);
      GoesInPlace(n);
      NewIsHarmless(n);
      assert GoodName(n);
      forall m <- Needs(n, DefOf(n)) ensures ThePlan().Ready(n, m) {
        NeedIsReady(n, m);
      }
    }

    lemma PlanIsGood()
      requires Good()
      ensures ThePlan().Good()
    {
      forall i ensures ThePlan().CreateAt(i) {
        CreatesInPlace(i);
      }
      forall j ensures ThePlan().DropAt(j) {
        DropsInPlace(j);
      }
      forall n | ThePlan().Makes(n) ensures ThePlan().GoodObject(n) {
        MakesAt(n);
        DefinedIsGood(n);
      }
      forall n ensures objects.base(n) ==> !n.TypeN? {
        assert GoodName(n);
      }
    }

    /** The database has the objects of earlier migrations. */
    ghost predicate Covers(db: Db) {
      forall n :: objects.base(n) ==> n in db.objects
    }

    /** The new objects are those defined. */
    lemma NewIs(n: Name)
      requires Good()
      ensures n in New(Up()) <==> Defines(n)
      ensures Defines(n) ==> New(Up())[n] == DefOf(n)
    {
      PlanIsGood();
      ThePlan().NewIsMade(n);
      MakesAt(n);
    }

    // ---- the theorems

    /** `down` after `up` gives back the database, every row included, exactly when no new name was taken. */
    lemma DownUndoesUp(db: Db)
      requires Good() && Consistent(db) && Covers(db)
      ensures (Run(db, Up()).Ok? && Run(Run(db, Up()).value, Down()) == Ok(db)) <==> Apart(db, New(Up()))
    {
      PlanIsGood();
      ThePlan().UndoesExactlyWhenApart(db);
    }

    lemma ApartFits(db: Db)
      requires Good() && Consistent(db) && Covers(db) && Apart(db, New(Up()))
      ensures ThePlan().Good() && ThePlan().Fits(db)
    {
      PlanIsGood();
      forall n | ThePlan().Makes(n) ensures n !in db.objects {
        ThePlan().NewIsMade(n);
      }
    }

    /**
      After `up` and any writes to any table, `down` succeeds: no step drops what another object
      still uses, and what remains is the database without the new objects and their values.
     */
    lemma DownAfterUse(db: Db, used: Db)
      requires Good() && Consistent(db) && Covers(db) && Apart(db, New(Up()))
      requires used.objects == db.objects + New(Up())
      ensures Run(used, Down()) == Ok(Without(used, New(Up()).Keys))
    {
      ApartFits(db);
      ThePlan().DownSucceeds(db, used);
    }

    lemma {:induction false} DropsNothing(db: Db, j: nat)
      requires j <= |drops| && forall n <- drops :: n !in db.objects
      ensures Run(db, Down()[j..]) ==
        if forall i :: j <= i < |drops| ==> ifExists(drops[i]) && Reachable(db.objects, drops[i]) then Ok(db)
        else Err(MissingName)
      decreases |drops| - j
    {
      var script := Down()[j..];
      if j < |drops| {
        assert script[0] == Down()[j] && script[1..] == Down()[j + 1..] && drops[j] in drops;
        DropsNothing(db, j + 1);
      }
    }

    /**
      A second `down` changes nothing where every DROP has IF EXISTS and alters no table that
      the first has dropped; otherwise it fails.
     */
    lemma DownTwice(db: Db, used: Db)
      requires Good() && Consistent(db) && Covers(db) && Apart(db, New(Up()))
      requires used.objects == db.objects + New(Up())
      ensures var once := Run(used, Down());
        && once.Ok?
        && Run(once.value, Down()) ==
             if forall n <- drops :: ifExists(n) && ((n.ColumnN? || n.ConstraintN?) ==> !Defines(TableN(n.table)))
             then once else Err(MissingName)
    {
      DownAfterUse(db, used);
      var once := Without(used, New(Up()).Keys);
      DropsAreDistinct();
      forall n <- drops
        ensures n !in once.objects
        ensures Reachable(once.objects, n) <==> ((n.ColumnN? || n.ConstraintN?) ==> !Defines(TableN(n.table)))
      {
        ListedAt(n);
        NewIs(n);
        if n.ColumnN? || n.ConstraintN? {
          NewIs(TableN(n.table));
          TableIsThere(db, n);
        }
      }
      assert Down()[0..] == Down();
      DropsNothing(once, 0);
    }

    /** The table of a new column or constraint is new, or was there. */
    lemma TableIsThere(db: Db, n: Name)
      requires Good() && Covers(db) && Defines(n) && (n.ColumnN? || n.ConstraintN?)
      ensures Defines(TableN(n.table)) || TableN(n.table) in db.objects
    {
      assert GoodName(n);
    }

    lemma SkippedAreTypes(db: Db)
      requires Good()
      ensures forall n <- Taken(ThePlan(), db) :: ThePlan().Skippable(n) <==> n.TypeN? && skipTypes
    {
      PlanIsGood();
      forall n <- Taken(ThePlan(), db) ensures ThePlan().Skippable(n) <==> n.TypeN? && skipTypes {
        ThePlan().NewIsMade(n);
        MakesAt(n);
        ViaIsListed(n);
      }
    }

    /** `up` succeeds if and only if the new names that are taken are types and it skips those. */
    lemma UpWhereTypesAreTaken(db: Db)
      requires Good() && Consistent(db) && Covers(db)
      ensures Run(db, Up()).Ok? <==> forall n <- Taken(ThePlan(), db) :: n.TypeN? && skipTypes
      ensures Run(db, Up()).Ok? ==> Run(db, Up()) == Ok(With(db, New(Up())))
    {
      PlanIsGood();
      OutcomeWhereTypesAreTaken(ThePlan(), db);
      SkippedAreTypes(db);
    }

    /**
      Then `down` succeeds if and only if no object of the database needs a type that was
      taken, and what is lost is those types.
     */
    lemma DownWhereTypesAreTaken(db: Db)
      requires Good() && Consistent(db) && Covers(db) && Run(db, Up()).Ok?
      ensures Run(Run(db, Up()).value, Down()).Ok? <==> NobodyNeeds(db, Taken(ThePlan(), db))
      ensures NobodyNeeds(db, Taken(ThePlan(), db)) ==>
        Run(Run(db, Up()).value, Down()) == Ok(Without(db, Taken(ThePlan(), db)))
    {
      PlanIsGood();
      OutcomeWhereTypesAreTaken(ThePlan(), db);
    }

    lemma StatementsTyped()
      requires Good()
      ensures forall i :: 0 <= i < |creates| ==> Typed(Up()[i])
      ensures forall j :: 0 <= j < |drops| ==> Typed(Down()[j])
    {
      PlanIsGood();
      forall i: nat | i < |creates| ensures Typed(Up()[i]) {
        forall n <- Up()[i].objects ensures WellTyped(n, Up()[i].objects[n]) {
          ThePlan().MadeHere(i, n);
        }
      }
    }

    /** What `up` leaves in the rows that were there. */
    lemma UpGrowsRows(db: Db)
      requires Good() && Consistent(db) && Covers(db) && Run(db, Up()).Ok?
      ensures Run(db, Up()).value.objects == db.objects + New(Up())
      ensures GrownRows(db, Run(db, Up()).value, New(Up()))
    {
      UpWhereTypesAreTaken(db);
      WithGrows(db, New(Up()));
    }

    /**
      `up` succeeds exactly when the new names that are taken are types that it skips.  It
      then adds the new objects, old rows get their new columns, and no constraint breaks.
     */
    method RunUp(database: Database) returns (ok: bool)
      requires Good() && Consistent(database.db) && Covers(database.db)
      modifies database
      ensures ok <==> forall n <- Taken(ThePlan(), old(database.db)) :: n.TypeN? && skipTypes
      ensures ok ==> database.db.objects == old(database.db).objects + New(Up())
      ensures ok ==> GrownRows(old(database.db), database.db, New(Up()))
      ensures !ok ==> database.db == old(database.db)
      ensures Consistent(database.db) && (Intact(old(database.db)) ==> Intact(database.db))
    {
      UpWhereTypesAreTaken(database.db);
      StatementsTyped();
      if Run(database.db, Up()).Ok? {
        UpGrowsRows(database.db);
        ScriptsKeepIntact(database.db, Up());
      }
      ok := database.Migrate(Up());
    }

    /** `down` takes the new objects away from any database that grew from `before`; it never breaks a constraint. */
    method RunDown(database: Database, ghost before: Db) returns (ok: bool)
      requires Good() && Consistent(before) && Covers(before) && Apart(before, New(Up()))
      requires Consistent(database.db) && database.db.objects == before.objects + New(Up())
      modifies database
      ensures ok && database.db.objects == before.objects
      ensures ShrunkRows(old(database.db), database.db, New(Up()).Keys)
      ensures Consistent(database.db) && (Intact(old(database.db)) ==> Intact(database.db))
    {
      DownAfterUse(before, database.db);
      StatementsTyped();
      ScriptsKeepIntact(database.db, Down());
      WithoutShrinks(database.db, New(Up()).Keys);
      ok := database.Migrate(Down());
    }
  }
}
