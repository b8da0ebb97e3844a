/**
  The database that migrations transform: a catalog of named objects with the dependencies
  between them, and the rows.  Statements create or drop objects; a script stops at the first
  statement that fails, and its transaction is rolled back.
 */
module Catalog {
  import opened Prelude
  import opened Names

  datatype Name =
    | TypeN(ty: TypeName)
    | TableN(table: Table)
    | ColumnN(table: Table, field: Field)
    | ConstraintN(table: Table, constraint: ConstraintName)
    | IndexN(index: IndexName)

  /** Drawn: a value the server draws when a row is written, such as now() or a fresh uuid. */
  datatype Value = Null | Num(n: int) | Str(s: string) | Bool(b: bool) | Vector(of: Value) | Drawn

  datatype Fill = NoDefault | Default(value: Value) | Generated(from: Field)

  datatype ColumnType = Builtin | Enum(ty: TypeName)

  datatype Check =
    | OneOf(field: Field, values: set<string>)
    | Between(field: Field, low: int, high: int)
    | ExactlyOne(left: Field, right: Field)

  const NULLABLE: Def := ColumnDef(Builtin, false, NoDefault)
  const REQUIRED: Def := ColumnDef(Builtin, true, NoDefault)
  const STAMP: Def := ColumnDef(Builtin, true, Default(Drawn))

  function Preset(v: Value): Def {
    ColumnDef(Builtin, true, Default(v))
  }

  datatype Def =
    | TypeDef
    | TableDef
    | ColumnDef(ty: ColumnType, notNull: bool, fill: Fill)
    | KeyDef(fields: seq<Field>)                    // PRIMARY KEY or UNIQUE
    | ForeignDef(field: Field, target: Table)
    | CheckDef(check: Check)
    | IndexDef(on: Table, fields: seq<Field>)       // the indexed columns and those of its WHERE clause

  type Objects = map<Name, Def>

  type Tuple = map<Field, Value>

  type Tuples = map<int, Tuple>

  datatype Db = Db(objects: Objects, data: map<Table, Tuples>)

  // ---------------------------------------------------------------- dependencies

  function Columns(t: Table, fields: seq<Field>): set<Name> {
    set f <- fields :: ColumnN(t, f)
  }

  function CheckedFields(c: Check): seq<Field> {
    match c
    case OneOf(f, _) => [f]
    case Between(f, _, _) => [f]
    case ExactlyOne(f, g) => [f, g]
  }

  /** The objects without which n cannot exist. */
  function Needs(n: Name, d: Def): set<Name> {
    match (n, d)
    case (ColumnN(t, _), ColumnDef(ty, _, fill)) =>
      {TableN(t)} + (if ty.Enum? then {TypeN(ty.ty)} else {})
        + (if fill.Generated? then {ColumnN(t, fill.from)} else {})
    case (ConstraintN(t, _), KeyDef(fields)) => {TableN(t)} + Columns(t, fields)
    case (ConstraintN(t, _), ForeignDef(f, target)) => {TableN(t), ColumnN(t, f), TableN(target), ColumnN(target, Id)}
    case (ConstraintN(t, _), CheckDef(check)) => {TableN(t)} + Columns(t, CheckedFields(check))
    case (IndexN(_), IndexDef(t, fields)) => {TableN(t)} + Columns(t, fields)
    case _ => {}
  }

  /** The table whose DROP takes the object with it. */
  function Home(n: Name, d: Def): Option<Table> {
    match n
    case ColumnN(t, _) => Some(t)
    case ConstraintN(t, _) => Some(t)
    case IndexN(_) => if d.IndexDef? then Some(d.on) else None
    case _ => None
  }

  /** Dropping `parent` drops n as well: a part of a dropped table, or an index or constraint on a dropped column. */
  predicate GoesWith(n: Name, d: Def, parent: Name) {
    && parent in Needs(n, d)
    && match parent
       case TableN(t) => Home(n, d) == Some(t)
       case ColumnN(t, _) => Home(n, d) == Some(t) && !n.ColumnN?
       case _ => false
  }

  function Dropped(objects: Objects, n: Name): set<Name> {
    set m | m in objects && (m == n || GoesWith(m, objects[m], n))
  }

  // ---------------------------------------------------------------- rows

  function FillValue(row: Tuple, fill: Fill): Value {
    match fill
    case NoDefault => Null
    case Default(v) => v
    case Generated(from) => if from in row then Vector(row[from]) else Null
  }

  predicate AddsColumn(objects: Objects, t: Table, f: Field) {
    ColumnN(t, f) in objects && objects[ColumnN(t, f)].ColumnDef?
  }

  /** A row of t with the columns of t that `objects` adds. */
  function Widen(row: Tuple, t: Table, objects: Objects): Tuple {
    row + map f: Field | AddsColumn(objects, t, f) :: FillValue(row, objects[ColumnN(t, f)].fill)
  }

  function Narrow(row: Tuple, t: Table, gone: set<Name>): Tuple {
    map f | f in row && ColumnN(t, f) !in gone :: row[f]
  }

  function WidenAll(tuples: Tuples, t: Table, objects: Objects): Tuples {
    map i | i in tuples :: Widen(tuples[i], t, objects)
  }

  function NarrowAll(tuples: Tuples, t: Table, gone: set<Name>): Tuples {
    map i | i in tuples :: Narrow(tuples[i], t, gone)
  }

  /** The database with more objects: new tables are empty, old rows get the new columns. */
  function With(db: Db, objects: Objects): Db {
    Db(db.objects + objects,
       map t: Table | t in db.data || TableN(t) in objects ::
         if t in db.data then WidenAll(db.data[t], t, objects) else map[])
  }

  /** The database without the objects in gone: their tables, columns and values disappear. */
  function Without(db: Db, gone: set<Name>): Db {
    Db(db.objects - gone,
       map t: Table | t in db.data && TableN(t) !in gone :: NarrowAll(db.data[t], t, gone))
  }

  predicate Passes(check: Check, row: Tuple) {
    match check
    case OneOf(f, values) => f in row && row[f].Str? ==> row[f].s in values
    case Between(f, low, high) => f in row && row[f].Num? ==> low <= row[f].n <= high
    case ExactlyOne(f, g) => (f in row && row[f] != Null) != (g in row && row[g] != Null)
  }

  /** The rows satisfy the constraint; NULL satisfies foreign keys, and CHECKs that compare it. */
  predicate Satisfies(data: map<Table, Tuples>, n: Name, d: Def) {
    match (n, d)
    case (ConstraintN(t, _), CheckDef(check)) => t in data ==> forall i <- data[t] :: Passes(check, data[t][i])
    case (ConstraintN(t, _), ForeignDef(f, target)) =>
      t in data ==> forall i <- data[t] :: f in data[t][i] ==>
        data[t][i][f] == Null || (data[t][i][f].Num? && target in data && data[t][i][f].n in data[target])
    case (ConstraintN(t, _), KeyDef(fields)) =>
      t in data ==> forall i, j :: i in data[t] && j in data[t] && i != j ==>
        exists f ::
          && f in fields
          && !(f in data[t][i] && f in data[t][j] && data[t][i][f] != Null && data[t][i][f] == data[t][j][f])
    case (ColumnN(t, f), ColumnDef(_, notNull, _)) =>
      t in data && notNull ==> forall i <- data[t] :: f in data[t][i] && data[t][i][f] != Null
    case _ => true
  }

  // ---------------------------------------------------------------- statements

  /**
    Create: CREATE TYPE, CREATE TABLE with its columns and constraints, ADD COLUMN, ADD
    CONSTRAINT or CREATE INDEX.  unlessExists: the statement does nothing when the name is taken.
   */
  datatype Statement =
    | Create(objects: Objects, unlessExists: bool)
    | Drop(name: Name, ifExists: bool)

  datatype TableSpec = TableSpec(columns: map<Field, Def>, constraints: map<ConstraintName, Def>)

  /** The definition of n if it is a part of the table. */
  function Part(t: Table, spec: TableSpec, n: Name): Option<Def> {
    match n
    case TableN(u) => if u == t then Some(TableDef) else None
    case ColumnN(u, f) => if u == t && f in spec.columns then Some(spec.columns[f]) else None
    case ConstraintN(u, c) => if u == t && c in spec.constraints then Some(spec.constraints[c]) else None
    case _ => None
  }

  function TableObjects(t: Table, spec: TableSpec): Objects {
    var names := {TableN(t)} + (set f <- spec.columns.Keys :: ColumnN(t, f))
      + (set c <- spec.constraints.Keys :: ConstraintN(t, c));
    map n | n in names && Part(t, spec, n).Some? :: Part(t, spec, n).value
  }

  datatype Failure = DuplicateName | MissingName | StillUsed | Violated

  predicate AllSatisfied(data: map<Table, Tuples>, objects: Objects) {
    forall n <- objects :: Satisfies(data, n, objects[n])
  }

  predicate AllNeedsMet(have: set<Name>, objects: Objects) {
    forall n <- objects :: Needs(n, objects[n]) <= have
  }

  /** Some object that stays depends on one that goes. */
  predicate StillNeeded(objects: Objects, gone: set<Name>) {
    exists m <- objects :: m !in gone && Needs(m, objects[m]) * gone != {}
  }

  /** The table that an ALTER TABLE alters is there; IF EXISTS speaks of the part alone. */
  predicate Reachable(objects: Objects, name: Name) {
    name.ColumnN? || name.ConstraintN? ==> TableN(name.table) in objects
  }

  function Exec(db: Db, st: Statement): Result<Db, Failure> {
    match st
    case Create(objects, unlessExists) =>
      if objects.Keys * db.objects.Keys != {} then (if unlessExists then Ok(db) else Err(DuplicateName))
      else if !AllNeedsMet(db.objects.Keys + objects.Keys, objects) then Err(MissingName)
      else if !AllSatisfied(With(db, objects).data, objects) then Err(Violated)
      else Ok(With(db, objects))
    case Drop(name, ifExists) =>
      if name !in db.objects then (if ifExists && Reachable(db.objects, name) then Ok(db) else Err(MissingName))
      else if StillNeeded(db.objects, Dropped(db.objects, name)) then Err(StillUsed)
      else Ok(Without(db, Dropped(db.objects, name)))
  }

  function Run(db: Db, script: seq<Statement>): Result<Db, Failure>
    decreases |script|
  {
    if script == [] then Ok(db)
    else
      match Exec(db, script[0])
      case Ok(next) => Run(next, script[1..])
      case Err(e) => Err(e)
  }

  class Database {
    var db: Db

    constructor (db: Db)
      ensures this.db == db
    {
      this.db := db;
    }

    /** Runs the statements of a migration one by one, in one transaction. */
    method Migrate(script: seq<Statement>) returns (ok: bool)
      modifies this
      ensures ok == Run(old(db), script).Ok?
      ensures db == if ok then Run(old(db), script).value else old(db)
    {
      var before := db;
      var i := 0;
      while i < |script|
        invariant 0 <= i <= |script|
        invariant Run(before, script) == Run(db, script[i..])
      {
        assert script[i..][0] == script[i] && script[i..][1..] == script[i + 1..];
        match Exec(db, script[i]) {
          case Ok(next) => db := next;
          case Err(_) =>
            db := before;
            return false;
        }
        i := i + 1;
      }
      return true;
    }
  }

  // ---------------------------------------------------------------- consistent databases

  /** Types are defined as types, and columns as columns. */
  predicate WellTyped(n: Name, d: Def) {
    (n.TypeN? ==> d == TypeDef) && (n.ColumnN? ==> d.ColumnDef?)
  }

  /** Every object has what it needs, tables have rows, and rows have exactly the columns of their table. */
  ghost predicate Consistent(db: Db) {
    && (forall n <- db.objects :: WellTyped(n, db.objects[n]))
    && (forall n <- db.objects :: Needs(n, db.objects[n]) <= db.objects.Keys)
    && (forall t :: t in db.data <==> TableN(t) in db.objects)
    && (forall t, i, f :: t in db.data && i in db.data[t] ==> (f in db.data[t][i] <==> ColumnN(t, f) in db.objects))
  }
}
