/**
  What single statements do to any database, told from its objects and rows alone: which DROPs
  the dependencies forbid and what goes along, and which rows ADD CONSTRAINT accepts.
 */
module Statements {
  import opened Prelude
  import opened Names
  import opened Catalog
  import opened Blueprints

  ghost predicate WellShaped(db: Db) {
    Consistent(db) && forall n <- db.objects :: Shaped(n, db.objects[n])
  }

  // ---------------------------------------------------------------- DROP

  /** n is a foreign key of another table that references t. */
  predicate PointsTo(n: Name, d: Def, t: Table) {
    n.ConstraintN? && n.table != t && d.ForeignDef? && d.target == t
  }

  /** n is the table t, or a column, constraint or index of it. */
  predicate BelongsTo(n: Name, d: Def, t: Table) {
    match n
    case TypeN(_) => false
    case TableN(u) => u == t
    case ColumnN(u, _) => u == t
    case ConstraintN(u, _) => u == t
    case IndexN(_) => d.IndexDef? && d.on == t
  }

  lemma NeedsNoPart(n: Name, d: Def, m: Name)
    requires m in Needs(n, d)
    ensures m.TableN? || m.ColumnN? || m.TypeN?
  {
  }

  lemma GoesWithTable(db: Db, t: Table, n: Name)
    requires WellShaped(db) && n in db.objects
    ensures n in Dropped(db.objects, TableN(t)) <==> BelongsTo(n, db.objects[n], t)
  {
    MentionsIsNeeds(n, db.objects[n], TableN(t));
  }

  /** What does not belong to the table but needs it, or a column of it, is a key that references it. */
  lemma TableNeeded(n: Name, d: Def, t: Table, m: Name)
    requires Shaped(n, d) && !BelongsTo(n, d, t)
    ensures m in Needs(n, d) && (m == TableN(t) || (m.ColumnN? && m.table == t)) ==> PointsTo(n, d, t)
    ensures PointsTo(n, d, t) ==> TableN(t) in Needs(n, d)
  {
    MentionsIsNeeds(n, d, m);
    match n
    case ConstraintN(u, _) =>
    case _ =>
  }

  lemma StillNeedsTable(db: Db, t: Table, n: Name)
    requires WellShaped(db) && TableN(t) in db.objects && n in db.objects && !BelongsTo(n, db.objects[n], t)
    ensures Needs(n, db.objects[n]) * Dropped(db.objects, TableN(t)) != {} <==> PointsTo(n, db.objects[n], t)
  {
    var d, gone := db.objects[n], Dropped(db.objects, TableN(t));
    if m :| m in Needs(n, d) * gone {
      GoesWithTable(db, t, m);
      NeedsNoPart(n, d, m);
      TableNeeded(n, d, t, m);
    }
    if PointsTo(n, d, t) {
      TableNeeded(n, d, t, TableN(t));
      assert TableN(t) in Needs(n, d) * gone;
    }
  }

  /** DROP TABLE: refused exactly when another table's key references it; it takes all its parts and nothing else. */
  lemma DropTableExactly(db: Db, t: Table, ifExists: bool)
    requires WellShaped(db) && TableN(t) in db.objects
    ensures var r := Exec(db, Drop(TableN(t), ifExists));
      && (r.Ok? <==> forall n <- db.objects :: !PointsTo(n, db.objects[n], t))
      && (r.Ok? ==>
            && r.value.objects == (map n | n in db.objects && !BelongsTo(n, db.objects[n], t) :: db.objects[n])
            && r.value.data == db.data - {t})
  {
    var gone := Dropped(db.objects, TableN(t));
    forall n <- db.objects
      ensures n in gone <==> BelongsTo(n, db.objects[n], t)
      ensures n !in gone ==>
        (Needs(n, db.objects[n]) * gone != {} <==> PointsTo(n, db.objects[n], t))
    {
      GoesWithTable(db, t, n);
      if n !in gone {
        StillNeedsTable(db, t, n);
      }
    }
    if !StillNeeded(db.objects, gone) {
      forall u <- db.data | u != t ensures NarrowAll(db.data[u], u, gone) == db.data[u] {
        forall i <- db.data[u] ensures Narrow(db.data[u][i], u, gone) == db.data[u][i] {
        }
      }
    }
  }

  /** The column is among those that a constraint or an index of its table names. */
  predicate UsesColumn(n: Name, d: Def, t: Table, f: Field) {
    match d
    case KeyDef(fields) => n.ConstraintN? && n.table == t && f in fields
    case CheckDef(check) => n.ConstraintN? && n.table == t && f in CheckedFields(check)
    case ForeignDef(g, target) => n.ConstraintN? && n.table == t && (g == f || (target == t && f == Id))
    case IndexDef(on, fields) => n.IndexN? && on == t && f in fields
    case _ => false
  }

  /** n is a generated column that reads f, or another table's key that references it. */
  predicate DependsOnColumn(n: Name, d: Def, t: Table, f: Field) {
    || (n.ColumnN? && n.table == t && n.field != f && d.ColumnDef? && d.fill == Generated(f))
    || (PointsTo(n, d, t) && f == Id)
  }

  lemma GoesExactly(n: Name, d: Def, t: Table, f: Field)
    requires Shaped(n, d)
    ensures GoesWith(n, d, ColumnN(t, f)) <==> UsesColumn(n, d, t, f)
  {
    match d
    case KeyDef(fields) =>
    case CheckDef(check) =>
    case ForeignDef(g, target) =>
    case IndexDef(on, fields) =>
    case ColumnDef(ty, _, fill) =>
    case _ =>
  }

  lemma GoesWithColumn(db: Db, t: Table, f: Field, n: Name)
    requires WellShaped(db) && n in db.objects
    ensures n in Dropped(db.objects, ColumnN(t, f)) <==> n == ColumnN(t, f) || UsesColumn(n, db.objects[n], t, f)
  {
    GoesExactly(n, db.objects[n], t, f);
  }

  lemma ColumnNeededByColumn(n: Name, d: Def, t: Table, f: Field)
    requires Shaped(n, d) && n.ColumnN? && n != ColumnN(t, f)
    ensures ColumnN(t, f) in Needs(n, d) <==> DependsOnColumn(n, d, t, f)
  {
  }

  lemma KeyNeeds(n: Name, d: Def, m: Name)
    requires n.ConstraintN? && d.ForeignDef? && m.ColumnN?
    ensures m in Needs(n, d) <==> m == ColumnN(n.table, d.field) || m == ColumnN(d.target, Id)
  {
    MentionsIsNeeds(n, d, m);
  }

  lemma ColumnNeeded(n: Name, d: Def, t: Table, f: Field)
    requires Shaped(n, d) && n != ColumnN(t, f) && !UsesColumn(n, d, t, f)
    ensures ColumnN(t, f) in Needs(n, d) <==> DependsOnColumn(n, d, t, f)
  {
    match d
    case KeyDef(fields) =>
    case CheckDef(check) =>
    case ForeignDef(g, target) => KeyNeeds(n, d, ColumnN(t, f));
    case IndexDef(on, fields) =>
    case ColumnDef(_, _, _) => ColumnNeededByColumn(n, d, t, f);
    case _ =>
  }

  /** Of what goes with a column, other objects can need the column alone. */
  lemma OnlyTheColumn(db: Db, t: Table, f: Field, n: Name, m: Name)
    requires WellShaped(db) && n in db.objects && m in Needs(n, db.objects[n])
    requires m in Dropped(db.objects, ColumnN(t, f))
    ensures m == ColumnN(t, f)
  {
    NeedsNoPart(n, db.objects[n], m);
    GoesWithColumn(db, t, f, m);
  }

  lemma StillNeedsColumn(db: Db, t: Table, f: Field, n: Name)
    requires WellShaped(db) && ColumnN(t, f) in db.objects
    requires n in db.objects && n != ColumnN(t, f) && !UsesColumn(n, db.objects[n], t, f)
    ensures Needs(n, db.objects[n]) * Dropped(db.objects, ColumnN(t, f)) != {} <==>
      DependsOnColumn(n, db.objects[n], t, f)
  {
    var needs, gone := Needs(n, db.objects[n]), Dropped(db.objects, ColumnN(t, f));
    ColumnNeeded(n, db.objects[n], t, f);
    assert ColumnN(t, f) in gone;
    if m :| m in needs * gone {
      OnlyTheColumn(db, t, f, n, m);
    }
    assert ColumnN(t, f) in needs ==> ColumnN(t, f) in needs * gone;
  }

  /**
    DROP COLUMN: refused exactly when a generated column reads it or another table's key
    references it; its indexes and constraints go along, and of the rows only its cells.
   */
  lemma DropColumnExactly(db: Db, t: Table, f: Field, ifExists: bool)
    requires WellShaped(db) && ColumnN(t, f) in db.objects
    ensures var r := Exec(db, Drop(ColumnN(t, f), ifExists));
      && (r.Ok? <==> forall n <- db.objects :: !DependsOnColumn(n, db.objects[n], t, f))
      && (r.Ok? ==>
            && r.value.objects ==
                 (map n | n in db.objects && n != ColumnN(t, f) && !UsesColumn(n, db.objects[n], t, f) :: db.objects[n])
            && r.value.data ==
                 map u | u in db.data ::
                   if u == t then (map i | i in db.data[t] :: db.data[t][i] - {f}) else db.data[u])
  {
    var gone := Dropped(db.objects, ColumnN(t, f));
    forall n <- db.objects
      ensures n in gone <==> n == ColumnN(t, f) || UsesColumn(n, db.objects[n], t, f)
      ensures n !in gone ==> (Needs(n, db.objects[n]) * gone != {} <==> DependsOnColumn(n, db.objects[n], t, f))
    {
      GoesWithColumn(db, t, f, n);
      if n !in gone {
        StillNeedsColumn(db, t, f, n);
      }
    }
    forall n <- db.objects | DependsOnColumn(n, db.objects[n], t, f) ensures n !in gone {
    }
    OneColumnGone(db, t, f, gone);
  }

  lemma OneColumnGone(db: Db, t: Table, f: Field, gone: set<Name>)
    requires forall n <- gone :: !n.TableN? && (n.ColumnN? ==> n == ColumnN(t, f))
    requires ColumnN(t, f) in gone
    ensures Without(db, gone).data ==
      map u | u in db.data :: if u == t then (map i | i in db.data[t] :: db.data[t][i] - {f}) else db.data[u]
  {
    forall u <- db.data
      ensures NarrowAll(db.data[u], u, gone) ==
        if u == t then (map i | i in db.data[t] :: db.data[t][i] - {f}) else db.data[u]
    {
      forall i <- db.data[u]
        ensures Narrow(db.data[u][i], u, gone) == if u == t then db.data[u][i] - {f} else db.data[u][i]
      {
      }
    }
  }

  /** DROP TYPE: refused exactly when a column has the type; nothing goes along. */
  lemma DropTypeExactly(db: Db, ty: TypeName, ifExists: bool)
    requires WellShaped(db) && TypeN(ty) in db.objects
    ensures var r := Exec(db, Drop(TypeN(ty), ifExists));
      && (r.Ok? <==> forall n <- db.objects :: db.objects[n].ColumnDef? ==> db.objects[n].ty != Enum(ty))
      && (r.Ok? ==> r.value == Db(db.objects - {TypeN(ty)}, db.data))
  {
    var gone := Dropped(db.objects, TypeN(ty));
    assert gone == {TypeN(ty)};
    forall n <- db.objects
      ensures Needs(n, db.objects[n]) * gone != {} <==> db.objects[n].ColumnDef? && db.objects[n].ty == Enum(ty)
    {
      MentionsIsNeeds(n, db.objects[n], TypeN(ty));
      assert TypeN(ty) in Needs(n, db.objects[n]) <==> Needs(n, db.objects[n]) * gone != {};
    }
    NothingNarrowed(db, gone);
  }

  lemma NothingNarrowed(db: Db, gone: set<Name>)
    requires forall n <- gone :: !n.TableN? && !n.ColumnN?
    ensures Without(db, gone).data == db.data
  {
    forall u <- db.data ensures NarrowAll(db.data[u], u, gone) == db.data[u] {
      forall i <- db.data[u] ensures Narrow(db.data[u][i], u, gone) == db.data[u][i] {
      }
    }
  }

  /** DROP INDEX and DROP CONSTRAINT always succeed on what is there, and take that alone. */
  lemma DropPartExactly(db: Db, n: Name, ifExists: bool)
    requires WellShaped(db) && n in db.objects && (n.IndexN? || n.ConstraintN?)
    ensures Exec(db, Drop(n, ifExists)) == Ok(Db(db.objects - {n}, db.data))
  {
    forall m <- db.objects ensures n !in Needs(m, db.objects[m]) {
      if n in Needs(m, db.objects[m]) {
        NeedsNoPart(m, db.objects[m], n);
      }
    }
    assert Dropped(db.objects, n) == {n};
    NothingNarrowed(db, {n});
  }

  // ---------------------------------------------------------------- ADD CONSTRAINT

  /** Adding a constraint changes no row. */
  lemma SameData(db: Db, t: Table, c: ConstraintName, d: Def)
    requires WellShaped(db) && ConstraintN(t, c) !in db.objects
    ensures With(db, map[ConstraintN(t, c) := d]).data == db.data
  {
    var made := map[ConstraintN(t, c) := d];
    forall u <- db.data ensures WidenAll(db.data[u], u, made) == db.data[u] {
      forall i <- db.data[u] ensures Widen(db.data[u][i], u, made) == db.data[u][i] {
      }
    }
  }

  /** One object more: the statement succeeds exactly when the rows then satisfy it. */
  lemma AddedAlone(db: Db, made: Objects, n: Name)
    requires made.Keys == {n} && n !in db.objects && Needs(n, made[n]) <= db.objects.Keys
    ensures Exec(db, Create(made, false)).Ok? <==> Satisfies(With(db, made).data, n, made[n])
  {
    assert made.Keys * db.objects.Keys == {};
    assert AllNeedsMet(db.objects.Keys + made.Keys, made);
    assert n in made && forall m <- made :: m == n;
  }

  lemma AddedWhereSatisfied(db: Db, t: Table, c: ConstraintName, d: Def)
    requires WellShaped(db) && ConstraintN(t, c) !in db.objects && Needs(ConstraintN(t, c), d) <= db.objects.Keys
    ensures Exec(db, Create(map[ConstraintN(t, c) := d], false)).Ok? <==> Satisfies(db.data, ConstraintN(t, c), d)
  {
    var made := map[ConstraintN(t, c) := d];
    SameData(db, t, c, d);
    AddedAlone(db, made, ConstraintN(t, c));
  }

  /** ADD FOREIGN KEY: accepted exactly when every value in the column is NULL or the id of a row of the target. */
  lemma AddForeignKeyExactly(db: Db, t: Table, c: ConstraintName, f: Field, target: Table)
    requires WellShaped(db) && ConstraintN(t, c) !in db.objects
    requires {TableN(t), ColumnN(t, f), TableN(target), ColumnN(target, Id)} <= db.objects.Keys
    ensures t in db.data && target in db.data && forall i <- db.data[t] :: f in db.data[t][i]
    ensures Exec(db, Create(map[ConstraintN(t, c) := ForeignDef(f, target)], false)).Ok? <==>
      forall i <- db.data[t] :: db.data[t][i][f] == Null || exists id <- db.data[target] :: db.data[t][i][f] == Num(id)
  {
    AddedWhereSatisfied(db, t, c, ForeignDef(f, target));
    ForeignExactly(db.data, t, c, f, target);
  }

  lemma ForeignExactly(data: map<Table, Tuples>, t: Table, c: ConstraintName, f: Field, target: Table)
    requires t in data && target in data && forall i <- data[t] :: f in data[t][i]
    ensures Satisfies(data, ConstraintN(t, c), ForeignDef(f, target)) <==>
      forall i <- data[t] :: data[t][i][f] == Null || exists id <- data[target] :: data[t][i][f] == Num(id)
  {
    forall i <- data[t]
      ensures (exists id <- data[target] :: data[t][i][f] == Num(id)) <==>
        data[t][i][f].Num? && data[t][i][f].n in data[target]
    {
      if data[t][i][f].Num? {
        assert data[t][i][f] == Num(data[t][i][f].n);
      }
    }
  }

  /** The rows have the same value, not NULL, in each of the columns. */
  predicate Coincide(a: Tuple, b: Tuple, fields: seq<Field>) {
    forall f <- fields :: f in a && f in b && a[f] == b[f] && a[f] != Null
  }

  /** ADD UNIQUE or PRIMARY KEY: accepted exactly when no two rows coincide in the columns. */
  lemma AddKeyExactly(db: Db, t: Table, c: ConstraintName, fields: seq<Field>)
    requires WellShaped(db) && ConstraintN(t, c) !in db.objects && TableN(t) in db.objects
    requires forall f <- fields :: ColumnN(t, f) in db.objects
    ensures t in db.data
    ensures Exec(db, Create(map[ConstraintN(t, c) := KeyDef(fields)], false)).Ok? <==>
      forall i, j :: i in db.data[t] && j in db.data[t] && Coincide(db.data[t][i], db.data[t][j], fields) ==> i == j
  {
    AddedWhereSatisfied(db, t, c, KeyDef(fields));
  }

  /** The values in the rows of a table are in the list, within the bounds, or NULL in exactly one of two columns. */
  ghost predicate AllMeet(tuples: Tuples, check: Check) {
    match check
    case OneOf(f, values) =>
      forall i, s :: i in tuples && f in tuples[i] && tuples[i][f] == Str(s) ==> s in values
    case Between(f, low, high) =>
      forall i, n :: i in tuples && f in tuples[i] && tuples[i][f] == Num(n) ==> low <= n <= high
    case ExactlyOne(f, g) =>
      forall i <- tuples :: f in tuples[i] && g in tuples[i] && (tuples[i][f] == Null <==> tuples[i][g] != Null)
  }

  /** ADD CHECK: accepted exactly when the values meet it; a comparison with NULL passes. */
  lemma AddCheckExactly(db: Db, t: Table, c: ConstraintName, check: Check)
    requires WellShaped(db) && ConstraintN(t, c) !in db.objects && TableN(t) in db.objects
    requires forall f <- CheckedFields(check) :: ColumnN(t, f) in db.objects
    ensures t in db.data
    ensures Exec(db, Create(map[ConstraintN(t, c) := CheckDef(check)], false)).Ok? <==> AllMeet(db.data[t], check)
  {
    AddedWhereSatisfied(db, t, c, CheckDef(check));
    forall f <- CheckedFields(check), i <- db.data[t] ensures f in db.data[t][i] {
      assert ColumnN(t, f) in db.objects;
    }
    CheckExactly(db.data, t, c, check);
  }

  lemma CheckExactly(data: map<Table, Tuples>, t: Table, c: ConstraintName, check: Check)
    requires t in data && forall i <- data[t], f <- CheckedFields(check) :: f in data[t][i]
    ensures Satisfies(data, ConstraintN(t, c), CheckDef(check)) <==> AllMeet(data[t], check)
  {
    match check
    case OneOf(f, values) =>
    case Between(f, low, high) =>
    case ExactlyOne(f, g) =>
      assert CheckedFields(check)[0] == f && CheckedFields(check)[1] == g;
      assert f in CheckedFields(check) && g in CheckedFields(check);
  }

  /** ADD COLUMN: refused exactly when it is NOT NULL and a row gets NULL, as where it has no default. */
  lemma AddColumnExactly(db: Db, t: Table, f: Field, notNull: bool, v: Value)
    requires WellShaped(db) && TableN(t) in db.objects && ColumnN(t, f) !in db.objects
    ensures t in db.data
    ensures var fill := if v == Null then NoDefault else Default(v);
      Exec(db, Create(map[ColumnN(t, f) := ColumnDef(Builtin, notNull, fill)], false)).Ok? <==>
        v != Null || !notNull || forall i :: i !in db.data[t]
  {
    var d := ColumnDef(Builtin, notNull, if v == Null then NoDefault else Default(v));
    NeedsItsTable(t, f, d);
    AddedAlone(db, map[ColumnN(t, f) := d], ColumnN(t, f));
    AllGet(db, t, f, d, v, With(db, map[ColumnN(t, f) := d]).data);
  }

  lemma NeedsItsTable(t: Table, f: Field, d: Def)
    requires d.ColumnDef? && d.ty == Builtin && !d.fill.Generated?
    ensures Needs(ColumnN(t, f), d) == {TableN(t)}
  {
  }

  /** Every old row gets the value. */
  lemma AllGet(db: Db, t: Table, f: Field, d: Def, v: Value, data: map<Table, Tuples>)
    requires t in db.data && data == With(db, map[ColumnN(t, f) := d]).data
    requires d.ColumnDef? && d.fill == if v == Null then NoDefault else Default(v)
    ensures Satisfies(data, ColumnN(t, f), d) <==> v != Null || !d.notNull || forall i :: i !in db.data[t]
  {
    var made := map[ColumnN(t, f) := d];
    assert t in data && data[t] == WidenAll(db.data[t], t, made);
    forall i <- db.data[t] ensures f in data[t][i] && data[t][i][f] == v {
      assert AddsColumn(made, t, f) && data[t][i] == Widen(db.data[t][i], t, made);
    }
    assert data[t].Keys == db.data[t].Keys;
    if i :| i in db.data[t] {
      assert i in data[t] && data[t][i][f] == v;
    }
  }
}
