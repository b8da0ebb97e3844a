/**
  What every script keeps, whatever its statements: the catalog refers only to what exists,
  the rows have the columns of their tables, and every constraint holds in every row.
 */
module Integrity {
  import opened Names
  import opened Catalog
  import opened Undo

  ghost predicate Intact(db: Db) {
    Consistent(db) && AllSatisfied(db.data, db.objects)
  }

  predicate Typed(st: Statement) {
    st.Create? ==> forall n <- st.objects :: WellTyped(n, st.objects[n])
  }

  // ---------------------------------------------------------------- constraints look at few columns

  ghost predicate SameRows(a: map<Table, Tuples>, b: map<Table, Tuples>, t: Table) {
    t in a && t in b && a[t].Keys == b[t].Keys
  }

  ghost predicate SameColumn(a: map<Table, Tuples>, b: map<Table, Tuples>, t: Table, f: Field) {
    SameRows(a, b, t) && forall i <- a[t] :: f in a[t][i] && f in b[t][i] && a[t][i][f] == b[t][i][f]
  }

  /** a and b agree on m, if m is a table or a column. */
  ghost predicate Agree(a: map<Table, Tuples>, b: map<Table, Tuples>, m: Name) {
    match m
    case TableN(t) => SameRows(a, b, t)
    case ColumnN(t, f) => SameColumn(a, b, t, f)
    case _ => true
  }

  lemma PassesAlike(check: Check, row: Tuple, other: Tuple)
    requires forall f <- CheckedFields(check) :: f in row && f in other && row[f] == other[f]
    ensures Passes(check, row) == Passes(check, other)
  {
    assert CheckedFields(check)[0] in CheckedFields(check);
    if check.ExactlyOne? {
      assert CheckedFields(check)[1] in CheckedFields(check);
    }
  }

  lemma CheckAlike(a: map<Table, Tuples>, b: map<Table, Tuples>, t: Table, c: ConstraintName, check: Check)
    requires Satisfies(a, ConstraintN(t, c), CheckDef(check))
    requires SameRows(a, b, t) && forall f <- CheckedFields(check) :: SameColumn(a, b, t, f)
    ensures Satisfies(b, ConstraintN(t, c), CheckDef(check))
  {
    forall i <- b[t] ensures Passes(check, b[t][i]) {
      PassesAlike(check, a[t][i], b[t][i]);
    }
  }

  lemma KeyAlike(a: map<Table, Tuples>, b: map<Table, Tuples>, t: Table, c: ConstraintName, fields: seq<Field>)
    requires Satisfies(a, ConstraintN(t, c), KeyDef(fields))
    requires SameRows(a, b, t) && forall f <- fields :: SameColumn(a, b, t, f)
    ensures Satisfies(b, ConstraintN(t, c), KeyDef(fields))
  {
    forall i, j | i in b[t] && j in b[t] && i != j
      ensures exists f ::
        f in fields && !(f in b[t][i] && f in b[t][j] && b[t][i][f] != Null && b[t][i][f] == b[t][j][f])
    {
      var f :| f in fields && !(f in a[t][i] && f in a[t][j] && a[t][i][f] != Null && a[t][i][f] == a[t][j][f]);
      assert SameColumn(a, b, t, f);
    }
  }

  /** Whether an object is satisfied depends only on itself and what it needs. */
  lemma SatisfiedAlike(a: map<Table, Tuples>, b: map<Table, Tuples>, n: Name, d: Def)
    requires Satisfies(a, n, d) && Agree(a, b, n) && forall m <- Needs(n, d) :: Agree(a, b, m)
    ensures Satisfies(b, n, d)
  {
    match (n, d)
    case (ConstraintN(t, c), CheckDef(check)) =>
      assert Agree(a, b, TableN(t));
      forall f <- CheckedFields(check) ensures SameColumn(a, b, t, f) {
        assert Agree(a, b, ColumnN(t, f));
      }
      CheckAlike(a, b, t, c, check);
    case (ConstraintN(t, c), KeyDef(fields)) =>
      assert Agree(a, b, TableN(t));
      forall f <- fields ensures SameColumn(a, b, t, f) {
        assert Agree(a, b, ColumnN(t, f));
      }
      KeyAlike(a, b, t, c, fields);
    case (ConstraintN(t, c), ForeignDef(f, target)) =>
      assert Agree(a, b, ColumnN(t, f)) && Agree(a, b, TableN(target));
    case _ =>
  }

  // ---------------------------------------------------------------- adding objects

  lemma AgreesWith(db: Db, made: Objects, m: Name)
    requires Consistent(db) && Apart(db, made) && m in db.objects && (m.ColumnN? ==> TableN(m.table) in db.objects)
    ensures Agree(db.data, With(db, made).data, m)
  {
    match m
    case TableN(t) => WithAt(db, made, t);
    case ColumnN(t, f) =>
      WithAt(db, made, t);
      forall i <- db.data[t]
        ensures f in db.data[t][i] && f in Widen(db.data[t][i], t, made)
        ensures Widen(db.data[t][i], t, made)[f] == db.data[t][i][f]
      {
        WidenAt(db.data[t][i], t, made, f);
      }
    case _ =>
  }

  /** Columns belong to tables that exist. */
  lemma HasItsTable(db: Db, n: Name)
    requires Consistent(db) && n in db.objects && n.ColumnN?
    ensures TableN(n.table) in db.objects
  {
    assert TableN(n.table) in Needs(n, db.objects[n]);
  }

  lemma OldStaySatisfied(db: Db, made: Objects, n: Name)
    requires Intact(db) && Apart(db, made) && n in db.objects
    ensures Satisfies(With(db, made).data, n, db.objects[n])
  {
    forall m | m == n || m in Needs(n, db.objects[n]) ensures Agree(db.data, With(db, made).data, m) {
      if m.ColumnN? {
        HasItsTable(db, m);
      }
      AgreesWith(db, made, m);
    }
    SatisfiedAlike(db.data, With(db, made).data, n, db.objects[n]);
  }

  lemma WithIsConsistent(db: Db, made: Objects)
    requires Consistent(db) && Apart(db, made) && AllNeedsMet(db.objects.Keys + made.Keys, made)
    requires forall n <- made :: WellTyped(n, made[n])
    ensures Consistent(With(db, made))
  {
    var after := With(db, made);
    forall t: Table ensures t in after.data <==> TableN(t) in after.objects {
      WithAt(db, made, t);
    }
    forall t, i, f | t in after.data && i in after.data[t]
      ensures f in after.data[t][i] <==> ColumnN(t, f) in after.objects
    {
      WithAt(db, made, t);
      WidenAt(db.data[t][i], t, made, f);
    }
  }

  // ---------------------------------------------------------------- removing objects

  lemma AgreesWithout(db: Db, gone: set<Name>, m: Name)
    requires Consistent(db) && m in db.objects && m !in gone
    requires m.ColumnN? ==> TableN(m.table) in db.objects && TableN(m.table) !in gone
    ensures Agree(db.data, Without(db, gone).data, m)
  {
  }

  lemma NeededAgrees(db: Db, gone: set<Name>, m: Name)
    requires Consistent(db) && m in db.objects && m !in gone && Needs(m, db.objects[m]) !! gone
    ensures Agree(db.data, Without(db, gone).data, m)
  {
    if m.ColumnN? {
      HasItsTable(db, m);
      assert TableN(m.table) in Needs(m, db.objects[m]);
    }
    AgreesWithout(db, gone, m);
  }

  lemma LeftSatisfied(db: Db, gone: set<Name>, n: Name)
    requires Intact(db) && n in db.objects && n !in gone
    requires forall m | m in db.objects && m !in gone :: Needs(m, db.objects[m]) !! gone
    ensures Satisfies(Without(db, gone).data, n, db.objects[n])
  {
    forall m | m == n || m in Needs(n, db.objects[n]) ensures Agree(db.data, Without(db, gone).data, m) {
      NeededAgrees(db, gone, m);
    }
    SatisfiedAlike(db.data, Without(db, gone).data, n, db.objects[n]);
  }

  lemma WithoutIsConsistent(db: Db, gone: set<Name>)
    requires Consistent(db) && forall m | m in db.objects && m !in gone :: Needs(m, db.objects[m]) !! gone
    ensures Consistent(Without(db, gone))
  {
  }

  // ---------------------------------------------------------------- statements and scripts

  lemma NoneTaken(db: Db, made: Objects)
    requires made.Keys * db.objects.Keys == {}
    ensures Apart(db, made)
  {
    forall n | n in made ensures n !in db.objects {
      assert n in db.objects ==> n in made.Keys * db.objects.Keys;
    }
  }

  lemma ExecKeepsConsistent(db: Db, st: Statement)
    requires Consistent(db) && Typed(st) && Exec(db, st).Ok?
    ensures Consistent(Exec(db, st).value)
  {
    match st
    case Create(objects, _) =>
      if objects.Keys * db.objects.Keys == {} {
        NoneTaken(db, objects);
        WithIsConsistent(db, objects);
      }
    case Drop(name, _) =>
      if name in db.objects {
        WithoutIsConsistent(db, Dropped(db.objects, name));
      }
  }

  lemma AllOldSatisfied(db: Db, made: Objects)
    requires Intact(db) && Apart(db, made)
    ensures forall n <- db.objects :: Satisfies(With(db, made).data, n, db.objects[n])
  {
    forall n <- db.objects ensures Satisfies(With(db, made).data, n, db.objects[n]) {
      OldStaySatisfied(db, made, n);
    }
  }

  lemma AllLeftSatisfied(db: Db, gone: set<Name>)
    requires Intact(db) && forall m | m in db.objects && m !in gone :: Needs(m, db.objects[m]) !! gone
    ensures AllSatisfied(Without(db, gone).data, Without(db, gone).objects)
  {
    forall n <- Without(db, gone).objects ensures Satisfies(Without(db, gone).data, n, Without(db, gone).objects[n]) {
      LeftSatisfied(db, gone, n);
    }
  }

  lemma CreateKeepsIntact(db: Db, st: Statement)
    requires st.Create? && Intact(db) && Typed(st) && Exec(db, st).Ok?
    ensures Intact(Exec(db, st).value)
  {
    ExecKeepsConsistent(db, st);
    if st.objects.Keys * db.objects.Keys == {} {
      NoneTaken(db, st.objects);
      AllOldSatisfied(db, st.objects);
    }
  }

  lemma DropKeepsIntact(db: Db, st: Statement)
    requires st.Drop? && Intact(db) && Exec(db, st).Ok?
    ensures Intact(Exec(db, st).value)
  {
    ExecKeepsConsistent(db, st);
    if st.name in db.objects {
      AllLeftSatisfied(db, Dropped(db.objects, st.name));
    }
  }

  /** A statement that succeeds leaves every constraint satisfied, old and new. */
  lemma ExecKeepsIntact(db: Db, st: Statement)
    requires Intact(db) && Typed(st) && Exec(db, st).Ok?
    ensures Intact(Exec(db, st).value)
  {
    match st
    case Create(_, _) => CreateKeepsIntact(db, st);
    case Drop(_, _) => DropKeepsIntact(db, st);
  }

  /** Every script that succeeds keeps the database intact. */
  lemma {:induction false} ScriptsKeepIntact(db: Db, script: seq<Statement>)
    requires Consistent(db) && Run(db, script).Ok?
    requires forall i :: 0 <= i < |script| ==> Typed(script[i])
    ensures Consistent(Run(db, script).value)
    ensures Intact(db) ==> Intact(Run(db, script).value)
    decreases |script|
  {
    if script != [] {
      ExecKeepsConsistent(db, script[0]);
      if Intact(db) {
        ExecKeepsIntact(db, script[0]);
      }
      ScriptsKeepIntact(Exec(db, script[0]).value, script[1..]);
    }
  }
}
