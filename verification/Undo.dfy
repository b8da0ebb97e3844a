/**
  When `down` undoes `up`, although its statements are not those of `up` reversed.

  A plan gives, for each new object, the position of the statement of `up` that creates it
  and of the statement of `down` with which it disappears.  Conditions that look at one
  object at a time then decide the matter for every database.
 */
module Undo {
  import opened Prelude
  import opened Names
  import opened Catalog

  // ---------------------------------------------------------------- databases with and without the new objects

  /** No name is new to the database already. */
  ghost predicate Apart(db: Db, objects: Objects) {
    db.objects.Keys !! objects.Keys
  }

  /** Columns computed from others are computed from columns that were there before. */
  ghost predicate FillsFromOld(objects: Objects) {
    forall t, f :: AddsColumn(objects, t, f) && objects[ColumnN(t, f)].fill.Generated? ==>
      ColumnN(t, objects[ColumnN(t, f)].fill.from) !in objects
  }

  lemma FillSame(row: Tuple, t: Table, a: Objects, fill: Fill)
    requires fill.Generated? ==> ColumnN(t, fill.from) !in a
    ensures FillValue(Widen(row, t, a), fill) == FillValue(row, fill)
  {
  }

  lemma WidenAt(row: Tuple, t: Table, a: Objects, f: Field)
    ensures f in Widen(row, t, a) <==> f in row || AddsColumn(a, t, f)
    ensures AddsColumn(a, t, f) ==> Widen(row, t, a)[f] == FillValue(row, a[ColumnN(t, f)].fill)
    ensures f in row && !AddsColumn(a, t, f) ==> Widen(row, t, a)[f] == row[f]
  {
  }

  lemma WidenTwiceAt(row: Tuple, t: Table, a: Objects, b: Objects, f: Field)
    requires a.Keys !! b.Keys && FillsFromOld(a + b)
    ensures f in Widen(Widen(row, t, a), t, b) <==> f in Widen(row, t, a + b)
    ensures f in Widen(row, t, a + b) ==> Widen(Widen(row, t, a), t, b)[f] == Widen(row, t, a + b)[f]
  {
    var n := ColumnN(t, f);
    WidenAt(row, t, a, f);
    WidenAt(Widen(row, t, a), t, b, f);
    WidenAt(row, t, a + b, f);
    assert n in a + b <==> n in a || n in b;
    if AddsColumn(b, t, f) {
      assert AddsColumn(a + b, t, f) && (a + b)[n] == b[n];
      FillSame(row, t, a, b[n].fill);
    } else if AddsColumn(a, t, f) {
      assert AddsColumn(a + b, t, f) && (a + b)[n] == a[n];
    }
  }

  lemma WidenTwice(row: Tuple, t: Table, a: Objects, b: Objects)
    requires a.Keys !! b.Keys && FillsFromOld(a + b)
    ensures Widen(Widen(row, t, a), t, b) == Widen(row, t, a + b)
  {
    var one, two := Widen(Widen(row, t, a), t, b), Widen(row, t, a + b);
    forall f: Field ensures (f in one <==> f in two) && (f in two ==> one[f] == two[f]) {
      WidenTwiceAt(row, t, a, b, f);
    }
    SameMap(one, two);
  }

  lemma WidenAllTwice(tuples: Tuples, t: Table, a: Objects, b: Objects)
    requires a.Keys !! b.Keys && FillsFromOld(a + b)
    ensures WidenAll(WidenAll(tuples, t, a), t, b) == WidenAll(tuples, t, a + b)
  {
    forall i <- tuples ensures Widen(Widen(tuples[i], t, a), t, b) == Widen(tuples[i], t, a + b) {
      WidenTwice(tuples[i], t, a, b);
    }
  }

  /** Tables come before their columns: b adds no column to a table of a, and no table that is there. */
  ghost predicate Follows(db: Db, a: Objects, b: Objects) {
    && a.Keys !! b.Keys && FillsFromOld(a + b)
    && forall t :: TableN(t) in b ==> t !in db.data
  }

  lemma WithAt(db: Db, a: Objects, t: Table)
    ensures t in With(db, a).data <==> t in db.data || TableN(t) in a
    ensures t in db.data ==> With(db, a).data[t] == WidenAll(db.data[t], t, a)
    ensures t !in db.data && TableN(t) in a ==> With(db, a).data[t] == map[]
  {
  }

  /**
    What an old row becomes when `made` is added: it keeps its values, and each new column
    holds its default, or NULL if it has none, or what it is computed from.
   */
  ghost predicate GrownRow(before: Tuple, after: Tuple, t: Table, made: Objects) {
    && (forall f :: f in after <==> f in before || (ColumnN(t, f) in made && made[ColumnN(t, f)].ColumnDef?))
    && (forall f :: f in before && ColumnN(t, f) !in made ==> after[f] == before[f])
    && (forall f :: ColumnN(t, f) in made && made[ColumnN(t, f)].ColumnDef? ==>
          match made[ColumnN(t, f)].fill
          case Default(v) => after[f] == v
          case NoDefault => after[f] == Null
          case Generated(from) => from in before ==> after[f] == Vector(before[from]))
  }

  /** The same for all rows: none comes or goes, and new tables are empty. */
  ghost predicate GrownRows(before: Db, after: Db, made: Objects) {
    && (forall t :: t in after.data <==> t in before.data || TableN(t) in made)
    && (forall t :: t in after.data && t !in before.data ==> after.data[t] == map[])
    && (forall t :: t in before.data ==> after.data[t].Keys == before.data[t].Keys)
    && (forall t, i :: t in before.data && i in before.data[t] ==>
          GrownRow(before.data[t][i], after.data[t][i], t, made))
  }

  lemma WidenGrows(row: Tuple, t: Table, made: Objects)
    ensures GrownRow(row, Widen(row, t, made), t, made)
  {
    forall f
      ensures f in Widen(row, t, made) <==> f in row || (ColumnN(t, f) in made && made[ColumnN(t, f)].ColumnDef?)
      ensures f in row && ColumnN(t, f) !in made ==> Widen(row, t, made)[f] == row[f]
      ensures AddsColumn(made, t, f) ==> Widen(row, t, made)[f] == FillValue(row, made[ColumnN(t, f)].fill)
    {
      WidenAt(row, t, made, f);
    }
  }

  lemma WithGrows(db: Db, made: Objects)
    ensures GrownRows(db, With(db, made), made)
  {
    forall t: Table
      ensures t in With(db, made).data <==> t in db.data || TableN(t) in made
      ensures t in db.data ==> With(db, made).data[t] == WidenAll(db.data[t], t, made)
      ensures t !in db.data && TableN(t) in made ==> With(db, made).data[t] == map[]
    {
      WithAt(db, made, t);
    }
    forall t, i | t in db.data && i in db.data[t] ensures GrownRow(db.data[t][i], With(db, made).data[t][i], t, made) {
      WidenGrows(db.data[t][i], t, made);
    }
  }

  lemma WithTwiceAt(db: Db, a: Objects, b: Objects, t: Table)
    requires Follows(db, a, b)
    ensures t in With(With(db, a), b).data <==> t in With(db, a + b).data
    ensures t in With(db, a + b).data ==> With(With(db, a), b).data[t] == With(db, a + b).data[t]
  {
    WithAt(db, a, t);
    WithAt(With(db, a), b, t);
    WithAt(db, a + b, t);
    assert TableN(t) in a + b <==> TableN(t) in a || TableN(t) in b;
    if t in db.data {
      WidenAllTwice(db.data[t], t, a, b);
    }
  }

  lemma AddedTwice(objects: Objects, a: Objects, b: Objects)
    ensures objects + a + b == objects + (a + b)
  {
  }

  /** Adding objects in two steps is adding them at once. */
  lemma WithTwice(db: Db, a: Objects, b: Objects)
    requires Follows(db, a, b)
    ensures With(With(db, a), b) == With(db, a + b)
  {
    var one, two := With(With(db, a), b), With(db, a + b);
    AddedTwice(db.objects, a, b);
    forall t: Table ensures (t in one.data <==> t in two.data) && (t in two.data ==> one.data[t] == two.data[t]) {
      WithTwiceAt(db, a, b, t);
    }
    SameMap(one.data, two.data);
  }

  lemma WithNothing(db: Db)
    ensures With(db, map[]) == db
  {
    forall t <- db.data, i <- db.data[t] ensures Widen(db.data[t][i], t, map[]) == db.data[t][i] {
    }
    forall t: Table
      ensures (t in With(db, map[]).data <==> t in db.data)
      ensures t in db.data ==> With(db, map[]).data[t] == db.data[t]
    {
      WithAt(db, map[], t);
    }
    SameMap(With(db, map[]).data, db.data);
  }

  lemma NarrowTwice(row: Tuple, t: Table, a: set<Name>, b: set<Name>)
    ensures Narrow(Narrow(row, t, a), t, b) == Narrow(row, t, a + b)
  {
  }

  lemma NarrowAllTwice(tuples: Tuples, t: Table, a: set<Name>, b: set<Name>)
    ensures NarrowAll(NarrowAll(tuples, t, a), t, b) == NarrowAll(tuples, t, a + b)
  {
    forall i <- tuples ensures Narrow(Narrow(tuples[i], t, a), t, b) == Narrow(tuples[i], t, a + b) {
      NarrowTwice(tuples[i], t, a, b);
    }
  }

  /** Removing objects in two steps is removing them at once. */
  lemma WithoutTwice(db: Db, a: set<Name>, b: set<Name>)
    ensures Without(Without(db, a), b) == Without(db, a + b)
  {
    var one, two := Without(Without(db, a), b), Without(db, a + b);
    assert one.objects == two.objects;
    forall t: Table
      ensures t in one.data <==> t in two.data
      ensures t in two.data ==> one.data[t] == two.data[t]
    {
      if t in two.data {
        NarrowAllTwice(db.data[t], t, a, b);
      }
    }
  }

  lemma NarrowWidened(row: Tuple, t: Table, objects: Objects)
    requires forall f :: f in row ==> ColumnN(t, f) !in objects
    ensures Narrow(Widen(row, t, objects), t, objects.Keys) == row
  {
    forall f: Field
      ensures (f in Narrow(Widen(row, t, objects), t, objects.Keys) <==> f in row)
        && (f in row ==> Narrow(Widen(row, t, objects), t, objects.Keys)[f] == row[f])
    {
      WidenAt(row, t, objects, f);
    }
    SameMap(Narrow(Widen(row, t, objects), t, objects.Keys), row);
  }

  /** The names that both have are those of types. */
  ghost predicate ShareTypes(db: Db, objects: Objects) {
    forall n :: n in db.objects && n in objects ==> n.TypeN?
  }

  /** What a row becomes when the names in `gone` disappear: it keeps the values of the other columns. */
  ghost predicate ShrunkRow(before: Tuple, after: Tuple, t: Table, gone: set<Name>) {
    && (forall f :: f in after <==> f in before && ColumnN(t, f) !in gone)
    && (forall f :: f in after ==> after[f] == before[f])
  }

  ghost predicate ShrunkRows(before: Db, after: Db, gone: set<Name>) {
    && (forall t :: t in after.data <==> t in before.data && TableN(t) !in gone)
    && (forall t :: t in after.data ==> after.data[t].Keys == before.data[t].Keys)
    && (forall t, i :: t in after.data && i in after.data[t] ==>
          ShrunkRow(before.data[t][i], after.data[t][i], t, gone))
  }

  lemma WithoutShrinks(db: Db, gone: set<Name>)
    ensures ShrunkRows(db, Without(db, gone), gone)
  {
    forall t, i | t in Without(db, gone).data && i in Without(db, gone).data[t]
      ensures ShrunkRow(db.data[t][i], Without(db, gone).data[t][i], t, gone)
    {
      assert Without(db, gone).data[t][i] == Narrow(db.data[t][i], t, gone);
    }
  }

  lemma NarrowAllWidened(db: Db, t: Table, objects: Objects)
    requires Consistent(db) && ShareTypes(db, objects) && t in db.data
    ensures NarrowAll(WidenAll(db.data[t], t, objects), t, objects.Keys) == db.data[t]
  {
    forall i <- db.data[t] ensures Narrow(Widen(db.data[t][i], t, objects), t, objects.Keys) == db.data[t][i] {
      NarrowWidened(db.data[t][i], t, objects);
    }
  }

  lemma NarrowByTypes(tuples: Tuples, t: Table, gone: set<Name>)
    requires forall n <- gone :: n.TypeN?
    ensures NarrowAll(tuples, t, gone) == tuples
  {
    forall i <- tuples ensures Narrow(tuples[i], t, gone) == tuples[i] {
    }
  }

  lemma TableAfterBoth(db: Db, objects: Objects, shared: set<Name>, t: Table)
    requires Consistent(db) && ShareTypes(db, objects) && shared == db.objects.Keys * objects.Keys
    ensures t in Without(With(db, objects), objects.Keys).data <==> t in db.data
    ensures t in Without(db, shared).data <==> t in db.data
    ensures t in db.data ==>
      Without(With(db, objects), objects.Keys).data[t] == db.data[t] == Without(db, shared).data[t]
  {
    WithAt(db, objects, t);
    if t in db.data {
      NarrowAllWidened(db, t, objects);
      NarrowByTypes(db.data[t], t, shared);
    }
  }

  /** Removing what was added gives back every row, and the catalog but for the types that both had. */
  lemma WithoutWith(db: Db, objects: Objects)
    requires Consistent(db) && ShareTypes(db, objects)
    ensures Without(With(db, objects), objects.Keys) == Without(db, db.objects.Keys * objects.Keys)
    ensures Apart(db, objects) ==> Without(With(db, objects), objects.Keys) == db
  {
    var shared := db.objects.Keys * objects.Keys;
    var one, two := Without(With(db, objects), objects.Keys), Without(db, shared);
    assert one.objects == two.objects;
    forall t: Table
      ensures (t in one.data <==> t in db.data) && (t in two.data <==> t in db.data)
      ensures t in db.data ==> one.data[t] == db.data[t] == two.data[t]
    {
      TableAfterBoth(db, objects, shared, t);
    }
    SameMap(one.data, db.data);
    SameMap(two.data, db.data);
  }

  // ---------------------------------------------------------------- scripts

  lemma {:induction false} RunSnoc(db: Db, script: seq<Statement>, st: Statement)
    ensures Run(db, script + [st]) == match Run(db, script) case Ok(next) => Exec(next, st) case Err(e) => Err(e)
    decreases |script|
  {
    var all := script + [st];
    if script == [] {
      assert all[1..] == [];
    } else {
      assert all[1..] == script[1..] + [st];
      match Exec(db, script[0])
      case Ok(next) => RunSnoc(next, script[1..], st);
      case Err(_) =>
    }
  }

  /** One more statement of a script. */
  lemma RunNext(db: Db, script: seq<Statement>, n: nat)
    requires n < |script|
    ensures Run(db, script[..n + 1]) ==
      match Run(db, script[..n])
      case Ok(next) => Exec(next, script[n])
      case Err(e) => Err(e)
  {
    assert script[..n + 1] == script[..n] + [script[n]];
    RunSnoc(db, script[..n], script[n]);
  }

  /** A script that succeeds has a first part that succeeds. */
  lemma {:induction false} PrefixRuns(db: Db, script: seq<Statement>, n: nat)
    requires n <= |script| && Run(db, script).Ok?
    ensures Run(db, script[..n]).Ok?
    decreases |script| - n
  {
    if n == |script| {
      assert script[..n] == script;
    } else {
      PrefixRuns(db, script, n + 1);
      RunNext(db, script, n);
    }
  }

  /** The objects that the statements create, if none is skipped. */
  ghost function New(up: seq<Statement>): Objects
    decreases |up|
  {
    if up == [] then map[]
    else
      var last := up[|up| - 1];
      New(up[..|up| - 1]) + (if last.Create? then last.objects else map[])
  }

  // ---------------------------------------------------------------- plans

  /** Two scripts, and when each new object comes and goes. */
  datatype Plan = Plan(
    up: seq<Statement>,
    down: seq<Statement>,
    base: Name -> bool,         // the objects that must be there before
    born: Name -> int,          // the position of a new object in up
    dies: Name -> int)          // its position in down
  {
    predicate Makes(n: Name) {
      0 <= born(n) < |up| && up[born(n)].Create? && n in up[born(n)].objects
    }

    function DefOf(n: Name): Def
      requires Makes(n)
    {
      up[born(n)].objects[n]
    }

    /** m comes no later than n, and does not go earlier. */
    predicate Ready(n: Name, m: Name) {
      base(m) || (Makes(m) && born(m) <= born(n) && dies(n) <= dies(m))
    }

    /** No row that is already there can violate the object. */
    predicate Harmless(n: Name)
      requires Makes(n)
    {
      match n
      case ConstraintN(t, _) =>
        Makes(TableN(t)) ||
        (DefOf(n).ForeignDef? && Makes(ColumnN(t, DefOf(n).field)) && DefOf(ColumnN(t, DefOf(n).field)) == NULLABLE)
      case ColumnN(t, _) =>
        Makes(TableN(t)) ||
        (DefOf(n).ColumnDef? && (DefOf(n).notNull ==> DefOf(n).fill.Default? && DefOf(n).fill.value != Null))
      case _ => true
    }

    /** The object goes with the statement at its position. */
    predicate Drops(n: Name)
      requires Makes(n)
    {
      && 0 <= dies(n) < |down| && down[dies(n)].Drop?
      && (down[dies(n)].name == n || GoesWith(n, DefOf(n), down[dies(n)].name))
    }

    predicate GoodObject(n: Name)
      requires Makes(n)
    {
      && WellTyped(n, DefOf(n)) && Harmless(n) && Drops(n)
      && (n.ColumnN? && DefOf(n).fill.Generated? ==> base(ColumnN(n.table, DefOf(n).fill.from)))
      && forall m <- Needs(n, DefOf(n)) :: Ready(n, m)
    }

    /** The statement creates objects whose position it is; only a type on its own may be skipped. */
    predicate CreateAt(i: int) {
      0 <= i < |up| ==>
        && up[i].Create?
        && (forall n <- up[i].objects :: born(n) == i)
        && (up[i].unlessExists ==> forall n <- up[i].objects :: n.TypeN? && up[i].objects == map[n := TypeDef])
    }

    predicate DropAt(j: int) {
      0 <= j < |down| ==> down[j].Drop? && Makes(down[j].name) && dies(down[j].name) == j
    }

    ghost predicate Good() {
      && (forall i :: CreateAt(i))
      && (forall j :: DropAt(j))
      && (forall n :: Makes(n) ==> GoodObject(n))
      && (forall n :: base(n) ==> !n.TypeN?)
    }

    /** Where an object of a statement is made. */
    lemma MadeHere(i: nat, n: Name)
      requires Good() && i < |up| && up[i].Create? && n in up[i].objects
      ensures Makes(n) && born(n) == i && DefOf(n) == up[i].objects[n]
    {
      assert CreateAt(i);
    }

    lemma IsCreate(i: nat)
      requires Good() && i < |up|
      ensures up[i].Create?
    {
      assert CreateAt(i);
    }

    lemma DropIsNew(j: nat)
      requires Good() && j < |down|
      ensures down[j].Drop? && Makes(down[j].name) && dies(down[j].name) == j
    {
      assert DropAt(j);
    }

    // ---- up

    lemma {:induction false} NewMembers(i: nat, n: Name)
      requires Good() && i <= |up|
      ensures n in New(up[..i]) <==> Makes(n) && born(n) < i
      ensures n in New(up[..i]) ==> New(up[..i])[n] == DefOf(n)
      decreases i
    {
      if i > 0 {
        NewMembers(i - 1, n);
        assert up[..i][..i - 1] == up[..i - 1];
        IsCreate(i - 1);
        if n in up[i - 1].objects {
          MadeHere(i - 1, n);
        }
      }
    }

    lemma NewIsMade(n: Name)
      requires Good()
      ensures n in New(up) <==> Makes(n)
      ensures n in New(up) ==> New(up)[n] == DefOf(n)
    {
      assert up[..|up|] == up;
      NewMembers(|up|, n);
    }

    /** The database has the objects that the migration builds upon. */
    ghost predicate Covers(db: Db) {
      forall n :: base(n) ==> n in db.objects
    }

    /** The statement that makes n does nothing when the name is taken. */
    predicate Skippable(n: Name) {
      Makes(n) && up[born(n)].unlessExists
    }

    /** The database has what the migration builds upon; where a new name is taken, its statement is skipped. */
    ghost predicate Fits(db: Db) {
      && Consistent(db) && Covers(db)
      && forall n :: Makes(n) && n in db.objects ==> Skippable(n)
    }

    lemma SkippableIsType(n: Name)
      requires Good() && Skippable(n)
      ensures n.TypeN? && up[born(n)].objects == map[n := TypeDef]
    {
      assert CreateAt(born(n));
    }

    lemma NotNew(db: Db, n: Name)
      requires Good() && Fits(db) && n in db.objects && !n.TypeN?
      ensures !Makes(n)
    {
      if Makes(n) {
        SkippableIsType(n);
      }
    }

    lemma SharesTypes(db: Db)
      requires Good() && Fits(db)
      ensures ShareTypes(db, New(up))
    {
      forall n | n in db.objects && n in New(up) ensures n.TypeN? {
        NewIsMade(n);
        SkippableIsType(n);
      }
    }

    lemma StepFollows(db: Db, i: nat)
      requires Good() && Fits(db) && i < |up| && up[i].Create?
      ensures Follows(db, New(up[..i]), up[i].objects)
      ensures New(up[..i + 1]) == New(up[..i]) + up[i].objects
    {
      var a: Objects, b: Objects := New(up[..i]), up[i].objects;
      var both: Objects := a + b;
      assert up[..i + 1][..i] == up[..i];
      forall n <- b ensures n !in a && Makes(n) {
        MadeHere(i, n);
        NewMembers(i, n);
      }
      forall t, f | AddsColumn(both, t, f) && both[ColumnN(t, f)].fill.Generated?
        ensures ColumnN(t, both[ColumnN(t, f)].fill.from) !in both
      {
        var n := ColumnN(t, f);
        var from := ColumnN(t, both[n].fill.from);
        NewMembers(i + 1, n);
        assert base(from);
        NotNew(db, from);
        NewMembers(i + 1, from);
      }
      forall t | TableN(t) in b ensures t !in db.data {
        EmptyTable(db, t);
      }
    }

    lemma StepNeedsMet(db: Db, i: nat)
      requires Good() && Fits(db) && i < |up| && up[i].Create?
      ensures AllNeedsMet(With(db, New(up[..i])).objects.Keys + up[i].objects.Keys, up[i].objects)
    {
      forall n, m | n in up[i].objects && m in Needs(n, up[i].objects[n])
        ensures m in With(db, New(up[..i])).objects.Keys + up[i].objects.Keys
      {
        MadeHere(i, n);
        assert Ready(n, m);
        NewMembers(i, m);
      }
    }

    /** The value that a new column has in every row that was there before. */
    lemma OldRowsHold(db: Db, made: Objects, i: nat, t: Table, f: Field)
      requires Good() && Fits(db) && i < |up| && made == New(up[..i + 1]) && !Makes(TableN(t)) && AddsColumn(made, t, f)
      ensures t in With(db, made).data ==> forall j <- With(db, made).data[t] ::
        j in db.data[t] && f in With(db, made).data[t][j]
        && With(db, made).data[t][j][f] == FillValue(db.data[t][j], made[ColumnN(t, f)].fill)
    {
      OldTable(db, made, i, t);
      if t in db.data {
        forall j <- db.data[t] ensures f in Widen(db.data[t][j], t, made)
          && Widen(db.data[t][j], t, made)[f] == FillValue(db.data[t][j], made[ColumnN(t, f)].fill)
        {
          WidenAt(db.data[t][j], t, made, f);
        }
      }
    }

    lemma StepSatisfied(db: Db, i: nat, n: Name)
      requires Good() && Fits(db) && i < |up| && up[i].Create? && n in up[i].objects
      ensures Satisfies(With(db, New(up[..i + 1])).data, n, up[i].objects[n])
    {
      if n.ConstraintN? || n.ColumnN? {
        if Makes(TableN(n.table)) {
          NewTableSatisfied(db, i, n);
        } else {
          OldTableSatisfied(db, i, n);
        }
      }
    }

    lemma NewTableSatisfied(db: Db, i: nat, n: Name)
      requires Good() && Fits(db) && i < |up| && up[i].Create? && n in up[i].objects
      requires (n.ConstraintN? || n.ColumnN?) && Makes(TableN(n.table))
      ensures Satisfies(With(db, New(up[..i + 1])).data, n, up[i].objects[n])
    {
      var made := New(up[..i + 1]);
      WithAt(db, made, n.table);
      EmptyTable(db, n.table);
      assert n.table in With(db, made).data ==> With(db, made).data[n.table] == map[];
    }

    lemma OldTableSatisfied(db: Db, i: nat, n: Name)
      requires Good() && Fits(db) && i < |up| && up[i].Create? && n in up[i].objects
      requires (n.ConstraintN? || n.ColumnN?) && !Makes(TableN(n.table))
      ensures Satisfies(With(db, New(up[..i + 1])).data, n, up[i].objects[n])
    {
      MadeHere(i, n);
      if n.ColumnN? {
        NewColumnMade(i, n);
        OldRowsHold(db, New(up[..i + 1]), i, n.table, n.field);
      } else {
        var column := ColumnN(n.table, DefOf(n).field);
        assert column in Needs(n, DefOf(n)) && Ready(n, column);
        if base(column) {
          NotNew(db, column);
        }
        NewColumnMade(i, column);
        OldRowsHold(db, New(up[..i + 1]), i, n.table, DefOf(n).field);
      }
    }

    lemma NewColumnMade(i: nat, column: Name)
      requires Good() && i < |up| && column.ColumnN? && Makes(column) && born(column) <= i
      ensures AddsColumn(New(up[..i + 1]), column.table, column.field)
      ensures New(up[..i + 1])[column] == DefOf(column)
    {
      NewMembers(i + 1, column);
    }

    lemma EmptyTable(db: Db, t: Table)
      requires Good() && Fits(db) && Makes(TableN(t))
      ensures t !in db.data
    {
      if TableN(t) in db.objects {
        NotNew(db, TableN(t));
      }
    }

    lemma OldTable(db: Db, made: Objects, i: nat, t: Table)
      requires Good() && Fits(db) && i < |up| && made == New(up[..i + 1]) && !Makes(TableN(t))
      ensures t in With(db, made).data ==> t in db.data && With(db, made).data[t] == WidenAll(db.data[t], t, made)
    {
      NewMembers(i + 1, TableN(t));
      WithAt(db, made, t);
    }

    /** A statement whose names are free adds its objects. */
    lemma FreeStep(db: Db, i: nat)
      requires Good() && Fits(db) && i < |up| && up[i].Create? && up[i].objects.Keys !! db.objects.Keys
      ensures Exec(With(db, New(up[..i])), up[i]) == Ok(With(db, New(up[..i + 1])))
    {
      var a, b := New(up[..i]), up[i].objects;
      StepFollows(db, i);
      StepNeedsMet(db, i);
      WithTwice(db, a, b);
      forall n <- b ensures Satisfies(With(With(db, a), b).data, n, b[n]) {
        StepSatisfied(db, i, n);
      }
    }

    /** A statement whose name is taken is skipped: the type is there already. */
    lemma SkippedStep(db: Db, i: nat, n: Name)
      requires Good() && Fits(db) && i < |up| && up[i].Create? && n in up[i].objects && n in db.objects
      ensures Exec(With(db, New(up[..i])), up[i]) == Ok(With(db, New(up[..i + 1])))
    {
      var a, b := New(up[..i]), up[i].objects;
      MadeHere(i, n);
      SkippableIsType(n);
      StepFollows(db, i);
      WithTwice(db, a, b);
      NewMembers(i, n);
      assert n in b.Keys * With(db, a).objects.Keys;
      WithSameType(With(db, a), n);
    }

    /** Every statement of `up` succeeds, and its objects are there afterwards. */
    lemma {:induction false} UpAdds(db: Db, i: nat)
      requires Good() && Fits(db) && i <= |up|
      ensures Run(db, up[..i]) == Ok(With(db, New(up[..i])))
      decreases i
    {
      if i == 0 {
        WithNothing(db);
      } else {
        IsCreate(i - 1);
        UpAdds(db, i - 1);
        RunNext(db, up, i - 1);
        if n :| n in up[i - 1].objects && n in db.objects {
          SkippedStep(db, i - 1, n);
        } else {
          FreeStep(db, i - 1);
        }
      }
    }

    // ---- down

    /** The new objects that are gone after j statements of `down`. */
    ghost function Dead(j: int): set<Name> {
      set n | n in New(up) && dies(n) < j
    }

    /** `used` has the objects of db and all the new ones, whatever its rows; no new name was taken. */
    ghost predicate Extends(db: Db, used: Db) {
      Fits(db) && Apart(db, New(up)) && used.objects == db.objects + New(up)
    }

    /** Only new objects depend on new objects. */
    lemma OldNeedsOld(db: Db, used: Db, n: Name, m: Name)
      requires Good() && Extends(db, used) && n in db.objects && m in Needs(n, db.objects[n])
      ensures !Makes(m)
    {
      NewIsMade(m);
    }

    /** The statement at j drops exactly the objects whose position it is. */
    lemma DropsItsObjects(db: Db, used: Db, j: nat, left: Objects)
      requires Good() && Extends(db, used) && j < |down| && left == used.objects - Dead(j)
      requires down[j].Drop?
      ensures down[j].name in left
      ensures forall n :: n in Dropped(left, down[j].name) <==> Makes(n) && dies(n) == j
    {
      var parent := down[j].name;
      DropIsNew(j);
      NewIsMade(parent);
      forall n ensures n in Dropped(left, parent) <==> Makes(n) && dies(n) == j {
        NewIsMade(n);
        if Makes(n) {
          assert n in left <==> dies(n) >= j;
          if GoesWith(n, DefOf(n), parent) {
            InOrder(db, n, parent);
          }
        } else if n in left && GoesWith(n, left[n], parent) {
          OldNeedsOld(db, used, n, parent);
        }
      }
    }

    /** What a new object needs does not go before it goes. */
    lemma InOrder(db: Db, n: Name, m: Name)
      requires Good() && Fits(db) && Makes(n) && m in Needs(n, DefOf(n)) && Makes(m)
      ensures dies(n) <= dies(m) || m in db.objects
    {
      assert Ready(n, m);
    }

    /** Nothing that stays depends on what the statement at j drops. */
    lemma NothingStillNeeds(db: Db, used: Db, j: nat, left: Objects)
      requires Good() && Extends(db, used) && j < |down| && left == used.objects - Dead(j)
      requires down[j].Drop?
      ensures !StillNeeded(left, Dropped(left, down[j].name))
    {
      var gone := Dropped(left, down[j].name);
      DropsItsObjects(db, used, j, left);
      forall n | n in left && n !in gone ensures Needs(n, left[n]) * gone == {} {
        forall m | m in Needs(n, left[n]) ensures m !in gone {
          NewIsMade(n);
          NewIsMade(m);
          if Makes(n) {
            if Makes(m) {
              InOrder(db, n, m);
            }
          } else {
            OldNeedsOld(db, used, n, m);
          }
        }
      }
    }

    lemma {:induction false} DownRemoves(db: Db, used: Db, j: nat)
      requires Good() && Extends(db, used) && j <= |down|
      ensures Run(used, down[..j]) == Ok(Without(used, Dead(j)))
      decreases j
    {
      if j == 0 {
        NobodyDiesEarly();
        WithoutNothing(used);
      } else {
        DownRemoves(db, used, j - 1);
        RunNext(used, down, j - 1);
        DropIsNew(j - 1);
        var left := used.objects - Dead(j - 1);
        var gone := Dropped(left, down[j - 1].name);
        DropsItsObjects(db, used, j - 1, left);
        NothingStillNeeds(db, used, j - 1, left);
        WithoutTwice(used, Dead(j - 1), gone);
        DeadGrows(j, gone);
      }
    }

    lemma DeadGrows(j: int, gone: set<Name>)
      requires Good() && forall n :: n in gone <==> Makes(n) && dies(n) == j - 1
      ensures Dead(j - 1) + gone == Dead(j)
    {
      forall n ensures n in Dead(j - 1) + gone <==> n in Dead(j) {
        NewIsMade(n);
      }
    }

    lemma NobodyDiesEarly()
      requires Good()
      ensures Dead(0) == {} && Dead(|down|) == New(up).Keys
    {
      forall n | n in New(up) ensures 0 <= dies(n) < |down| {
        NewIsMade(n);
      }
    }

    // ---- the theorems

    /** `up` succeeds on every database that it fits, and its objects are there afterwards. */
    lemma UpSucceeds(db: Db)
      requires Good() && Fits(db)
      ensures Run(db, up) == Ok(With(db, New(up)))
    {
      assert up[..|up|] == up;
      UpAdds(db, |up|);
    }

    /** What `up` does to the rows that are there. */
    lemma UpGrowsRows(db: Db)
      requires Good() && Fits(db)
      ensures Run(db, up).Ok? && GrownRows(db, Run(db, up).value, New(up))
    {
      UpSucceeds(db);
      WithGrows(db, New(up));
    }

    /**
      `down` succeeds on every database with the objects that `up` leaves, whatever was
      written to its tables since, and takes away the new objects and nothing else.
     */
    lemma DownSucceeds(db: Db, used: Db)
      requires Good() && Extends(db, used)
      ensures Run(used, down) == Ok(Without(used, New(up).Keys))
    {
      assert down[..|down|] == down;
      DownRemoves(db, used, |down|);
      NobodyDiesEarly();
    }

    /** What `down` does to the rows that are there by then. */
    lemma DownShrinksRows(db: Db, used: Db)
      requires Good() && Extends(db, used)
      ensures Run(used, down).Ok? && ShrunkRows(used, Run(used, down).value, New(up).Keys)
    {
      DownSucceeds(db, used);
      WithoutShrinks(used, New(up).Keys);
    }

    lemma {:induction false} CreatesOnly(db: Db, i: nat)
      requires Good() && i <= |up| && Run(db, up[..i]).Ok?
      ensures db.objects.Keys <= Run(db, up[..i]).value.objects.Keys
      decreases i
    {
      if i > 0 {
        RunNext(db, up, i - 1);
        IsCreate(i - 1);
        CreatesOnly(db, i - 1);
      }
    }

    /** Where `up` succeeds, the statement of a name that was taken was skipped. */
    lemma TakenIsSkipped(db: Db, n: Name)
      requires Good() && Makes(n) && n in db.objects && Run(db, up).Ok?
      ensures Skippable(n)
    {
      var i := born(n);
      PrefixRuns(db, up, i + 1);
      PrefixRuns(db, up, i);
      RunNext(db, up, i);
      CreatesOnly(db, i);
      assert n in up[i].objects.Keys * Run(db, up[..i]).value.objects.Keys;
    }

    /** `up` succeeds if and only if the new names that are taken are of statements that skip. */
    lemma UpSucceedsExactly(db: Db)
      requires Good() && Consistent(db) && Covers(db)
      ensures Run(db, up).Ok? <==> Fits(db)
    {
      if Run(db, up).Ok? {
        forall n | Makes(n) && n in db.objects ensures Skippable(n) {
          TakenIsSkipped(db, n);
        }
      } else if Fits(db) {
        UpSucceeds(db);
      }
    }

    /** A new name that was taken is gone when both scripts have run. */
    lemma TakenNameIsLost(db: Db, n: Name)
      requires Good() && Makes(n) && n in db.objects && Run(db, up).Ok?
      ensures Run(Run(db, up).value, down).Ok? ==> n !in Run(Run(db, up).value, down).value.objects
    {
      TakenIsSkipped(db, n);
      SkippableIsType(n);
      assert down[dies(n)].name == n;
      if Run(Run(db, up).value, down).Ok? {
        forall j | 0 <= j < |down| ensures down[j].Drop? {
          DropIsNew(j);
        }
        DroppedStaysAway(Run(db, up).value, down, n);
      }
    }

    /**
      Data-level undo: `down` after `up` gives back the database, every row included, if and
      only if none of the new names was taken.
     */
    lemma UndoesExactlyWhenApart(db: Db)
      requires Good() && Consistent(db) && Covers(db)
      ensures (Run(db, up).Ok? && Run(Run(db, up).value, down) == Ok(db)) <==> Apart(db, New(up))
    {
      if Apart(db, New(up)) {
        forall n | Makes(n) ensures n !in db.objects {
          NewIsMade(n);
        }
        UpSucceeds(db);
        DownSucceeds(db, With(db, New(up)));
        SharesTypes(db);
        WithoutWith(db, New(up));
      } else {
        var n :| n in db.objects && n in New(up);
        NewIsMade(n);
        if Run(db, up).Ok? {
          TakenNameIsLost(db, n);
        }
      }
    }
  }

  lemma WithSameType(db: Db, n: Name)
    requires n in db.objects && n.TypeN? && db.objects[n] == TypeDef
    ensures With(db, map[n := TypeDef]) == db
  {
    var one: Objects := map[n := TypeDef];
    forall t: Table
      ensures t in With(db, one).data <==> t in db.data
      ensures t in db.data ==> With(db, one).data[t] == db.data[t]
    {
      WithAt(db, one, t);
      if t in db.data {
        forall i <- db.data[t] ensures Widen(db.data[t][i], t, one) == db.data[t][i] {
          WidenByNothing(db.data[t][i], t, one);
        }
      }
    }
    SameMap(With(db, one).data, db.data);
  }

  lemma WidenByNothing(row: Tuple, t: Table, objects: Objects)
    requires forall f :: !AddsColumn(objects, t, f)
    ensures Widen(row, t, objects) == row
  {
    forall f: Field
      ensures f in Widen(row, t, objects) <==> f in row
      ensures f in row ==> Widen(row, t, objects)[f] == row[f]
    {
      WidenAt(row, t, objects, f);
    }
    SameMap(Widen(row, t, objects), row);
  }

  lemma WithoutNothing(db: Db)
    ensures Without(db, {}) == db
  {
    forall t <- db.data ensures NarrowAll(db.data[t], t, {}) == db.data[t] {
      NarrowByTypes(db.data[t], t, {});
    }
    assert Without(db, {}).objects == db.objects;
    assert Without(db, {}).data == db.data;
  }

  lemma {:induction false} DroppedStaysAway(db: Db, script: seq<Statement>, n: Name)
    requires Run(db, script).Ok? && (forall j :: 0 <= j < |script| ==> script[j].Drop?)
    ensures Run(db, script).value.objects.Keys <= db.objects.Keys
    ensures (exists j :: 0 <= j < |script| && script[j].name == n) ==> n !in Run(db, script).value.objects
    decreases |script|
  {
    if script != [] {
      var next := Exec(db, script[0]).value;
      assert next.objects.Keys <= db.objects.Keys && script[0].name !in next.objects;
      DroppedStaysAway(next, script[1..], n);
      if j :| 0 <= j < |script| && script[j].name == n {
        assert j > 0 ==> script[1..][j - 1].name == n;
      }
    }
  }
}
