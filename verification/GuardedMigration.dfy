/**
  Migrations that first read which columns exist and add only what is missing:
  1745000000000-AddFeaturedTemplateFields and 1747000000000-AddTemplatePricingColumns.
 */
module GuardedMigration {
  import opened Prelude
  import opened Names
  import opened Catalog
  import opened Undo
  import opened Integrity

  // ---------------------------------------------------------------- guarded scripts

  /**
    One object of the templates table.  It is created when `guard` was not there at the start;
    a CHECK is guarded by its column, an index (IF NOT EXISTS) by itself.
   */
  datatype Item = Item(name: Name, def: Def, guard: Name, unlessExists: bool)

  /** The statements of `up`, given the objects at the start. */
  function Script(start: Objects, items: seq<Item>): seq<Statement>
    decreases |items|
  {
    if items == [] then []
    else
      var item := items[|items| - 1];
      Script(start, items[..|items| - 1])
      + (if item.guard in start && !item.unlessExists
        then [] else [Create(map[item.name := item.def], item.unlessExists)])
  }

  /** The objects that are missing at the start. */
  function Missing(start: Objects, items: seq<Item>): Objects
    decreases |items|
  {
    if items == [] then map[]
    else
      var item := items[|items| - 1];
      Missing(start, items[..|items| - 1]) + (if item.guard in start then map[] else map[item.name := item.def])
  }

  method Up(database: Database, items: seq<Item>) returns (ok: bool)
    modifies database
    ensures ok == Run(old(database.db), Script(old(database.db).objects, items)).Ok?
    ensures database.db ==
      if ok then Run(old(database.db), Script(old(database.db).objects, items)).value else old(database.db)
  {
    var existing := database.db.objects;
    ok := database.Migrate(Script(existing, items));
  }

  // ---------------------------------------------------------------- conditions on the items

  predicate PassesValue(check: Check, f: Field, v: Value) {
    CheckedFields(check) == [f] && Passes(check, map[f := v])
  }

  predicate GoodItem(items: seq<Item>, k: nat)
    requires k < |items|
  {
    var item := items[k];
    match (item.name, item.def)
    case (ColumnN(t, f), ColumnDef(ty, notNull, fill)) =>
      && t == Templates && ty == Builtin && !fill.Generated? && item.guard == item.name && !item.unlessExists
      && (notNull ==> FillValue(map[], fill) != Null)
    case (ConstraintN(t, c), CheckDef(check)) =>
      // directly behind its column, whose default passes the check
      && t == Templates && !item.unlessExists && k > 0 && items[k - 1].name.ColumnN? && item.guard == items[k - 1].name
      && items[k - 1].def.ColumnDef?
      && PassesValue(check, items[k - 1].name.field, FillValue(map[], items[k - 1].def.fill))
    case (IndexN(x), IndexDef(t, fields)) =>
      && t == Templates && item.unlessExists && item.guard == item.name
      && forall f <- fields :: exists j :: 0 <= j < k && items[j].name == ColumnN(Templates, f)
    case _ => false
  }

  ghost predicate GoodItems(items: seq<Item>) {
    && (forall k: nat :: k < |items| ==> GoodItem(items, k))
    && (forall j: nat, k: nat :: j < k < |items| ==> items[j].name != items[k].name)
  }

  /** The templates table is there, and no constraint to be added has a name in use. */
  ghost predicate Fits(db: Db, items: seq<Item>) {
    && Consistent(db) && TableN(Templates) in db.objects
    && forall k :: 0 <= k < |items| && items[k].guard !in db.objects ==> items[k].name !in db.objects
  }

  // ---------------------------------------------------------------- what a script adds

  lemma {:induction false} MissingMembers(start: Objects, items: seq<Item>, n: Name)
    requires forall j: nat, k: nat :: j < k < |items| ==> items[j].name != items[k].name
    ensures n in Missing(start, items) <==>
      exists k :: 0 <= k < |items| && items[k].name == n && items[k].guard !in start
    ensures forall k :: 0 <= k < |items| && items[k].name == n && items[k].guard !in start ==>
      n in Missing(start, items) && Missing(start, items)[n] == items[k].def
    decreases |items|
  {
    if items != [] {
      var last := |items| - 1;
      MissingMembers(start, items[..last], n);
      if k :| 0 <= k < last && items[k].name == n && items[k].guard !in start {
        assert items[..last][k].name == n;
      }
    }
  }

  lemma MissingIsApart(db: Db, items: seq<Item>)
    requires GoodItems(items) && Fits(db, items)
    ensures db.objects.Keys !! Missing(db.objects, items).Keys
    ensures FillsFromOld(Missing(db.objects, items))
    ensures forall t :: TableN(t) !in Missing(db.objects, items)
  {
    forall n | n in Missing(db.objects, items)
      ensures n !in db.objects && !n.TableN?
      ensures n.ColumnN? && Missing(db.objects, items)[n].ColumnDef? ==> !Missing(db.objects, items)[n].fill.Generated?
    {
      MissingMembers(db.objects, items, n);
      var k: nat :| k < |items| && items[k].name == n && items[k].guard !in db.objects;
      assert GoodItem(items, k);
    }
  }

  lemma PassesByField(check: Check, f: Field, v: Value)
    requires PassesValue(check, f, v)
    ensures forall row: Tuple :: f in row && row[f] == v ==> Passes(check, row)
  {
    assert CheckedFields(check)[0] == f;
  }

  lemma ColumnBefore(items: seq<Item>, k: nat, m: Name)
    requires GoodItems(items) && k < |items| && m in Needs(items[k].name, items[k].def) && m != TableN(Templates)
    ensures exists j: nat :: j < k && items[j].name == m
  {
    assert GoodItem(items, k);
    if items[k].def.CheckDef? {
      assert CheckedFields(items[k].def.check)[0] == items[k - 1].name.field;
      assert GoodItem(items, k - 1);
      assert items[k - 1].name == m;
    } else {
      var f :| f in items[k].def.fields && m == ColumnN(Templates, f);
      var j :| 0 <= j < k && items[j].name == ColumnN(Templates, f);
      assert items[j].name == m;
    }
  }

  lemma NeedOfItem(db: Db, items: seq<Item>, k: nat, m: Name)
    requires GoodItems(items) && Fits(db, items) && k < |items|
    requires m in Needs(items[k].name, items[k].def) && m != TableN(Templates)
    ensures m in db.objects || m in Missing(db.objects, items[..k])
  {
    ColumnBefore(items, k, m);
    var j: nat :| j < k && items[j].name == m;
    assert GoodItem(items, j);
    assert items[..k][j] == items[j];
    MissingMembers(db.objects, items[..k], m);
  }

  lemma NeedsOfItem(db: Db, items: seq<Item>, k: nat)
    requires GoodItems(items) && Fits(db, items) && k < |items|
    ensures Needs(items[k].name, items[k].def) <= db.objects.Keys + Missing(db.objects, items[..k]).Keys
  {
    forall m <- Needs(items[k].name, items[k].def) ensures m in db.objects || m in Missing(db.objects, items[..k]) {
      if m != TableN(Templates) {
        NeedOfItem(db, items, k, m);
      }
    }
  }

  lemma GoodPrefix(db: Db, items: seq<Item>, k: nat)
    requires GoodItems(items) && Fits(db, items) && k <= |items|
    ensures GoodItems(items[..k]) && Fits(db, items[..k])
  {
    GoodFront(items, k);
    assert forall j: nat :: j < k ==> items[..k][j] == items[j];
  }

  lemma MissingGrows(start: Objects, items: seq<Item>, k: nat)
    requires k < |items|
    ensures Missing(start, items[..k + 1]) ==
      if items[k].guard in start then Missing(start, items[..k])
      else Missing(start, items[..k]) + map[items[k].name := items[k].def]
  {
    assert items[..k + 1][..k] == items[..k];
    assert Missing(start, items[..k]) + map[] == Missing(start, items[..k]);
  }

  /** An index that is there already is skipped. */
  lemma SkippedStep(db: Db, items: seq<Item>, k: nat)
    requires GoodItems(items) && Fits(db, items) && k < |items| && items[k].guard in db.objects && items[k].unlessExists
    ensures Exec(With(db, Missing(db.objects, items[..k])), Create(map[items[k].name := items[k].def], true))
      == Ok(With(db, Missing(db.objects, items[..k])))
  {
    assert GoodItem(items, k);
    assert items[k].name in map[items[k].name := items[k].def].Keys
      * With(db, Missing(db.objects, items[..k])).objects.Keys;
  }

  /** Anything else that is missing is created. */
  lemma CreatedStep(db: Db, items: seq<Item>, k: nat)
    requires GoodItems(items) && Fits(db, items) && k < |items| && items[k].guard !in db.objects
    ensures Exec(With(db, Missing(db.objects, items[..k])),
      Create(map[items[k].name := items[k].def], items[k].unlessExists))
      == Ok(With(db, Missing(db.objects, items[..k + 1])))
  {
    var n, d := items[k].name, items[k].def;
    var a, b: Objects := Missing(db.objects, items[..k]), map[n := d];
    MissingGrows(db.objects, items, k);
    CreatedFollows(db, items, k);
    WithTwice(db, a, b);
    GoodPrefix(db, items, k + 1);
    FinallySatisfied(db, items[..k + 1], k);
    NeedsOfItem(db, items, k);
    CreateOne(With(db, a), n, d, items[k].unlessExists);
  }

  lemma CreatedFollows(db: Db, items: seq<Item>, k: nat)
    requires GoodItems(items) && Fits(db, items) && k < |items| && items[k].guard !in db.objects
    ensures Follows(db, Missing(db.objects, items[..k]), map[items[k].name := items[k].def])
    ensures items[k].name !in With(db, Missing(db.objects, items[..k])).objects
  {
    MissingGrows(db.objects, items, k);
    GoodPrefix(db, items, k);
    GoodPrefix(db, items, k + 1);
    MissingIsApart(db, items[..k + 1]);
    MissingMembers(db.objects, items[..k], items[k].name);
    assert forall j :: 0 <= j < k ==> items[..k][j] == items[j];
    assert GoodItem(items, k);
  }

  lemma CreateOne(db: Db, n: Name, d: Def, unlessExists: bool)
    requires n !in db.objects && Needs(n, d) <= db.objects.Keys && Satisfies(With(db, map[n := d]).data, n, d)
    ensures Exec(db, Create(map[n := d], unlessExists)) == Ok(With(db, map[n := d]))
  {
  }

  /** The last statement adds the last item, if it is missing. */
  lemma AddsTheLast(db: Db, items: seq<Item>, k: nat)
    requires GoodItems(items) && Fits(db, items) && |items| == k + 1
    requires Run(db, Script(db.objects, items[..k])) == Ok(With(db, Missing(db.objects, items[..k])))
    ensures Run(db, Script(db.objects, items)) == Ok(With(db, Missing(db.objects, items)))
  {
    assert items[..k + 1] == items;
    MissingGrows(db.objects, items, k);
    if items[k].guard !in db.objects {
      CreatedStep(db, items, k);
    } else if items[k].unlessExists {
      SkippedStep(db, items, k);
    }
    ScriptGrows(db, items, k);
  }

  /** The script for one more item is the script so far, or has one statement more. */
  lemma ScriptGrows(db: Db, items: seq<Item>, k: nat)
    requires |items| == k + 1
    ensures Run(db, Script(db.objects, items)) ==
      if items[k].guard in db.objects && !items[k].unlessExists then Run(db, Script(db.objects, items[..k]))
      else
        match Run(db, Script(db.objects, items[..k]))
        case Ok(next) => Exec(next, Create(map[items[k].name := items[k].def], items[k].unlessExists))
        case Err(e) => Err(e)
  {
    if items[k].guard in db.objects && !items[k].unlessExists {
      assert Script(db.objects, items) == Script(db.objects, items[..k]);
    } else {
      RunSnoc(db, Script(db.objects, items[..k]), Create(map[items[k].name := items[k].def], items[k].unlessExists));
    }
  }

  /** `up` succeeds from any subset of the columns and adds exactly what is missing. */
  lemma {:induction false} AddsTheMissing(db: Db, items: seq<Item>)
    requires GoodItems(items) && Fits(db, items)
    ensures Run(db, Script(db.objects, items)) == Ok(With(db, Missing(db.objects, items)))
    decreases |items|
  {
    if items == [] {
      WithNothing(db);
    } else {
      var k := |items| - 1;
      GoodPrefix(db, items, k);
      AddsTheMissing(db, items[..k]);
      AddsTheLast(db, items, k);
    }
  }

  // ---------------------------------------------------------------- convergence

  /**
    Convergence: whatever columns were there, all columns and indexes are there afterwards,
    values that were there are kept, and every CHECK that was added holds in every row.
   */
  lemma Converges(db: Db, items: seq<Item>)
    requires GoodItems(items) && Fits(db, items)
    ensures var after := With(db, Missing(db.objects, items));
      && Run(db, Script(db.objects, items)) == Ok(after)
      && (forall k :: 0 <= k < |items| && !items[k].name.ConstraintN? ==> items[k].name in after.objects)
      && (forall k :: 0 <= k < |items| && items[k].name.ConstraintN? ==>
            (items[k].name in after.objects <==> items[k].name in db.objects || items[k].guard !in db.objects))
      && (forall k :: 0 <= k < |items| && items[k].guard !in db.objects ==>
            Satisfies(after.data, items[k].name, items[k].def))
  {
    AddsTheMissing(db, items);
    MissingIsApart(db, items);
    forall k: nat | k < |items|
      ensures items[k].guard !in db.objects ==> items[k].name in Missing(db.objects, items)
      ensures items[k].name in Missing(db.objects, items) ==> items[k].guard !in db.objects
      ensures !items[k].name.ConstraintN? ==> items[k].guard == items[k].name
      ensures items[k].guard !in db.objects ==>
        Satisfies(With(db, Missing(db.objects, items)).data, items[k].name, items[k].def)
    {
      assert GoodItem(items, k);
      MissingMembers(db.objects, items, items[k].name);
      if items[k].guard !in db.objects {
        FinallySatisfied(db, items, k);
      }
    }
  }

  lemma FinallySatisfied(db: Db, items: seq<Item>, k: nat)
    requires GoodItems(items) && Fits(db, items) && k < |items| && items[k].guard !in db.objects
    ensures Satisfies(With(db, Missing(db.objects, items)).data, items[k].name, items[k].def)
  {
    var made := Missing(db.objects, items);
    var item := items[k];
    assert GoodItem(items, k);
    if !item.name.IndexN? {
      var j := if item.name.ColumnN? then k else k - 1;
      var f := items[j].name.field;
      assert GoodItem(items, j);
      MissingMembers(db.objects, items, ColumnN(Templates, f));
      assert AddsColumn(made, Templates, f) && made[ColumnN(Templates, f)] == items[j].def;
      WithAt(db, made, Templates);
      forall i <- db.data[Templates]
        ensures f in Widen(db.data[Templates][i], Templates, made)
        ensures Widen(db.data[Templates][i], Templates, made)[f] == FillValue(map[], items[j].def.fill)
      {
        WidenAt(db.data[Templates][i], Templates, made, f);
      }
      if item.name.ConstraintN? {
        PassesByField(item.def.check, f, FillValue(map[], items[j].def.fill));
      }
    }
  }

  /** Rows that were there stay, with the values they had. */
  lemma ValuesKept(db: Db, items: seq<Item>, t: Table, i: int, f: Field)
    requires GoodItems(items) && Fits(db, items) && t in db.data && i in db.data[t] && f in db.data[t][i]
    ensures var after := Run(db, Script(db.objects, items));
      after.Ok? && t in after.value.data && after.value.data[t].Keys == db.data[t].Keys
        && f in after.value.data[t][i] && after.value.data[t][i][f] == db.data[t][i][f]
  {
    AddsTheMissing(db, items);
    MissingIsApart(db, items);
    WithGrows(db, Missing(db.objects, items));
    assert ColumnN(t, f) in db.objects;
    assert GrownRow(db.data[t][i], With(db, Missing(db.objects, items)).data[t][i], t, Missing(db.objects, items));
  }

  /** After the statements of `up`, template i is there and holds v in column f. */
  ghost predicate TemplateHolds(db: Db, items: seq<Item>, i: int, f: Field, v: Value) {
    var after := Run(db, Script(db.objects, items));
    && after.Ok? && Templates in after.value.data && i in after.value.data[Templates]
    && f in after.value.data[Templates][i] && after.value.data[Templates][i][f] == v
  }

  /** A column that was missing holds its default in every row, or NULL if it has none. */
  lemma MissingGetDefaults(db: Db, items: seq<Item>, k: nat, i: int, f: Field, v: Value)
    requires GoodItems(items) && Fits(db, items) && k < |items|
    requires items[k].name == items[k].guard == ColumnN(Templates, f)
    requires items[k].def.ColumnDef? && items[k].def.fill == if v == Null then NoDefault else Default(v)
    requires ColumnN(Templates, f) !in db.objects && Templates in db.data && i in db.data[Templates]
    ensures TemplateHolds(db, items, i, f, v)
  {
    AddsTheMissing(db, items);
    var made := Missing(db.objects, items);
    assert GoodItem(items, k);
    MissingMembers(db.objects, items, items[k].name);
    WithGrows(db, made);
    assert GrownRow(db.data[Templates][i], With(db, made).data[Templates][i], Templates, made);
  }

  /** Where nothing is missing, nothing happens. */
  lemma {:induction false} NothingToDo(db: Db, items: seq<Item>)
    requires forall k :: 0 <= k < |items| ==>
      items[k].guard in db.objects && (items[k].unlessExists ==> items[k].guard == items[k].name)
    ensures Run(db, Script(db.objects, items)) == Ok(db)
    decreases |items|
  {
    if items != [] {
      var last := items[|items| - 1];
      var front := items[..|items| - 1];
      NothingToDo(db, front);
      if last.unlessExists {
        assert last.name in map[last.name := last.def].Keys * db.objects.Keys;
        RunSnoc(db, Script(db.objects, front), Create(map[last.name := last.def], true));
      } else {
        assert Script(db.objects, items) == Script(db.objects, front);
      }
    }
  }

  lemma GuardsThere(db: Db, items: seq<Item>, k: nat)
    requires GoodItems(items) && Fits(db, items) && k < |items|
    ensures items[k].guard in With(db, Missing(db.objects, items)).objects
    ensures items[k].unlessExists ==> items[k].guard == items[k].name
  {
    assert GoodItem(items, k);
    var j: nat := if items[k].name.ConstraintN? then k - 1 else k;
    assert GoodItem(items, j);
    MissingMembers(db.objects, items, items[j].name);
  }

  /** `up` twice is `up` once, even when other objects were added in between. */
  lemma Idempotent(db: Db, items: seq<Item>, later: Db)
    requires GoodItems(items) && Fits(db, items)
    requires With(db, Missing(db.objects, items)).objects.Keys <= later.objects.Keys
    ensures Run(db, Script(db.objects, items)) == Ok(With(db, Missing(db.objects, items)))
    ensures Run(later, Script(later.objects, items)) == Ok(later)
  {
    AddsTheMissing(db, items);
    forall k: nat | k < |items|
      ensures items[k].guard in later.objects && (items[k].unlessExists ==> items[k].guard == items[k].name)
    {
      GuardsThere(db, items, k);
    }
    NothingToDo(later, items);
  }

  lemma {:induction false} ScriptTyped(start: Objects, items: seq<Item>, i: nat)
    requires GoodItems(items) && i < |Script(start, items)|
    ensures Typed(Script(start, items)[i])
    decreases |items|
  {
    var k := |items| - 1;
    var front := items[..k];
    GoodFront(items, k);
    if i < |Script(start, front)| {
      ScriptTyped(start, front, i);
    } else {
      assert GoodItem(items, k);
    }
  }

  /** The database after `up` is consistent again, and every constraint of any table that held still holds. */
  lemma StaysIntact(db: Db, items: seq<Item>)
    requires GoodItems(items) && Fits(db, items)
    ensures Consistent(With(db, Missing(db.objects, items)))
    ensures Intact(db) ==> Intact(With(db, Missing(db.objects, items)))
  {
    AddsTheMissing(db, items);
    var script := Script(db.objects, items);
    forall i | 0 <= i < |script| ensures Typed(script[i]) {
      ScriptTyped(db.objects, items, i);
    }
    ScriptsKeepIntact(db, script);
  }

  lemma {:induction false} TakenNameFails(db: Db, items: seq<Item>)
    requires GoodItems(items) && Consistent(db) && TableN(Templates) in db.objects && !Fits(db, items)
    ensures Run(db, Script(db.objects, items)).Err?
    decreases |items|
  {
    var k := |items| - 1;
    var front := items[..k];
    assert forall j: nat :: j < k ==> front[j] == items[j];
    GoodFront(items, k);
    if Fits(db, front) {
      AddsTheMissing(db, front);
      TakenLast(db, items, k);
    } else {
      TakenNameFails(db, front);
    }
    ScriptGrows(db, items, k);
  }

  lemma GoodFront(items: seq<Item>, k: nat)
    requires GoodItems(items) && k <= |items|
    ensures GoodItems(items[..k])
  {
    forall j: nat | j < k ensures GoodItem(items[..k], j) {
      assert GoodItem(items, j) && items[..k][j] == items[j];
    }
  }

  lemma TakenLast(db: Db, items: seq<Item>, k: nat)
    requires GoodItems(items) && |items| == k + 1 && Fits(db, items[..k]) && !Fits(db, items)
    ensures items[k].guard !in db.objects
    ensures Exec(With(db, Missing(db.objects, items[..k])),
      Create(map[items[k].name := items[k].def], items[k].unlessExists)).Err?
  {
    assert GoodItem(items, k);
    assert forall j: nat :: j < k ==> items[..k][j] == items[j];
    assert items[k].name in map[items[k].name := items[k].def].Keys
      * With(db, Missing(db.objects, items[..k])).objects.Keys;
  }

  /** `up` succeeds exactly when no CHECK to be added has its name taken. */
  lemma SucceedsExactlyWhenNamesAreFree(db: Db, items: seq<Item>)
    requires GoodItems(items) && Consistent(db) && TableN(Templates) in db.objects
    ensures Run(db, Script(db.objects, items)).Ok? <==>
      forall k :: 0 <= k < |items| && items[k].guard !in db.objects ==> items[k].name !in db.objects
  {
    if Fits(db, items) {
      AddsTheMissing(db, items);
    } else {
      TakenNameFails(db, items);
    }
  }

  // ---------------------------------------------------------------- the two migrations

  function Column(f: Field, d: Def): Item {
    Item(ColumnN(Templates, f), d, ColumnN(Templates, f), false)
  }

  function Checked(f: Field, c: ConstraintName, check: Check): Item {
    Item(ConstraintN(Templates, c), CheckDef(check), ColumnN(Templates, f), false)
  }

  function Index(x: IndexName, fields: seq<Field>): Item {
    Item(IndexN(x), IndexDef(Templates, fields), IndexN(x), true)
  }

  const FEATURED: seq<Item> := [
    Column(IsFeatured, Preset(Bool(false))),
    Column(FeaturedOrder, NULLABLE),
    Column(LastTestRunAt, NULLABLE),
    Column(TestStatus, Preset(Str("unknown"))),
    Checked(TestStatus, CK_template_test_status, OneOf(TestStatus, {"unknown", "passing", "failing", "pending"})),
    Index(Template_featured, [IsFeatured, FeaturedOrder]),
    Index(Template_test_status, [TestStatus, LastTestRunAt, IsFeatured])
  ]

  const PRICING: seq<Item> := [
    Column(PricingType, Preset(Str("free"))),
    Checked(PricingType, CK_template_pricing_type, OneOf(PricingType, {"free", "paid"})),
    Column(PriceCents, NULLABLE),
    Checked(PriceCents, CK_template_price_cents_range, Between(PriceCents, 500, 49999)),
    Index(Template_pricing_type, [PricingType])
  ]

  lemma FeaturedIsGood()
    ensures GoodItems(FEATURED)
  {
    var items := FEATURED;
    forall k: nat | k < |items| ensures GoodItem(items, k) {
      if k == 5 {
        assert items[0].name == ColumnN(Templates, IsFeatured) && items[1].name == ColumnN(Templates, FeaturedOrder);
      } else if k == 6 {
        assert items[3].name == ColumnN(Templates, TestStatus) && items[2].name == ColumnN(Templates, LastTestRunAt);
        assert items[0].name == ColumnN(Templates, IsFeatured);
      }
    }
  }

  lemma PricingIsGood()
    ensures GoodItems(PRICING)
  {
    var items := PRICING;
    forall k: nat | k < |items| ensures GoodItem(items, k) {
      if k == 4 {
        assert items[0].name == ColumnN(Templates, PricingType);
      }
    }
  }

  predicate OfPricing(n: Name) {
    match n
    case ColumnN(_, f) => f == PricingType || f == PriceCents
    case ConstraintN(_, c) => c == CK_template_pricing_type || c == CK_template_price_cents_range
    case IndexN(x) => x == Template_pricing_type
    case _ => false
  }

  lemma NamesDiffer()
    ensures forall k :: 0 <= k < |FEATURED| ==> !OfPricing(FEATURED[k].name)
    ensures forall k :: 0 <= k < |PRICING| ==> OfPricing(PRICING[k].name) && OfPricing(PRICING[k].guard)
  {}

  lemma PricingStillFits(db: Db)
    requires Fits(db, FEATURED) && Fits(db, PRICING)
    ensures Fits(With(db, Missing(db.objects, FEATURED)), PRICING)
  {
    FeaturedIsGood();
    StaysIntact(db, FEATURED);
    NamesDiffer();
    forall k | 0 <= k < |PRICING| ensures PRICING[k].name !in Missing(db.objects, FEATURED) {
      MissingMembers(db.objects, FEATURED, PRICING[k].name);
    }
  }

  /**
    Both migrations, one after the other, from any subset of their columns; a second round of
    either changes nothing.
   */
  lemma BothConverge(db: Db)
    requires Fits(db, FEATURED) && Fits(db, PRICING)
    ensures var one := With(db, Missing(db.objects, FEATURED));
      var both := With(one, Missing(one.objects, PRICING));
      && Run(db, Script(db.objects, FEATURED)) == Ok(one)
      && Run(one, Script(one.objects, PRICING)) == Ok(both)
      && Run(both, Script(both.objects, FEATURED)) == Ok(both)
      && Run(both, Script(both.objects, PRICING)) == Ok(both)
  {
    FeaturedIsGood();
    PricingIsGood();
    PricingStillFits(db);
    var one := With(db, Missing(db.objects, FEATURED));
    var both := With(one, Missing(one.objects, PRICING));
    Idempotent(db, FEATURED, both);
    Idempotent(one, PRICING, both);
  }

  /** What an existing template has in a column of the two migrations, where the column was missing. */
  function TemplateGets(f: Field): Value {
    match f
    case IsFeatured => Bool(false)
    case TestStatus => Str("unknown")
    case PricingType => Str("free")
    case _ => Null
  }

  lemma FeaturedColumn(items: seq<Item>, k: nat, f: Field)
    requires items == FEATURED && k < 4 && items[k].name == ColumnN(Templates, f)
    ensures |items| > 4 && items[k].guard == ColumnN(Templates, f) && items[k].def.ColumnDef?
    ensures items[k].def.fill == if TemplateGets(f) == Null then NoDefault else Default(TemplateGets(f))
  {}

  lemma FeaturedTemplatesGet(items: seq<Item>, db: Db, k: nat, i: int, f: Field)
    requires items == FEATURED && k < 4 && items[k].name == ColumnN(Templates, f)
    requires Fits(db, items) && Templates in db.data && i in db.data[Templates] && ColumnN(Templates, f) !in db.objects
    ensures TemplateHolds(db, items, i, f, TemplateGets(f))
  {
    FeaturedIsGood();
    FeaturedColumn(items, k, f);
    MissingGetDefaults(db, items, k, i, f, TemplateGets(f));
  }

  lemma PricingColumn(items: seq<Item>, k: nat, f: Field)
    requires items == PRICING && (k == 0 || k == 2) && items[k].name == ColumnN(Templates, f)
    ensures |items| > 2 && items[k].guard == ColumnN(Templates, f) && items[k].def.ColumnDef?
    ensures items[k].def.fill == if TemplateGets(f) == Null then NoDefault else Default(TemplateGets(f))
  {}

  lemma PricedTemplatesGet(items: seq<Item>, db: Db, k: nat, i: int, f: Field)
    requires items == PRICING && (k == 0 || k == 2) && items[k].name == ColumnN(Templates, f)
    requires Fits(db, items) && Templates in db.data && i in db.data[Templates] && ColumnN(Templates, f) !in db.objects
    ensures TemplateHolds(db, items, i, f, TemplateGets(f))
  {
    PricingIsGood();
    PricingColumn(items, k, f);
    MissingGetDefaults(db, items, k, i, f, TemplateGets(f));
  }
}
