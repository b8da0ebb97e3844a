/**
  1738300400000-AddCurrentWorkspaceToUser: a new column on users, its foreign key, and the
  UPDATE that fills it from the earliest membership.  The trigger that InitialSchema puts on
  users writes updated_at in every row that the UPDATE touches.
 */
module Backfill {
  import opened Prelude
  import opened Names
  import opened Catalog
  import opened Undo
  import opened Blueprints

  // ---------------------------------------------------------------- memberships

  /** NOT NULL columns of a membership, read as numbers. */
  predicate IsMembership(row: Tuple) {
    && UserId in row && row[UserId].Num?
    && WorkspaceId in row && row[WorkspaceId].Num?
    && CreatedAt in row && row[CreatedAt].Num?
  }

  predicate AllMemberships(members: Tuples) {
    forall m <- members :: IsMembership(members[m])
  }

  ghost predicate NoneAmong(members: Tuples, user: int, among: set<int>)
    requires AllMemberships(members) && among <= members.Keys
  {
    forall k <- among :: members[k][UserId].n != user
  }

  /** m is a membership of the user, and none of the user's among these is older. */
  ghost predicate EarliestAmong(members: Tuples, user: int, among: set<int>, m: int)
    requires AllMemberships(members) && among <= members.Keys
  {
    && m in among && members[m][UserId].n == user
    && forall k <- among :: members[k][UserId].n == user ==> members[m][CreatedAt].n <= members[k][CreatedAt].n
  }

  /** The workspace of an earliest membership, or NULL when there is none. */
  ghost predicate IsFirstWorkspace(members: Tuples, user: int, v: Value)
    requires AllMemberships(members)
  {
    || (v == Null && NoneAmong(members, user, members.Keys))
    || exists m :: EarliestAmong(members, user, members.Keys, m) && v == members[m][WorkspaceId]
  }

  /** SELECT workspace_id ... ORDER BY created_at ASC LIMIT 1; ties are broken in any way. */
  method FirstWorkspace(members: Tuples, user: int) returns (v: Value)
    requires AllMemberships(members)
    ensures IsFirstWorkspace(members, user, v)
  {
    v := Null;
    var best: Option<int> := None;
    var todo := members.Keys;
    while todo != {}
      invariant todo <= members.Keys
      invariant best.None? ==> v == Null && NoneAmong(members, user, members.Keys - todo)
      invariant best.Some? ==>
        EarliestAmong(members, user, members.Keys - todo, best.value) && v == members[best.value][WorkspaceId]
      decreases todo
    {
      HasElement(todo);
      var m :| m in todo;
      if members[m][UserId].n == user && (best.None? || members[m][CreatedAt].n < members[best.value][CreatedAt].n) {
        best, v := Some(m), members[m][WorkspaceId];
      }
      todo := todo - {m};
    }
    assert members.Keys - todo == members.Keys;
    assert best.Some? ==> EarliestAmong(members, user, members.Keys, best.value);
  }

  // ---------------------------------------------------------------- the update

  predicate Unfilled(row: Tuple) {
    CurrentWorkspaceId in row ==> row[CurrentWorkspaceId] == Null
  }

  /** What the UPDATE makes of one user: rows that have a workspace are not touched. */
  ghost predicate Filled(members: Tuples, user: int, before: Tuple, after: Tuple, now: Value)
    requires AllMemberships(members)
  {
    if Unfilled(before)
    then exists v :: IsFirstWorkspace(members, user, v) && after == before[CurrentWorkspaceId := v][UpdatedAt := now]
    else after == before
  }

  ghost predicate AllFilled(members: Tuples, before: Tuples, after: Tuples, now: Value)
    requires AllMemberships(members)
  {
    before.Keys == after.Keys && forall u <- before :: Filled(members, u, before[u], after[u], now)
  }

  /** UPDATE users SET current_workspace_id = (...) WHERE current_workspace_id IS NULL */
  method FillUsers(members: Tuples, users: Tuples, now: Value) returns (after: Tuples)
    requires AllMemberships(members)
    ensures AllFilled(members, users, after, now)
  {
    after := users;
    var todo := users.Keys;
    while todo != {}
      invariant todo <= users.Keys && after.Keys == users.Keys
      invariant forall u <- todo :: after[u] == users[u]
      invariant forall u <- users.Keys - todo :: Filled(members, u, users[u], after[u], now)
      decreases todo
    {
      HasElement(todo);
      var u :| u in todo;
      if Unfilled(users[u]) {
        var v := FirstWorkspace(members, u);
        after := after[u := users[u][CurrentWorkspaceId := v][UpdatedAt := now]];
      }
      todo := todo - {u};
    }
  }

  // ---------------------------------------------------------------- up and down

  const COLUMN: Name := ColumnN(Users, CurrentWorkspaceId)
  const INDEX: Name := IndexN(Users_current_workspace_id)
  const FOREIGN_KEY: Name := ConstraintN(Users, FK_450ec5d9)

  function Define(n: Name): Option<Def> {
    if n == COLUMN then Some(NULLABLE)
    else if n == INDEX then Some(IndexDef(Users, [CurrentWorkspaceId]))
    else if n == FOREIGN_KEY then Some(ForeignDef(CurrentWorkspaceId, Workspaces))
    else None
  }

  /** The objects of InitialSchema that the migration refers to. */
  predicate Base(n: Name) {
    n == TableN(Users) || n == TableN(Workspaces) || n == ColumnN(Workspaces, Id)
  }

  function Objects(): Definitions {
    Definitions(Define, n => n == COLUMN || n == FOREIGN_KEY, Base)
  }

  /** The statements before the UPDATE; dropColumn has no IF EXISTS. */
  function Migration(): Blueprint {
    Blueprint([COLUMN, INDEX, FOREIGN_KEY], [FOREIGN_KEY, INDEX, COLUMN], Objects(), false, n => n != COLUMN)
  }

  lemma InOrder(i: int, j: int, n: Name)
    ensures Migration().DistinctAt(i, j) && Migration().InOrderAt(i, j, n)
  {}

  lemma Named(i: int, n: Name)
    ensures Objects().HeadsAt(Migration().creates, i) && Objects().ListedAt(Migration().creates, n)
    ensures Migration().GoodName(n) && Objects().FieldThere(n, i)
  {}

  lemma IsGood()
    ensures Migration().Good()
  {
    forall i, j, n ensures Migration().GoodAt(i, j, n) {
      InOrder(i, j, n);
      Named(i, n);
    }
    Migration().GoodFromEach();
  }

  ghost function Additions(): Objects {
    New(Migration().Up())
  }

  // ---------------------------------------------------------------- up

  /** Every membership belongs to a workspace that exists: their own foreign key. */
  ghost predicate InWorkspaces(members: Tuples, workspaces: Tuples)
    requires AllMemberships(members)
  {
    forall m <- members :: members[m][WorkspaceId].n in workspaces
  }

  /** The tables of InitialSchema are there, and the new names are free. */
  ghost predicate Ready(db: Db) {
    && Consistent(db)
    && {TableN(Users), TableN(Workspaces), TableN(WorkspaceMembers)} <= db.objects.Keys
    && {ColumnN(Workspaces, Id), ColumnN(Users, UpdatedAt)} <= db.objects.Keys
    && AllMemberships(db.data[WorkspaceMembers])
    && InWorkspaces(db.data[WorkspaceMembers], db.data[Workspaces])
    && Apart(db, Additions())
  }

  /** The only column among the objects is the new one of users, which is NULL to begin with. */
  ghost predicate OneColumn(made: Objects) {
    && (forall t, f :: ColumnN(t, f) in made <==> t == Users && f == CurrentWorkspaceId)
    && (forall t :: TableN(t) !in made)
    && made[ColumnN(Users, CurrentWorkspaceId)] == NULLABLE
  }

  lemma AdditionAt(m: Blueprint, made: Objects, n: Name)
    requires m.Good() && m.objects.define == Define && made == New(m.Up())
    ensures n in made <==> Define(n).Some?
    ensures Define(n).Some? ==> made[n] == Define(n).value
  {
    m.NewIs(n);
  }

  lemma DefinedHasOneColumn(made: Objects)
    requires forall n: Name :: n in made <==> Define(n).Some?
    requires COLUMN in made && made[COLUMN] == NULLABLE
    ensures OneColumn(made)
  {
  }

  lemma MadeHasOneColumn(m: Blueprint, made: Objects)
    requires m.Good() && m.objects.define == Define && made == New(m.Up())
    ensures OneColumn(made) && COLUMN in made
  {
    forall n: Name ensures n in made <==> Define(n).Some? {
      AdditionAt(m, made, n);
    }
    AdditionAt(m, made, COLUMN);
    DefinedHasOneColumn(made);
  }

  lemma AdditionsHaveOneColumn()
    ensures OneColumn(Additions()) && COLUMN in Additions()
  {
    IsGood();
    MadeHasOneColumn(Migration(), Additions());
  }

  lemma WidensUsers(row: Tuple, made: Objects)
    requires OneColumn(made)
    ensures Widen(row, Users, made) == row[CurrentWorkspaceId := Null]
  {
    forall f: Field
      ensures f in Widen(row, Users, made) <==> f in row[CurrentWorkspaceId := Null]
      ensures f in row[CurrentWorkspaceId := Null] ==> Widen(row, Users, made)[f] == row[CurrentWorkspaceId := Null][f]
    {
      WidenAt(row, Users, made, f);
    }
    SameMap(Widen(row, Users, made), row[CurrentWorkspaceId := Null]);
  }

  lemma OtherWidens(row: Tuple, t: Table, made: Objects)
    requires OneColumn(made) && t != Users
    ensures Widen(row, t, made) == row
  {
    forall f: Field
      ensures f in Widen(row, t, made) <==> f in row
      ensures f in row ==> Widen(row, t, made)[f] == row[f]
    {
      WidenAt(row, t, made, f);
    }
    SameMap(Widen(row, t, made), row);
  }

  lemma OthersWiden(tuples: Tuples, t: Table, made: Objects)
    requires OneColumn(made) && t != Users
    ensures WidenAll(tuples, t, made) == tuples
  {
    forall i <- tuples ensures Widen(tuples[i], t, made) == tuples[i] {
      OtherWidens(tuples[i], t, made);
    }
  }

  lemma DataWidens(db: Db, made: Objects)
    requires OneColumn(made) && Users in db.data
    ensures With(db, made).data == db.data[Users := WidenAll(db.data[Users], Users, made)]
  {
    var expected := db.data[Users := WidenAll(db.data[Users], Users, made)];
    forall t: Table
      ensures t in With(db, made).data <==> t in expected
      ensures t in expected ==> With(db, made).data[t] == expected[t]
    {
      WithAt(db, made, t);
      if t in db.data && t != Users {
        OthersWiden(db.data[t], t, made);
      }
    }
    SameMap(With(db, made).data, expected);
  }

  /** What the whole of `up` does to the rows: every user gets the workspace of an earliest membership. */
  ghost predicate Backfilled(members: Tuples, before: Tuples, after: Tuples, now: Value)
    requires AllMemberships(members)
  {
    before.Keys == after.Keys && forall u <- before :: FilledIn(members, u, before[u], after[u], now)
  }

  ghost predicate FilledIn(members: Tuples, user: int, before: Tuple, after: Tuple, now: Value)
    requires AllMemberships(members)
  {
    exists v :: IsFirstWorkspace(members, user, v) && after == before[CurrentWorkspaceId := v][UpdatedAt := now]
  }

  lemma FilledFromNull(members: Tuples, user: int, row: Tuple, after: Tuple, now: Value)
    requires AllMemberships(members) && Filled(members, user, row[CurrentWorkspaceId := Null], after, now)
    ensures FilledIn(members, user, row, after, now)
  {
    var wide := row[CurrentWorkspaceId := Null];
    var v :| IsFirstWorkspace(members, user, v) && after == wide[CurrentWorkspaceId := v][UpdatedAt := now];
    assert wide[CurrentWorkspaceId := v] == row[CurrentWorkspaceId := v];
  }

  lemma UsersWiden(users: Tuples, made: Objects)
    requires OneColumn(made)
    ensures WidenAll(users, Users, made).Keys == users.Keys
    ensures forall u <- users :: WidenAll(users, Users, made)[u] == users[u][CurrentWorkspaceId := Null]
  {
    forall u <- users ensures Widen(users[u], Users, made) == users[u][CurrentWorkspaceId := Null] {
      WidensUsers(users[u], made);
    }
  }

  lemma AllFilledFromNull(members: Tuples, before: Tuples, wide: Tuples, after: Tuples, now: Value)
    requires AllMemberships(members) && AllFilled(members, wide, after, now)
    requires wide.Keys == before.Keys && forall u <- before :: wide[u] == before[u][CurrentWorkspaceId := Null]
    ensures Backfilled(members, before, after, now)
  {
    forall u <- before ensures FilledIn(members, u, before[u], after[u], now) {
      FilledFromNull(members, u, before[u], after[u], now);
    }
  }

  /** What `up` leaves behind. */
  ghost predicate IsAfterUp(db: Db, after: Db, now: Value)
    requires Ready(db)
  {
    && after.objects == db.objects + Additions()
    && Users in after.data && after.data == db.data[Users := after.data[Users]]
    && Backfilled(db.data[WorkspaceMembers], db.data[Users], after.data[Users], now)
  }

  lemma DdlRuns(db: Db)
    requires Ready(db)
    ensures Run(db, Migration().Up()) == Ok(With(db, Additions()))
  {
    IsGood();
    Migration().ApartFits(db);
    Migration().ThePlan().UpSucceeds(db);
  }

  lemma DdlData(db: Db)
    requires Ready(db)
    ensures With(db, Additions()).data == db.data[Users := WidenAll(db.data[Users], Users, Additions())]
  {
    AdditionsHaveOneColumn();
    DataWidens(db, Additions());
  }

  lemma FilledIsAfterUp(db: Db, mid: Db, users: Tuples, now: Value)
    requires Ready(db) && mid == With(db, Additions()) && HasMembers(mid)
    requires AllFilled(mid.data[WorkspaceMembers], mid.data[Users], users, now)
    ensures IsAfterUp(db, Db(mid.objects, mid.data[Users := users]), now)
  {
    DdlData(db);
    AdditionsHaveOneColumn();
    DataFilled(db.data[WorkspaceMembers], db.data, mid.data, users, Additions(), now);
  }

  lemma DataFilled(members: Tuples, before: map<Table, Tuples>, mid: map<Table, Tuples>, users: Tuples, made: Objects,
                   now: Value)
    requires AllMemberships(members) && OneColumn(made) && Users in before
    requires mid == before[Users := WidenAll(before[Users], Users, made)]
    requires AllFilled(members, mid[Users], users, now)
    ensures mid[Users := users] == before[Users := users]
    ensures Backfilled(members, before[Users], users, now)
  {
    UsersWiden(before[Users], made);
    AllFilledFromNull(members, before[Users], mid[Users], users, now);
  }

  ghost predicate HasMembers(db: Db) {
    Users in db.data && WorkspaceMembers in db.data && AllMemberships(db.data[WorkspaceMembers])
  }

  lemma MembersStay(db: Db)
    requires Ready(db)
    ensures HasMembers(With(db, Additions()))
  {
    DdlData(db);
  }

  method RunDdl(database: Database)
    requires Ready(database.db)
    modifies database
    ensures database.db == With(old(database.db), Additions()) && HasMembers(database.db)
  {
    DdlRuns(database.db);
    MembersStay(database.db);
    var ok := database.Migrate(Migration().Up());
  }

  method RunUpdate(database: Database, now: Value)
    requires HasMembers(database.db)
    modifies database
    ensures database.db.objects == old(database.db).objects && Users in database.db.data
    ensures database.db.data == old(database.db).data[Users := database.db.data[Users]]
    ensures AllFilled(old(database.db).data[WorkspaceMembers], old(database.db).data[Users],
                      database.db.data[Users], now)
  {
    var db := database.db;
    var users := FillUsers(db.data[WorkspaceMembers], db.data[Users], now);
    database.db := Db(db.objects, db.data[Users := users]);
  }

  /** `up` cannot fail here, and fills in the workspace of every user. */
  method Up(database: Database, now: Value)
    requires Ready(database.db)
    modifies database
    ensures IsAfterUp(old(database.db), database.db, now)
  {
    RunDdl(database);
    RunUpdate(database, now);
    FilledIsAfterUp(old(database.db), With(old(database.db), Additions()), database.db.data[Users], now);
  }

  lemma FirstWorkspaceExists(members: Tuples, workspaces: Tuples, user: int, v: Value)
    requires AllMemberships(members) && InWorkspaces(members, workspaces) && IsFirstWorkspace(members, user, v)
    ensures v == Null || (v.Num? && v.n in workspaces)
  {
    if v != Null {
      var m :| EarliestAmong(members, user, members.Keys, m) && v == members[m][WorkspaceId];
      assert IsMembership(members[m]);
    }
  }

  lemma FilledHasWorkspace(members: Tuples, workspaces: Tuples, user: int, before: Tuple, after: Tuple, now: Value)
    requires AllMemberships(members) && InWorkspaces(members, workspaces) && FilledIn(members, user, before, after, now)
    ensures CurrentWorkspaceId in after
    ensures var v := after[CurrentWorkspaceId]; v == Null || (v.Num? && v.n in workspaces)
  {
    var v :| IsFirstWorkspace(members, user, v) && after == before[CurrentWorkspaceId := v][UpdatedAt := now];
    FirstWorkspaceExists(members, workspaces, user, v);
  }

  /** The foreign key, created before the rows are filled, holds after it. */
  lemma ForeignKeyHolds(db: Db, after: Db, now: Value)
    requires Ready(db) && IsAfterUp(db, after, now)
    ensures Satisfies(after.data, ConstraintN(Users, FK_450ec5d9), ForeignDef(CurrentWorkspaceId, Workspaces))
  {
    var members, users := db.data[WorkspaceMembers], db.data[Users];
    forall u <- after.data[Users]
      ensures CurrentWorkspaceId in after.data[Users][u]
      ensures var v := after.data[Users][u][CurrentWorkspaceId]; v == Null || (v.Num? && v.n in after.data[Workspaces])
    {
      FilledHasWorkspace(members, db.data[Workspaces], u, users[u], after.data[Users][u], now);
    }
  }

  // ---------------------------------------------------------------- down

  function Stamped(users: Tuples, now: Value): Tuples {
    map u | u in users :: users[u][UpdatedAt := now]
  }

  lemma FilledThenNarrow(row: Tuple, v: Value, now: Value, made: Objects)
    requires OneColumn(made) && CurrentWorkspaceId !in row
    ensures Narrow(row[CurrentWorkspaceId := v][UpdatedAt := now], Users, made.Keys) == row[UpdatedAt := now]
  {
    SameMap(Narrow(row[CurrentWorkspaceId := v][UpdatedAt := now], Users, made.Keys), row[UpdatedAt := now]);
  }

  lemma OneFilledThenNarrow(members: Tuples, user: int, before: Tuple, after: Tuple, now: Value, made: Objects)
    requires AllMemberships(members) && OneColumn(made) && FilledIn(members, user, before, after, now)
    requires CurrentWorkspaceId !in before
    ensures Narrow(after, Users, made.Keys) == before[UpdatedAt := now]
  {
    var v :| after == before[CurrentWorkspaceId := v][UpdatedAt := now];
    FilledThenNarrow(before, v, now, made);
  }

  lemma BackfilledThenNarrow(members: Tuples, before: Tuples, after: Tuples, now: Value, made: Objects)
    requires AllMemberships(members) && OneColumn(made) && Backfilled(members, before, after, now)
    requires forall u <- before :: CurrentWorkspaceId !in before[u]
    ensures NarrowAll(after, Users, made.Keys) == Stamped(before, now)
  {
    forall u <- before ensures NarrowAll(after, Users, made.Keys)[u] == Stamped(before, now)[u] {
      OneFilledThenNarrow(members, u, before[u], after[u], now, made);
    }
    SameMap(NarrowAll(after, Users, made.Keys), Stamped(before, now));
  }

  lemma OthersNarrow(tuples: Tuples, t: Table, made: Objects)
    requires OneColumn(made) && t != Users
    ensures NarrowAll(tuples, t, made.Keys) == tuples
  {
    forall i <- tuples ensures NarrowAll(tuples, t, made.Keys)[i] == tuples[i] {
      SameMap(Narrow(tuples[i], t, made.Keys), tuples[i]);
    }
    SameMap(NarrowAll(tuples, t, made.Keys), tuples);
  }

  lemma WithoutAt(db: Db, gone: set<Name>, t: Table)
    ensures t in Without(db, gone).data <==> t in db.data && TableN(t) !in gone
    ensures t in Without(db, gone).data ==> Without(db, gone).data[t] == NarrowAll(db.data[t], t, gone)
  {
  }

  lemma DataNarrows(db: Db, made: Objects)
    requires OneColumn(made) && Users in db.data
    ensures Without(db, made.Keys).data == db.data[Users := NarrowAll(db.data[Users], Users, made.Keys)]
  {
    var expected := db.data[Users := NarrowAll(db.data[Users], Users, made.Keys)];
    forall t: Table
      ensures t in Without(db, made.Keys).data <==> t in expected
      ensures t in expected ==> Without(db, made.Keys).data[t] == expected[t]
    {
      WithoutAt(db, made.Keys, t);
      if t in db.data && t != Users {
        OthersNarrow(db.data[t], t, made);
      }
    }
    SameMap(Without(db, made.Keys).data, expected);
  }

  lemma DownOf(m: Blueprint, db: Db, after: Db)
    requires m.Good() && Consistent(db) && m.Covers(db)
    requires Apart(db, New(m.Up())) && after.objects == db.objects + New(m.Up())
    ensures Run(after, m.Down()) == Ok(Without(after, New(m.Up()).Keys))
    ensures Without(after, New(m.Up()).Keys).objects == db.objects
  {
    m.DownAfterUse(db, after);
    TakenAway(db.objects, New(m.Up()));
  }

  lemma BaseIsThere(db: Db)
    requires Ready(db)
    ensures Migration().Covers(db)
  {
  }

  lemma DownRemoves(db: Db, after: Db)
    requires Ready(db) && after.objects == db.objects + Additions()
    ensures Run(after, Migration().Down()) == Ok(Without(after, Additions().Keys))
    ensures Without(after, Additions().Keys).objects == db.objects
  {
    IsGood();
    BaseIsThere(db);
    var m := Migration();
    assert Additions() == New(m.Up());
    DownOf(m, db, after);
  }

  lemma TakenAway(objects: Objects, made: Objects)
    requires objects.Keys !! made.Keys
    ensures objects + made - made.Keys == objects
  {}

  lemma DataStamped(members: Tuples, before: map<Table, Tuples>, after: Db, now: Value, made: Objects)
    requires AllMemberships(members) && OneColumn(made) && Users in before && Users in after.data
    requires after.data == before[Users := after.data[Users]]
    requires Backfilled(members, before[Users], after.data[Users], now)
    requires forall u <- before[Users] :: CurrentWorkspaceId !in before[Users][u]
    ensures Without(after, made.Keys).data == before[Users := Stamped(before[Users], now)]
  {
    DataNarrows(after, made);
    BackfilledThenNarrow(members, before[Users], after.data[Users], now, made);
  }

  lemma NoSuchColumn(db: Db)
    requires Ready(db)
    ensures forall u <- db.data[Users] :: CurrentWorkspaceId !in db.data[Users][u]
  {
    AdditionsHaveOneColumn();
    assert ColumnN(Users, CurrentWorkspaceId) !in db.objects;
  }

  /**
    `down` after `up` gives back the catalog and every row, but not the time in updated_at:
    the UPDATE reached every user, and the trigger on users wrote the time of the migration.
   */
  lemma DownKeepsTheStamp(db: Db, after: Db, now: Value)
    requires Ready(db) && IsAfterUp(db, after, now)
    ensures Run(after, Migration().Down()) == Ok(Db(db.objects, db.data[Users := Stamped(db.data[Users], now)]))
  {
    DownRemoves(db, after);
    AdditionsHaveOneColumn();
    NoSuchColumn(db);
    DataStamped(db.data[WorkspaceMembers], db.data, after, now, Additions());
  }

  lemma StampedSame(users: Tuples, now: Value)
    requires forall u <- users :: UpdatedAt in users[u]
    ensures Stamped(users, now) == users <==> forall u <- users :: users[u][UpdatedAt] == now
  {
    if forall u <- users :: users[u][UpdatedAt] == now {
      forall u <- users ensures Stamped(users, now)[u] == users[u] {
      }
    } else {
      var u :| u in users && users[u][UpdatedAt] != now;
      assert Stamped(users, now)[u][UpdatedAt] == now;
    }
  }

  lemma Restored(data: map<Table, Tuples>, users: Tuples)
    requires Users in data
    ensures data[Users := users] == data <==> users == data[Users]
  {
    if data[Users := users] == data {
      assert data[Users := users][Users] == users;
    }
  }

  /** So the database is restored exactly when every user was last written at the time of the migration. */
  lemma RestoredExactlyWhenStamped(db: Db, after: Db, now: Value)
    requires Ready(db) && IsAfterUp(db, after, now)
    ensures forall u <- db.data[Users] :: UpdatedAt in db.data[Users][u]
    ensures Run(after, Migration().Down()) == Ok(db) <==>
      forall u <- db.data[Users] :: db.data[Users][u][UpdatedAt] == now
  {
    DownKeepsTheStamp(db, after, now);
    assert ColumnN(Users, UpdatedAt) in db.objects;
    StampedSame(db.data[Users], now);
    Restored(db.data, Stamped(db.data[Users], now));
  }
}
