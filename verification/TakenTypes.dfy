/**
  What a migration does where types that it creates were there before: `up` skips them, and
  `down` drops them, unless something else still uses them.
 */
module TakenTypes {
  import opened Prelude
  import opened Catalog
  import opened Undo
  import opened Integrity

  /** The names of new objects that the database had already. */
  ghost function Taken(p: Plan, db: Db): set<Name> {
    db.objects.Keys * New(p.up).Keys
  }

  /** No object of the database needs a name that was taken. */
  ghost predicate NobodyNeeds(db: Db, taken: set<Name>) {
    forall n <- db.objects :: Needs(n, db.objects[n]) !! taken
  }

  lemma TakenAreTypes(p: Plan, db: Db)
    requires p.Good() && p.Fits(db)
    ensures forall n <- Taken(p, db) :: n.TypeN? && db.objects[n] == TypeDef == New(p.up)[n]
  {
    forall n <- Taken(p, db) ensures n.TypeN? && db.objects[n] == TypeDef == New(p.up)[n] {
      p.NewIsMade(n);
      p.SkippableIsType(n);
    }
  }

  /** Where nobody needs the taken types, `down` acts as on a database that never had them. */
  lemma DownTakesThem(p: Plan, db: Db)
    requires p.Good() && p.Fits(db) && NobodyNeeds(db, Taken(p, db))
    ensures Run(With(db, New(p.up)), p.down) == Ok(Without(db, Taken(p, db)))
  {
    var taken := Taken(p, db);
    var bare := Without(db, taken);
    TakenAreTypes(p, db);
    WithoutIsConsistent(db, taken);
    forall n | p.Makes(n) ensures n !in bare.objects {
      p.NewIsMade(n);
    }
    forall n | n in bare.objects ensures n !in New(p.up) {
      p.NewIsMade(n);
    }
    assert db.objects + New(p.up) == bare.objects + New(p.up);
    p.DownSucceeds(bare, With(db, New(p.up)));
    p.SharesTypes(db);
    WithoutWith(db, New(p.up));
  }

  /** A drop of a new object leaves an old one that is not a type. */
  lemma OldStays(p: Plan, db: Db, now: Db, name: Name, n: Name)
    requires p.Good() && p.Fits(db) && p.Makes(name)
    requires n in db.objects && !n.TypeN? && n in now.objects && now.objects[n] == db.objects[n]
    ensures n !in Dropped(now.objects, name)
  {
    p.NotNew(db, n);
    if GoesWith(n, db.objects[n], name) {
      assert name in db.objects && !name.TypeN?;
      p.NotNew(db, name);
    }
  }

  lemma {:induction false} OldOutlastsDown(p: Plan, db: Db, now: Db, script: seq<Statement>, n: Name)
    requires p.Good() && p.Fits(db) && Run(now, script).Ok?
    requires forall j :: 0 <= j < |script| ==> script[j].Drop? && p.Makes(script[j].name)
    requires n in db.objects && !n.TypeN? && n in now.objects && now.objects[n] == db.objects[n]
    ensures n in Run(now, script).value.objects && Run(now, script).value.objects[n] == db.objects[n]
    decreases |script|
  {
    if script != [] {
      if script[0].name in now.objects {
        OldStays(p, db, now, script[0].name, n);
      }
      OldOutlastsDown(p, db, Exec(now, script[0]).value, script[1..], n);
    }
  }

  lemma UpIsConsistent(p: Plan, db: Db)
    requires p.Good() && p.Fits(db)
    ensures Consistent(With(db, New(p.up)))
  {
    p.UpSucceeds(db);
    forall i: nat | i < |p.up| ensures Typed(p.up[i]) {
      p.IsCreate(i);
      forall n <- p.up[i].objects ensures WellTyped(n, p.up[i].objects[n]) {
        p.MadeHere(i, n);
      }
    }
    ScriptsKeepIntact(db, p.up);
  }

  /** Where something needs a taken type, `down` fails: it would leave a column without its type. */
  lemma DownFails(p: Plan, db: Db, n: Name, taken: Name)
    requires p.Good() && p.Fits(db) && n in db.objects && taken in Taken(p, db) && taken in Needs(n, db.objects[n])
    ensures Run(With(db, New(p.up)), p.down).Err?
  {
    var after := With(db, New(p.up));
    if Run(after, p.down).Ok? {
      forall j: nat | j < |p.down| ensures p.down[j].Drop? && p.Makes(p.down[j].name) && Typed(p.down[j]) {
        p.DropIsNew(j);
      }
      UpIsConsistent(p, db);
      ScriptsKeepIntact(after, p.down);
      p.NotNew(db, n);
      p.NewIsMade(n);
      OldOutlastsDown(p, db, after, p.down, n);
      p.UpSucceeds(db);
      p.NewIsMade(taken);
      p.TakenNameIsLost(db, taken);
      assert false;
    }
  }

  lemma DownSucceedsExactly(p: Plan, db: Db)
    requires p.Good() && p.Fits(db)
    ensures Run(With(db, New(p.up)), p.down).Ok? <==> NobodyNeeds(db, Taken(p, db))
    ensures NobodyNeeds(db, Taken(p, db)) ==> Run(With(db, New(p.up)), p.down) == Ok(Without(db, Taken(p, db)))
  {
    if NobodyNeeds(db, Taken(p, db)) {
      DownTakesThem(p, db);
    } else {
      var n :| n in db.objects && !(Needs(n, db.objects[n]) !! Taken(p, db));
      var taken :| taken in Needs(n, db.objects[n]) && taken in Taken(p, db);
      DownFails(p, db, n, taken);
    }
  }

  lemma UpSucceedsWhereSkipped(p: Plan, db: Db)
    requires p.Good() && Consistent(db) && p.Covers(db)
    ensures Run(db, p.up).Ok? <==> p.Fits(db)
    ensures Run(db, p.up).Ok? <==> forall n <- Taken(p, db) :: p.Skippable(n)
  {
    forall n ensures n in Taken(p, db) <==> p.Makes(n) && n in db.objects {
      p.NewIsMade(n);
    }
    p.UpSucceedsExactly(db);
  }

  /**
    The exact outcome for every database with the base objects: `up` succeeds if and only if
    the taken names are types that it skips.  `down` then succeeds if and only if no object
    of the database needs a taken type, and the taken types are what is lost.
   */
  lemma OutcomeWhereTypesAreTaken(p: Plan, db: Db)
    requires p.Good() && Consistent(db) && p.Covers(db)
    ensures Run(db, p.up).Ok? <==> forall n <- Taken(p, db) :: p.Skippable(n)
    ensures Run(db, p.up).Ok? ==>
      && Run(db, p.up) == Ok(With(db, New(p.up)))
      && With(db, New(p.up)).objects == db.objects + (New(p.up) - Taken(p, db))
      && (Run(With(db, New(p.up)), p.down).Ok? <==> NobodyNeeds(db, Taken(p, db)))
      && (NobodyNeeds(db, Taken(p, db)) ==> Run(With(db, New(p.up)), p.down) == Ok(Without(db, Taken(p, db))))
  {
    UpSucceedsWhereSkipped(p, db);
    if p.Fits(db) {
      p.UpSucceeds(db);
      TakenAreTypes(p, db);
      DownSucceedsExactly(p, db);
    }
  }
}
