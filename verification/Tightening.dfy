/**
  The foreign keys that 1769913983449-CreateAgentJobsTable drops and adds again, and what
  the change means for deletes: the same edges, the actions kept or made NO ACTION.
 */
module Tightening {
  import opened Names
  import opened Referential

  // ---------------------------------------------------------------- constraints in the catalog

  datatype Key = Key(table: Table, name: ConstraintName)

  datatype Constraint = Constraint(column: Column, foreign: ForeignKey)

  type Constraints = map<Key, Constraint>

  datatype KeyStatement = DropKey(key: Key) | AddKey(key: Key, constraint: Constraint)

  /** ADD CONSTRAINT checks the rows already there. */
  predicate Holds(rows: Rows, c: Constraint) {
    forall x <- rows :: x.table == c.column.table && c.column.name in rows[x].refs ==>
      RowId(c.foreign.target, rows[x].refs[c.column.name]) in rows
  }

  /** A statement fails on a missing or duplicate name, or when a row violates the new constraint. */
  predicate Succeeds(cat: Constraints, rows: Rows, st: KeyStatement) {
    match st
    case DropKey(key) => key in cat
    case AddKey(key, c) => key !in cat && Holds(rows, c)
  }

  function Effect(cat: Constraints, st: KeyStatement): Constraints {
    match st
    case DropKey(key) => cat - {key}
    case AddKey(key, c) => cat[key := c]
  }

  /** The statements that succeed one after the other. */
  predicate AllSucceed(cat: Constraints, rows: Rows, script: seq<KeyStatement>)
    decreases |script|
  {
    script == [] || (Succeeds(cat, rows, script[0]) && AllSucceed(Effect(cat, script[0]), rows, script[1..]))
  }

  function Effects(cat: Constraints, script: seq<KeyStatement>): Constraints
    decreases |script|
  {
    if script == [] then cat else Effects(Effect(cat, script[0]), script[1..])
  }

  class KeyCatalog {
    var constraints: Constraints

    /** Runs a migration in one transaction: every statement, or none of them. */
    method Execute(script: seq<KeyStatement>, rows: Rows) returns (ok: bool)
      modifies this
      ensures ok == AllSucceed(old(constraints), rows, script)
      ensures constraints == if ok then Effects(old(constraints), script) else old(constraints)
    {
      var before := constraints;
      var i := 0;
      while i < |script|
        invariant 0 <= i <= |script|
        invariant AllSucceed(before, rows, script) == AllSucceed(constraints, rows, script[i..])
        invariant Effects(before, script) == Effects(constraints, script[i..])
      {
        assert script[i..][0] == script[i] && script[i..][1..] == script[i + 1..];
        if !Succeeds(constraints, rows, script[i]) {
          constraints := before;
          return false;
        }
        constraints := Effect(constraints, script[i]);
        i := i + 1;
      }
      return true;
    }
  }

  /** A script that succeeds leaves every constraint of the catalog holding in every row. */
  lemma {:induction false} ScriptKeepsHolding(cat: Constraints, rows: Rows, script: seq<KeyStatement>, k: Key)
    requires AllSucceed(cat, rows, script) && forall l <- cat :: Holds(rows, cat[l])
    ensures k in Effects(cat, script) ==> Holds(rows, Effects(cat, script)[k])
    decreases |script|
  {
    if script != [] {
      ScriptKeepsHolding(Effect(cat, script[0]), rows, script[1..], k);
    }
  }

  /** It leaves a constraint that it does not drop as it was: no name is taken over. */
  lemma {:induction false} ScriptKeepsNames(cat: Constraints, rows: Rows, script: seq<KeyStatement>, k: Key)
    requires AllSucceed(cat, rows, script) && k in cat && DropKey(k) !in script
    ensures k in Effects(cat, script) && Effects(cat, script)[k] == cat[k]
    decreases |script|
  {
    if script != [] {
      ScriptKeepsNames(Effect(cat, script[0]), rows, script[1..], k);
    }
  }

  /** It drops only what was there, or what it added itself. */
  lemma {:induction false} ScriptDropsWhatIsThere(cat: Constraints, rows: Rows, script: seq<KeyStatement>, i: nat,
                                                  k: Key)
    requires AllSucceed(cat, rows, script) && i < |script| && script[i] == DropKey(k)
    ensures k in cat || exists j :: 0 <= j < i && script[j].AddKey? && script[j].key == k
    decreases |script|
  {
    if i > 0 {
      var rest := script[1..];
      ScriptDropsWhatIsThere(Effect(cat, script[0]), rows, rest, i - 1, k);
      if j :| 0 <= j < i - 1 && rest[j].AddKey? && rest[j].key == k {
        assert script[j + 1] == rest[j];
      }
    }
  }

  /** s lists exactly the foreign keys of the catalog, and no column has two. */
  ghost predicate Describes(s: Schema, cat: Constraints) {
    && (forall k, l :: k in cat && l in cat && cat[k].column == cat[l].column ==> k == l)
    && (forall k <- cat :: cat[k].column in s.keys && s.keys[cat[k].column] == cat[k].foreign)
    && (forall c <- s.keys :: exists k :: k in cat && cat[k].column == c)
  }

  // ---------------------------------------------------------------- the two schemas

  /** after has the edges of before, each with its old action or with NO ACTION. */
  ghost predicate Tightens(after: Schema, before: Schema) {
    && after.keys.Keys == before.keys.Keys && after.stamped == before.stamped
    && forall c <- before.keys ::
         && after.keys[c].target == before.keys[c].target
         && after.keys[c].notNull == before.keys[c].notNull
         && (after.keys[c].onDelete == before.keys[c].onDelete || after.keys[c].onDelete == NoAction)
  }

  lemma TighterCascade(after: Schema, before: Schema, rows: Rows, root: RowId)
    requires Tightens(after, before) && root in rows
    ensures Closure(after, rows, root) <= Closure(before, rows, root)
  {
    ClosureIsLeast(before, rows, root);
    ClosureIsLeast(after, rows, root);
    forall x, y | y in Closure(before, rows, root) && CascadesTo(after, rows, y, x)
      ensures x in Closure(before, rows, root)
    {
      var f :| Refers(after, rows, x, f, y) && ActionOf(after, x, f) == Cascade;
      assert Column(x.table, f) in before.keys;
      assert Refers(before, rows, x, f, y) && ActionOf(before, x, f) == Cascade;
      assert CascadesTo(before, rows, y, x);
    }
  }

  /** A row that the delete leaves behind references, through a column now NO ACTION, a deleted row. */
  ghost predicate Pinned(after: Schema, before: Schema, rows: Rows, root: RowId) {
    exists x, f, y :: x !in Closure(after, rows, root) && y in Closure(after, rows, root)
      && Refers(before, rows, x, f, y)
      && ActionOf(before, x, f) != NoAction && Column(x.table, f) in after.keys && ActionOf(after, x, f) == NoAction
  }

  /** Under the tighter schema a delete that no remaining row holds up removes exactly what it used to remove. */
  lemma SameRowsGo(after: Schema, before: Schema, rows: Rows, root: RowId)
    requires Tightens(after, before) && root in rows
    requires !Blocked(after, rows, Closure(after, rows, root)) || !Pinned(after, before, rows, root)
    ensures Closure(after, rows, root) == Closure(before, rows, root)
  {
    var gone := Closure(after, rows, root);
    ClosureIsLeast(before, rows, root);
    ClosureIsLeast(after, rows, root);
    forall x, y | y in gone && CascadesTo(before, rows, y, x) ensures x in gone {
      var f :| Refers(before, rows, x, f, y) && ActionOf(before, x, f) == Cascade;
      assert Column(x.table, f) in before.keys;
      assert Refers(after, rows, x, f, y);
      if ActionOf(after, x, f) == Cascade {
        assert CascadesTo(after, rows, y, x);
      }
    }
    TighterCascade(after, before, rows, root);
  }

  /** The references that SET NULL clears are the same when nothing is blocked. */
  lemma SameCleared(after: Schema, before: Schema, rows: Rows, x: RowId, gone: set<RowId>)
    requires Tightens(after, before) && x in rows && x !in gone && !Blocked(after, rows, gone)
    ensures Cleared(after, rows, x, gone) == Cleared(before, rows, x, gone)
  {
    forall f | f in Cleared(before, rows, x, gone) ensures f in Cleared(after, rows, x, gone) {
      assert Column(x.table, f) in before.keys;
      assert Refers(after, rows, x, f, RowId(after.keys[Column(x.table, f)].target, rows[x].refs[f]));
    }
    forall f | f in Cleared(after, rows, x, gone) ensures f in Cleared(before, rows, x, gone) {
      assert Column(x.table, f) in before.keys;
    }
  }

  lemma AcceptedMeansSameStore(after: Schema, before: Schema, rows: Rows, root: RowId, now: int)
    requires Tightens(after, before) && root in rows && DeleteOutcome(after, rows, root, now).Accepted?
    ensures DeleteOutcome(before, rows, root, now) == DeleteOutcome(after, rows, root, now)
    ensures !Pinned(after, before, rows, root)
  {
    var gone := Closure(after, rows, root);
    SameRowsGo(after, before, rows, root);
    forall x | x in rows && x !in gone ensures Cleared(after, rows, x, gone) == Cleared(before, rows, x, gone) {
      SameCleared(after, before, rows, x, gone);
    }
    assert Aftermath(after, rows, gone, now) == Aftermath(before, rows, gone, now);
    forall x, f, y | y in gone && Refers(before, rows, x, f, y) && Column(x.table, f) in after.keys
        && ActionOf(after, x, f) == NoAction
      ensures x in gone
    {
      assert Column(x.table, f) in before.keys;
      assert Refers(after, rows, x, f, y);
    }
    forall x, f, y | y in gone && Refers(before, rows, x, f, y) && ActionOf(before, x, f) == NoAction
      ensures x in gone
    {
      assert Column(x.table, f) in before.keys;
      assert Refers(after, rows, x, f, y);
    }
  }

  lemma UnpinnedMeansAccepted(after: Schema, before: Schema, rows: Rows, root: RowId, now: int)
    requires Tightens(after, before) && root in rows && !Pinned(after, before, rows, root)
    requires DeleteOutcome(before, rows, root, now).Accepted?
    ensures DeleteOutcome(after, rows, root, now).Accepted?
  {
    var gone := Closure(after, rows, root);
    SameRowsGo(after, before, rows, root);
    forall x, f, y | y in gone && Refers(after, rows, x, f, y) && ActionOf(after, x, f) == NoAction
      ensures x in gone
    {
      assert Column(x.table, f) in before.keys;
      assert Refers(before, rows, x, f, y);
    }
  }

  /**
    Tightening is conservative: a delete accepted afterwards ends in exactly the store that
    the old actions gave; it is accepted if and only if it was accepted before and no
    tightened column of a remaining row points into what the delete removes.
   */
  lemma TighteningIsConservative(after: Schema, before: Schema, rows: Rows, root: RowId, now: int)
    requires Tightens(after, before) && root in rows
    ensures DeleteOutcome(after, rows, root, now).Accepted? ==>
      DeleteOutcome(after, rows, root, now) == DeleteOutcome(before, rows, root, now)
    ensures DeleteOutcome(after, rows, root, now).Accepted? <==>
      DeleteOutcome(before, rows, root, now).Accepted? && !Pinned(after, before, rows, root)
  {
    if DeleteOutcome(after, rows, root, now).Accepted? {
      AcceptedMeansSameStore(after, before, rows, root, now);
    } else if DeleteOutcome(before, rows, root, now).Accepted? && !Pinned(after, before, rows, root) {
      UnpinnedMeansAccepted(after, before, rows, root, now);
    }
  }

  // ---------------------------------------------------------------- dropping and adding again

  function Drops(keys: seq<Key>): seq<KeyStatement> {
    seq(|keys|, i requires 0 <= i < |keys| => DropKey(keys[i]))
  }

  function Adds(items: seq<(Key, Constraint)>): seq<KeyStatement> {
    seq(|items|, i requires 0 <= i < |items| => AddKey(items[i].0, items[i].1))
  }

  predicate SameEdge(before: Constraint, after: Constraint) {
    && after.column == before.column
    && after.foreign.target == before.foreign.target
    && after.foreign.notNull == before.foreign.notNull
    && (after.foreign.onDelete == before.foreign.onDelete || after.foreign.onDelete == NoAction)
  }

  lemma {:induction false} RunDrops(cat: Constraints, rows: Rows, keys: seq<Key>, rest: seq<KeyStatement>)
    requires forall i :: 0 <= i < |keys| ==> keys[i] in cat
    requires forall i, j :: 0 <= i < j < |keys| ==> keys[i] != keys[j]
    ensures AllSucceed(cat, rows, Drops(keys) + rest) == AllSucceed(cat - (set k <- keys), rows, rest)
    ensures Effects(cat, Drops(keys) + rest) == Effects(cat - (set k <- keys), rest)
    decreases |keys|
  {
    if keys == [] {
      assert Drops(keys) + rest == rest && cat - (set k <- keys) == cat;
    } else {
      var script := Drops(keys) + rest;
      assert script[0] == DropKey(keys[0]);
      assert script[1..] == Drops(keys[1..]) + rest;
      RunDrops(cat - {keys[0]}, rows, keys[1..], rest);
      assert cat - {keys[0]} - (set k <- keys[1..]) == cat - (set k <- keys) by {
        assert forall k :: k in keys <==> k == keys[0] || k in keys[1..];
      }
    }
  }

  lemma {:induction false} RunAdds(cat: Constraints, rows: Rows, items: seq<(Key, Constraint)>)
    requires forall i :: 0 <= i < |items| ==> items[i].0 !in cat && Holds(rows, items[i].1)
    requires forall i, j :: 0 <= i < j < |items| ==> items[i].0 != items[j].0
    ensures AllSucceed(cat, rows, Adds(items))
    ensures forall k :: k in Effects(cat, Adds(items)) <==> k in cat || exists i :: 0 <= i < |items| && items[i].0 == k
    ensures forall k :: k in cat ==> Effects(cat, Adds(items))[k] == cat[k]
    ensures forall i :: 0 <= i < |items| ==> Effects(cat, Adds(items))[items[i].0] == items[i].1
    decreases |items|
  {
    if items != [] {
      var rest := items[1..];
      assert Adds(items)[0] == AddKey(items[0].0, items[0].1);
      assert Adds(items)[1..] == Adds(rest);
      var cat' := cat[items[0].0 := items[0].1];
      RunAdds(cat', rows, rest);
      forall k ensures k in Effects(cat, Adds(items)) <==> k in cat || exists i :: 0 <= i < |items| && items[i].0 == k {
        if i :| 0 <= i < |items| && items[i].0 == k {
          assert i > 0 ==> rest[i - 1].0 == k;
        }
        if i :| 0 <= i < |rest| && rest[i].0 == k {
          assert items[i + 1].0 == k;
        }
      }
      forall i | 0 <= i < |items| ensures Effects(cat, Adds(items))[items[i].0] == items[i].1 {
        assert i > 0 ==> rest[i - 1] == items[i];
      }
    }
  }

  /** What a script drops and adds, position by position. */
  datatype Relinking = Relinking(prior: seq<(Key, Constraint)>, dropped: seq<Key>, added: seq<(Key, Constraint)>) {
    ghost predicate KeepsEdges() {
      && |prior| == |dropped| == |added|
      && (forall i :: 0 <= i < |prior| ==> prior[i].0 == dropped[i] && SameEdge(prior[i].1, added[i].1))
      && (forall i, j :: 0 <= i < j < |dropped| ==> dropped[i] != dropped[j])
      && (forall i, j :: 0 <= i < j < |added| ==> added[i].0 != added[j].0)
    }

    function Script(): seq<KeyStatement> {
      Drops(dropped) + Adds(added)
    }

    /** The catalog before the script: the prior constraints, and the new names free once those are gone. */
    ghost predicate Ready(cat: Constraints) {
      && (forall i :: 0 <= i < |prior| ==> prior[i].0 in cat && cat[prior[i].0] == prior[i].1)
      && (forall i :: 0 <= i < |added| && added[i].0 in cat ==> added[i].0 in dropped)
    }

    ghost predicate AddsTo(c: Column) {
      exists i :: 0 <= i < |added| && added[i].1.column == c
    }

    /** The schema once the added constraints replace those on the same columns. */
    ghost function NewSchema(s: Schema): Schema {
      Schema(map c | c in s.keys ::
               if AddsTo(c) then var i :| 0 <= i < |added| && added[i].1.column == c; added[i].1.foreign else s.keys[c],
             s.stamped)
    }

    ghost predicate IsResult(cat: Constraints, cat': Constraints) {
      && (forall k :: k in cat' <==> (k in cat && k !in dropped) || exists i :: 0 <= i < |added| && added[i].0 == k)
      && (forall k :: k in cat && k !in dropped ==> cat'[k] == cat[k])
      && (forall i :: 0 <= i < |added| ==> added[i].0 in cat' && cat'[added[i].0] == added[i].1)
    }

    lemma NewNameIsFree(cat: Constraints, i: nat)
      requires KeepsEdges() && Ready(cat) && i < |added|
      ensures added[i].0 !in cat - (set k <- dropped)
    {
    }

    lemma RowsHold(cat: Constraints, s: Schema, rows: Rows, i: nat)
      requires KeepsEdges() && Ready(cat) && Describes(s, cat) && Valid(s, rows) && i < |added|
      ensures Holds(rows, added[i].1)
    {
      var c := added[i].1;
      assert SameEdge(prior[i].1, c) && cat[prior[i].0] == prior[i].1;
      forall x <- rows | x.table == c.column.table && c.column.name in rows[x].refs
        ensures RowId(c.foreign.target, rows[x].refs[c.column.name]) in rows
      {
        assert Refers(s, rows, x, c.column.name, RowId(c.foreign.target, rows[x].refs[c.column.name]));
      }
    }

    lemma DroppedWereThere(cat: Constraints)
      requires KeepsEdges() && Ready(cat)
      ensures forall i :: 0 <= i < |dropped| ==> dropped[i] in cat
    {
      forall i | 0 <= i < |dropped| ensures dropped[i] in cat {
        assert prior[i].0 == dropped[i];
      }
    }

    lemma Succeeds(cat: Constraints, s: Schema, rows: Rows)
      requires KeepsEdges() && Ready(cat) && Describes(s, cat) && Valid(s, rows)
      ensures AllSucceed(cat, rows, Script()) && IsResult(cat, Effects(cat, Script()))
    {
      var mid := cat - (set k <- dropped);
      assert AllSucceed(cat, rows, Script()) == AllSucceed(mid, rows, Adds(added))
          && Effects(cat, Script()) == Effects(mid, Adds(added)) by {
        DroppedWereThere(cat);
        RunDrops(cat, rows, dropped, Adds(added));
      }
      NewItemsFit(cat, s, rows, mid);
      AddsSucceed(cat, rows, mid);
    }

    lemma NewItemsFit(cat: Constraints, s: Schema, rows: Rows, mid: Constraints)
      requires KeepsEdges() && Ready(cat) && Describes(s, cat) && Valid(s, rows) && mid == cat - (set k <- dropped)
      ensures forall i :: 0 <= i < |added| ==> added[i].0 !in mid && Holds(rows, added[i].1)
    {
      forall i | 0 <= i < |added| ensures added[i].0 !in mid && Holds(rows, added[i].1) {
        NewNameIsFree(cat, i);
        RowsHold(cat, s, rows, i);
      }
    }

    lemma AddsSucceed(cat: Constraints, rows: Rows, mid: Constraints)
      requires mid == cat - (set k <- dropped)
      requires forall i, j :: 0 <= i < j < |added| ==> added[i].0 != added[j].0
      requires forall i :: 0 <= i < |added| ==> added[i].0 !in mid && Holds(rows, added[i].1)
      ensures AllSucceed(mid, rows, Adds(added)) && IsResult(cat, Effects(mid, Adds(added)))
    {
      RunAdds(mid, rows, added);
    }

    lemma ColumnsOfAdded(cat: Constraints, s: Schema)
      requires KeepsEdges() && Ready(cat) && Describes(s, cat)
      ensures forall i, j :: 0 <= i < |added| && 0 <= j < |added| && added[i].1.column == added[j].1.column ==> i == j
      ensures forall i :: 0 <= i < |added| ==>
        added[i].1.column in s.keys && s.keys[added[i].1.column] == prior[i].1.foreign
    {
      forall i, j | 0 <= i < |added| && 0 <= j < |added| && added[i].1.column == added[j].1.column ensures i == j {
        assert SameEdge(prior[i].1, added[i].1) && SameEdge(prior[j].1, added[j].1);
        assert cat[prior[i].0] == prior[i].1 && cat[prior[j].0] == prior[j].1;
        assert prior[i].0 == dropped[i] && prior[j].0 == dropped[j];
      }
      forall i | 0 <= i < |added|
        ensures added[i].1.column in s.keys && s.keys[added[i].1.column] == prior[i].1.foreign
      {
        assert SameEdge(prior[i].1, added[i].1) && cat[prior[i].0] == prior[i].1;
      }
    }

    /** No constraint that stays is on a column of an added one. */
    lemma KeptColumn(cat: Constraints, s: Schema, k: Key)
      requires KeepsEdges() && Ready(cat) && Describes(s, cat) && k in cat && k !in dropped
      ensures !AddsTo(cat[k].column)
    {
      forall i | 0 <= i < |added| ensures added[i].1.column != cat[k].column {
        assert SameEdge(prior[i].1, added[i].1) && cat[prior[i].0] == prior[i].1;
        assert prior[i].0 == dropped[i] && dropped[i] in dropped;
      }
    }

    lemma OnePerColumn(cat: Constraints, s: Schema, cat': Constraints, k: Key, l: Key)
      requires KeepsEdges() && Ready(cat) && Describes(s, cat) && IsResult(cat, cat')
      requires k in cat' && l in cat' && cat'[k].column == cat'[l].column
      ensures k == l
    {
      ColumnsOfAdded(cat, s);
      if k in cat && k !in dropped {
        KeptColumn(cat, s, k);
      }
      if l in cat && l !in dropped {
        KeptColumn(cat, s, l);
      }
    }

    lemma AddedColumn(cat: Constraints, s: Schema, i: nat)
      requires KeepsEdges() && Ready(cat) && Describes(s, cat) && i < |added|
      ensures added[i].1.column in s.keys && NewSchema(s).keys[added[i].1.column] == added[i].1.foreign
    {
      ColumnsOfAdded(cat, s);
      assert AddsTo(added[i].1.column);
    }

    lemma EveryConstraint(cat: Constraints, s: Schema, cat': Constraints, k: Key)
      requires KeepsEdges() && Ready(cat) && Describes(s, cat) && IsResult(cat, cat') && k in cat'
      ensures cat'[k].column in s.keys && NewSchema(s).keys[cat'[k].column] == cat'[k].foreign
    {
      if k in cat && k !in dropped {
        KeptColumn(cat, s, k);
      } else {
        var i :| 0 <= i < |added| && added[i].0 == k;
        AddedColumn(cat, s, i);
      }
    }

    lemma EveryColumn(cat: Constraints, s: Schema, cat': Constraints, c: Column)
      requires KeepsEdges() && Ready(cat) && Describes(s, cat) && IsResult(cat, cat') && c in s.keys
      ensures exists k :: k in cat' && cat'[k].column == c
    {
      var k :| k in cat && cat[k].column == c;
      if k in dropped {
        var i :| 0 <= i < |dropped| && dropped[i] == k;
        assert cat[prior[i].0] == prior[i].1 && SameEdge(prior[i].1, added[i].1);
        assert added[i].0 in cat' && cat'[added[i].0].column == c;
      } else {
        assert k in cat' && cat'[k].column == c;
      }
    }

    lemma DescribesResult(cat: Constraints, s: Schema, cat': Constraints)
      requires KeepsEdges() && Ready(cat) && Describes(s, cat) && IsResult(cat, cat')
      ensures Describes(NewSchema(s), cat')
    {
      forall k | k in cat' ensures cat'[k].column in s.keys && NewSchema(s).keys[cat'[k].column] == cat'[k].foreign {
        EveryConstraint(cat, s, cat', k);
      }
      forall k, l | k in cat' && l in cat' && cat'[k].column == cat'[l].column ensures k == l {
        OnePerColumn(cat, s, cat', k, l);
      }
      forall c <- s.keys ensures exists k :: k in cat' && cat'[k].column == c {
        EveryColumn(cat, s, cat', c);
      }
    }

    lemma NewSchemaTightens(cat: Constraints, s: Schema)
      requires KeepsEdges() && Ready(cat) && Describes(s, cat)
      ensures Tightens(NewSchema(s), s)
    {
      ColumnsOfAdded(cat, s);
      var s' := NewSchema(s);
      forall c <- s.keys
        ensures s'.keys[c].target == s.keys[c].target && s'.keys[c].notNull == s.keys[c].notNull
        ensures s'.keys[c].onDelete == s.keys[c].onDelete || s'.keys[c].onDelete == NoAction
      {
        if i :| 0 <= i < |added| && added[i].1.column == c {
          assert AddsTo(c) && SameEdge(prior[i].1, added[i].1);
          assert s'.keys[c] == added[i].1.foreign;
        }
      }
    }
  }

  // ---------------------------------------------------------------- the migration

  /** The foreign keys as the earlier migrations created them. */
  const PRIOR: seq<(Key, Constraint)> := [
    (Key(WorkspaceMembers, FK_4a7c584d),
      Constraint(Column(WorkspaceMembers, WorkspaceId), ForeignKey(Workspaces, Cascade, true))),
    (Key(WorkspaceMembers, FK_4e834311),
      Constraint(Column(WorkspaceMembers, UserId), ForeignKey(Users, Cascade, true))),
    (Key(BackupCodes, FK_backup_codes_user), Constraint(Column(BackupCodes, UserId), ForeignKey(Users, Cascade, true))),
    (Key(Users, FK_450ec5d9), Constraint(Column(Users, CurrentWorkspaceId), ForeignKey(Workspaces, SetNull, false))),
    (Key(Workspaces, FK_552b8a08), Constraint(Column(Workspaces, OwnerUserId), ForeignKey(Users, Cascade, true))),
    (Key(WorkspaceSettings, FK_workspace_settings_workspace),
      Constraint(Column(WorkspaceSettings, WorkspaceId), ForeignKey(Workspaces, Cascade, true))),
    (Key(WorkspaceInvitations, FK_cf5df369),
      Constraint(Column(WorkspaceInvitations, WorkspaceId), ForeignKey(Workspaces, Cascade, true))),
    (Key(WorkspaceInvitations, FK_5e77cd15),
      Constraint(Column(WorkspaceInvitations, InviterUserId), ForeignKey(Users, Cascade, true))),
    (Key(Projects, FK_af78b8fc), Constraint(Column(Projects, WorkspaceId), ForeignKey(Workspaces, Cascade, true))),
    (Key(Projects, FK_9b4b555c), Constraint(Column(Projects, CreatedByUserId), ForeignKey(Users, Cascade, true))),
    (Key(SharedLinks, FK_shared_links_project),
      Constraint(Column(SharedLinks, ProjectId), ForeignKey(Projects, Cascade, true))),
    (Key(SharedLinks, FK_shared_links_workspace),
      Constraint(Column(SharedLinks, WorkspaceId), ForeignKey(Workspaces, Cascade, true))),
    (Key(SharedLinks, FK_shared_links_user),
      Constraint(Column(SharedLinks, CreatedByUserId), ForeignKey(Users, Cascade, true))),
    (Key(ProvisioningStatus, FK_provisioning_status_project),
      Constraint(Column(ProvisioningStatus, ProjectId), ForeignKey(Projects, Cascade, true))),
    (Key(ProvisioningStatus, FK_provisioning_status_workspace),
      Constraint(Column(ProvisioningStatus, WorkspaceId), ForeignKey(Workspaces, Cascade, true))),
    (Key(OnboardingStatus, FK_c0cf6efc),
      Constraint(Column(OnboardingStatus, UserId), ForeignKey(Users, Cascade, true))),
    (Key(OnboardingStatus, FK_7186de31),
      Constraint(Column(OnboardingStatus, WorkspaceId), ForeignKey(Workspaces, Cascade, true))),
    (Key(Notifications, Notifications_workspace_id_fkey),
      Constraint(Column(Notifications, WorkspaceId), ForeignKey(Workspaces, Cascade, true))),
    (Key(Notifications, Notifications_user_id_fkey),
      Constraint(Column(Notifications, UserId), ForeignKey(Users, SetNull, false))),
    (Key(ByokSecrets, FK_byok_secrets_created_by),
      Constraint(Column(ByokSecrets, CreatedByUserId), ForeignKey(Users, Cascade, true))),
    (Key(ApiUsage, FK_api_usage_workspace),
      Constraint(Column(ApiUsage, WorkspaceId), ForeignKey(Workspaces, Cascade, true))),
    (Key(ApiUsage, FK_api_usage_project),
      Constraint(Column(ApiUsage, ProjectId), ForeignKey(Projects, SetNull, false))),
    (Key(ApiUsage, FK_api_usage_byok_key),
      Constraint(Column(ApiUsage, ByokKeyId), ForeignKey(ByokSecrets, SetNull, false)))
  ]

  /** The names dropped, in order. */
  const DROPPED: seq<Key> := [
    Key(WorkspaceMembers, FK_4a7c584d), Key(WorkspaceMembers, FK_4e834311), Key(BackupCodes, FK_backup_codes_user),
    Key(Users, FK_450ec5d9), Key(Workspaces, FK_552b8a08), Key(WorkspaceSettings, FK_workspace_settings_workspace),
    Key(WorkspaceInvitations, FK_cf5df369), Key(WorkspaceInvitations, FK_5e77cd15),
    Key(Projects, FK_af78b8fc), Key(Projects, FK_9b4b555c),
    Key(SharedLinks, FK_shared_links_project), Key(SharedLinks, FK_shared_links_workspace),
      Key(SharedLinks, FK_shared_links_user),
    Key(ProvisioningStatus, FK_provisioning_status_project), Key(ProvisioningStatus, FK_provisioning_status_workspace),
    Key(OnboardingStatus, FK_c0cf6efc), Key(OnboardingStatus, FK_7186de31),
    Key(Notifications, Notifications_workspace_id_fkey), Key(Notifications, Notifications_user_id_fkey),
    Key(ByokSecrets, FK_byok_secrets_created_by),
    Key(ApiUsage, FK_api_usage_workspace), Key(ApiUsage, FK_api_usage_project), Key(ApiUsage, FK_api_usage_byok_key)
  ]

  /** The constraints added, in order. */
  const ADDED: seq<(Key, Constraint)> := [
    (Key(WorkspaceMembers, FK_4a7c584d),
      Constraint(Column(WorkspaceMembers, WorkspaceId), ForeignKey(Workspaces, NoAction, true))),
    (Key(WorkspaceMembers, FK_4e834311),
      Constraint(Column(WorkspaceMembers, UserId), ForeignKey(Users, NoAction, true))),
    (Key(BackupCodes, FK_70066ea8), Constraint(Column(BackupCodes, UserId), ForeignKey(Users, Cascade, true))),
    (Key(Users, FK_450ec5d9), Constraint(Column(Users, CurrentWorkspaceId), ForeignKey(Workspaces, NoAction, false))),
    (Key(Workspaces, FK_552b8a08), Constraint(Column(Workspaces, OwnerUserId), ForeignKey(Users, NoAction, true))),
    (Key(WorkspaceSettings, FK_c51a656a),
      Constraint(Column(WorkspaceSettings, WorkspaceId), ForeignKey(Workspaces, NoAction, true))),
    (Key(WorkspaceInvitations, FK_cf5df369),
      Constraint(Column(WorkspaceInvitations, WorkspaceId), ForeignKey(Workspaces, NoAction, true))),
    (Key(WorkspaceInvitations, FK_5e77cd15),
      Constraint(Column(WorkspaceInvitations, InviterUserId), ForeignKey(Users, NoAction, true))),
    (Key(Projects, FK_af78b8fc), Constraint(Column(Projects, WorkspaceId), ForeignKey(Workspaces, NoAction, true))),
    (Key(Projects, FK_9b4b555c), Constraint(Column(Projects, CreatedByUserId), ForeignKey(Users, NoAction, true))),
    (Key(SharedLinks, FK_6a491724), Constraint(Column(SharedLinks, ProjectId), ForeignKey(Projects, Cascade, true))),
    (Key(SharedLinks, FK_c7800cfb),
      Constraint(Column(SharedLinks, WorkspaceId), ForeignKey(Workspaces, Cascade, true))),
    (Key(SharedLinks, FK_093c2bc5), Constraint(Column(SharedLinks, CreatedByUserId), ForeignKey(Users, Cascade, true))),
    (Key(ProvisioningStatus, FK_34676e0d),
      Constraint(Column(ProvisioningStatus, ProjectId), ForeignKey(Projects, Cascade, true))),
    (Key(ProvisioningStatus, FK_4235aa15),
      Constraint(Column(ProvisioningStatus, WorkspaceId), ForeignKey(Workspaces, Cascade, true))),
    (Key(OnboardingStatus, FK_c0cf6efc),
      Constraint(Column(OnboardingStatus, UserId), ForeignKey(Users, NoAction, true))),
    (Key(OnboardingStatus, FK_7186de31),
      Constraint(Column(OnboardingStatus, WorkspaceId), ForeignKey(Workspaces, NoAction, true))),
    (Key(Notifications, FK_ff8a9bf1),
      Constraint(Column(Notifications, WorkspaceId), ForeignKey(Workspaces, Cascade, true))),
    (Key(Notifications, FK_9a8a8246), Constraint(Column(Notifications, UserId), ForeignKey(Users, SetNull, false))),
    (Key(ByokSecrets, FK_f0fc94dd),
      Constraint(Column(ByokSecrets, CreatedByUserId), ForeignKey(Users, NoAction, true))),
    (Key(ApiUsage, FK_27cf0492), Constraint(Column(ApiUsage, WorkspaceId), ForeignKey(Workspaces, Cascade, true))),
    (Key(ApiUsage, FK_4e99f987), Constraint(Column(ApiUsage, ProjectId), ForeignKey(Projects, SetNull, false))),
    (Key(ApiUsage, FK_3a1d1c29), Constraint(Column(ApiUsage, ByokKeyId), ForeignKey(ByokSecrets, SetNull, false)))
  ]

  /** The position at which a constraint name is dropped. */
  function DroppedAt(n: ConstraintName): int {
    match n
    case FK_4a7c584d => 0
    case FK_4e834311 => 1
    case FK_backup_codes_user => 2
    case FK_450ec5d9 => 3
    case FK_552b8a08 => 4
    case FK_workspace_settings_workspace => 5
    case FK_cf5df369 => 6
    case FK_5e77cd15 => 7
    case FK_af78b8fc => 8
    case FK_9b4b555c => 9
    case FK_shared_links_project => 10
    case FK_shared_links_workspace => 11
    case FK_shared_links_user => 12
    case FK_provisioning_status_project => 13
    case FK_provisioning_status_workspace => 14
    case FK_c0cf6efc => 15
    case FK_7186de31 => 16
    case Notifications_workspace_id_fkey => 17
    case Notifications_user_id_fkey => 18
    case FK_byok_secrets_created_by => 19
    case FK_api_usage_workspace => 20
    case FK_api_usage_project => 21
    case FK_api_usage_byok_key => 22
    case _ => -1
  }

  /** The position at which a constraint name is added. */
  function AddedAt(n: ConstraintName): int {
    match n
    case FK_4a7c584d => 0
    case FK_4e834311 => 1
    case FK_70066ea8 => 2
    case FK_450ec5d9 => 3
    case FK_552b8a08 => 4
    case FK_c51a656a => 5
    case FK_cf5df369 => 6
    case FK_5e77cd15 => 7
    case FK_af78b8fc => 8
    case FK_9b4b555c => 9
    case FK_6a491724 => 10
    case FK_c7800cfb => 11
    case FK_093c2bc5 => 12
    case FK_34676e0d => 13
    case FK_4235aa15 => 14
    case FK_c0cf6efc => 15
    case FK_7186de31 => 16
    case FK_ff8a9bf1 => 17
    case FK_9a8a8246 => 18
    case FK_f0fc94dd => 19
    case FK_27cf0492 => 20
    case FK_4e99f987 => 21
    case FK_3a1d1c29 => 22
    case _ => -1
  }

  lemma DroppedOnce()
    ensures forall i :: 0 <= i < |DROPPED| ==> DroppedAt(DROPPED[i].name) == i
  {}

  lemma AddedOnce()
    ensures forall i :: 0 <= i < |ADDED| ==> AddedAt(ADDED[i].0.name) == i
  {}

  function Relinks(): Relinking {
    Relinking(PRIOR, DROPPED, ADDED)
  }

  lemma DropsWhatExisted()
    ensures |PRIOR| == |DROPPED|
    ensures forall i :: 0 <= i < |PRIOR| ==> PRIOR[i].0 == DROPPED[i]
  {}

  /** The columns whose keys were SET NULL, and may be NULL; the other keys were CASCADE and NOT NULL. */
  predicate WasSetNull(c: Column) {
    c == Column(Users, CurrentWorkspaceId) || c == Column(Notifications, UserId)
      || c == Column(ApiUsage, ProjectId) || c == Column(ApiUsage, ByokKeyId)
  }

  /** The columns whose keys become NO ACTION: all keys of four tables, and one each of four more. */
  predicate BecomesNoAction(c: Column) {
    match c.table
    case WorkspaceMembers => c.name == WorkspaceId || c.name == UserId
    case WorkspaceInvitations => c.name == WorkspaceId || c.name == InviterUserId
    case Projects => c.name == WorkspaceId || c.name == CreatedByUserId
    case OnboardingStatus => c.name == UserId || c.name == WorkspaceId
    case Users => c.name == CurrentWorkspaceId
    case Workspaces => c.name == OwnerUserId
    case WorkspaceSettings => c.name == WorkspaceId
    case ByokSecrets => c.name == CreatedByUserId
    case _ => false
  }

  /** Each key dropped is on the table and references the table that its column says, with its action as above. */
  lemma PriorKeysExactly()
    ensures |PRIOR| == 23
    ensures forall i :: 0 <= i < |PRIOR| ==> PRIOR[i].0.table == PRIOR[i].1.column.table
    ensures forall i :: 0 <= i < |PRIOR| ==> var c := PRIOR[i].1.column;
      PRIOR[i].1.foreign == ForeignKey(Referenced(c.name), if WasSetNull(c) then SetNull else Cascade, !WasSetNull(c))
  {}

  lemma AddedColumnsExactly()
    ensures |ADDED| == |PRIOR|
    ensures forall i :: 0 <= i < |PRIOR| ==>
      ADDED[i].0.table == PRIOR[i].0.table && ADDED[i].1.column == PRIOR[i].1.column
  {}

  lemma AddedActionsExactly()
    ensures forall i :: 0 <= i < |ADDED| ==> var c := ADDED[i].1.column;
      ADDED[i].1.foreign.onDelete == if BecomesNoAction(c) then NoAction else if WasSetNull(c) then SetNull else Cascade
  {}

  lemma AddedTargetsExactly()
    ensures forall i :: 0 <= i < |ADDED| ==> var c := ADDED[i].1.column;
      ADDED[i].1.foreign.target == Referenced(c.name) && (ADDED[i].1.foreign.notNull <==> !WasSetNull(c))
  {}

  /** Each key added has the column of the one dropped; it is NO ACTION on the columns above and as before elsewhere. */
  lemma AddedKeyExactly(i: nat)
    requires i < |ADDED|
    ensures |ADDED| == |PRIOR| && ADDED[i].0.table == PRIOR[i].0.table && ADDED[i].1.column == PRIOR[i].1.column
    ensures ADDED[i].1.foreign == if BecomesNoAction(ADDED[i].1.column) then PRIOR[i].1.foreign.(onDelete := NoAction)
                                  else PRIOR[i].1.foreign
  {
    PriorKeysExactly();
    AddedColumnsExactly();
    AddedActionsExactly();
    AddedTargetsExactly();
  }

  /** The position at which the key of a column that becomes NO ACTION is added. */
  function NoActionAt(c: Column): int {
    match c.table
    case WorkspaceMembers => if c.name == WorkspaceId then 0 else 1
    case Users => 3
    case Workspaces => 4
    case WorkspaceSettings => 5
    case WorkspaceInvitations => if c.name == WorkspaceId then 6 else 7
    case Projects => if c.name == WorkspaceId then 8 else 9
    case OnboardingStatus => if c.name == UserId then 15 else 16
    case _ => 19
  }

  lemma NoActionIsAdded(c: Column)
    requires BecomesNoAction(c)
    ensures 0 <= NoActionAt(c) < |ADDED| && ADDED[NoActionAt(c)].1.column == c
  {}

  /** Position by position, the constraint added has the edge of the one dropped, and its action or NO ACTION. */
  lemma AddsTheSameEdges()
    ensures |PRIOR| == |ADDED|
    ensures forall i :: 0 <= i < |PRIOR| ==> SameEdge(PRIOR[i].1, ADDED[i].1)
  {
    AddedColumnsExactly();
    forall i: nat | i < |PRIOR| ensures SameEdge(PRIOR[i].1, ADDED[i].1) {
      AddedKeyExactly(i);
    }
  }

  lemma KeepsTheEdges()
    ensures Relinks().KeepsEdges()
  {
    DropsWhatExisted();
    AddsTheSameEdges();
    DroppedOnce();
    AddedOnce();
  }

  /**
    The migration runs to its end on any valid store whose catalog holds the prior
    constraints, and the schema it leaves tightens the one before it.
   */
  lemma UpTightens(cat: Constraints, s: Schema, rows: Rows)
    requires Relinks().Ready(cat) && Describes(s, cat) && Valid(s, rows)
    ensures AllSucceed(cat, rows, Relinks().Script())
    ensures Describes(Relinks().NewSchema(s), Effects(cat, Relinks().Script()))
    ensures Tightens(Relinks().NewSchema(s), s)
  {
    var r := Relinks();
    KeepsTheEdges();
    r.Succeeds(cat, s, rows);
    r.DescribesResult(cat, s, Effects(cat, r.Script()));
    r.NewSchemaTightens(cat, s);
  }

  /** The schema that the migration leaves differs in the twelve actions above, and in nothing else. */
  lemma TightensExactly(cat: Constraints, s: Schema, c: Column)
    requires Relinks().Ready(cat) && Describes(s, cat) && c in s.keys
    ensures Relinks().NewSchema(s).keys[c] == if BecomesNoAction(c) then s.keys[c].(onDelete := NoAction) else s.keys[c]
  {
    var r := Relinks();
    KeepsTheEdges();
    if BecomesNoAction(c) {
      NoActionIsAdded(c);
      KeyReplaced(r, cat, s, NoActionAt(c));
    } else if r.AddsTo(c) {
      var i :| 0 <= i < |r.added| && r.added[i].1.column == c;
      KeyReplaced(r, cat, s, i);
    }
  }

  lemma KeyReplaced(r: Relinking, cat: Constraints, s: Schema, i: nat)
    requires r == Relinks() && r.KeepsEdges() && r.Ready(cat) && Describes(s, cat) && i < |r.added|
    ensures var c := r.added[i].1.column;
      && c in s.keys
      && r.NewSchema(s).keys[c] == if BecomesNoAction(c) then s.keys[c].(onDelete := NoAction) else s.keys[c]
  {
    r.AddedColumn(cat, s, i);
    r.ColumnsOfAdded(cat, s);
    AddedKeyExactly(i);
  }

  /**
    What that means for deletes: after the migration, no row goes while a row that stays
    references it, or anything that would go with it, through one of the twelve columns.
   */
  lemma RejectedThroughTightened(cat: Constraints, s: Schema, rows: Rows, root: RowId, now: int, x: RowId, f: Field,
                                 y: RowId)
    requires Relinks().Ready(cat) && Describes(s, cat)
    requires Refers(s, rows, x, f, y) && BecomesNoAction(Column(x.table, f))
    requires var t := Relinks().NewSchema(s); y in Closure(t, rows, root) && x !in Closure(t, rows, root)
    ensures DeleteOutcome(Relinks().NewSchema(s), rows, root, now) == Rejected
  {
    var t := Relinks().NewSchema(s);
    TightensExactly(cat, s, Column(x.table, f));
    assert Refers(t, rows, x, f, y) && ActionOf(t, x, f) == NoAction;
    RejectedExactly(t, rows, root, now);
  }

  /** While owner_user_id is NO ACTION and nothing cascades into workspaces, an owner stays. */
  lemma OwnerStays(s: Schema, rows: Rows, owner: RowId, workspace: RowId, now: int)
    requires Column(Workspaces, OwnerUserId) in s.keys && s.keys[Column(Workspaces, OwnerUserId)].onDelete == NoAction
    requires forall k <- s.keys :: k.table == Workspaces ==> s.keys[k].onDelete != Cascade
    requires owner in rows && owner.table == Users && workspace.table == Workspaces
    requires Refers(s, rows, workspace, OwnerUserId, owner)
    ensures DeleteOutcome(s, rows, owner, now) == Rejected
  {
    var gone := Closure(s, rows, owner);
    ClosureIsLeast(s, rows, owner);
    var others := gone - {workspace};
    forall x, y | y in others && CascadesTo(s, rows, y, x) ensures x in others {
      var f :| Refers(s, rows, x, f, y) && ActionOf(s, x, f) == Cascade;
      assert x.table != Workspaces;
    }
    assert owner in others && ClosedUnderCascade(s, rows, others);
    assert workspace !in gone;
    assert ActionOf(s, workspace, OwnerUserId) == NoAction;
  }

  lemma OwnerKeyAdded()
    ensures ADDED[4].1 == Constraint(Column(Workspaces, OwnerUserId), ForeignKey(Users, NoAction, true))
  {}

  /** The schema that the migration leaves has owner_user_id as NO ACTION. */
  lemma OwnerKeyIsNoAction(cat: Constraints, s: Schema)
    requires Relinks().Ready(cat) && Describes(s, cat)
    ensures Column(Workspaces, OwnerUserId) in s.keys
    ensures Relinks().NewSchema(s).keys[Column(Workspaces, OwnerUserId)] == ForeignKey(Users, NoAction, true)
  {
    var r := Relinks();
    KeepsTheEdges();
    OwnerKeyAdded();
    r.AddedColumn(cat, s, 4);
  }

  /**
    What the migration means for accounts, wherever owner_user_id is the only foreign key of
    workspaces: a user who owns a workspace could be deleted before, with the workspace, and
    cannot be deleted any more.
   */
  lemma OwnersCannotBeDeleted(cat: Constraints, s: Schema, rows: Rows, owner: RowId, workspace: RowId, now: int)
    requires Relinks().Ready(cat) && Describes(s, cat)
    requires forall k <- s.keys :: k.table == Workspaces ==> k.name == OwnerUserId
    requires owner in rows && workspace.table == Workspaces && Refers(s, rows, workspace, OwnerUserId, owner)
    ensures workspace in Closure(s, rows, owner)
    ensures DeleteOutcome(Relinks().NewSchema(s), rows, owner, now) == Rejected
  {
    OwnerKeyIsNoAction(cat, s);
    OwnerKeyCascaded(cat, s);
    ClosureIsLeast(s, rows, owner);
    assert CascadesTo(s, rows, owner, workspace);
    assert Refers(Relinks().NewSchema(s), rows, workspace, OwnerUserId, owner);
    OwnerStays(Relinks().NewSchema(s), rows, owner, workspace, now);
  }

  lemma OwnerKeyCascaded(cat: Constraints, s: Schema)
    requires Relinks().Ready(cat) && Describes(s, cat)
    ensures Column(Workspaces, OwnerUserId) in s.keys
    ensures s.keys[Column(Workspaces, OwnerUserId)] == ForeignKey(Users, Cascade, true)
  {
    assert PRIOR[4].1 == Constraint(Column(Workspaces, OwnerUserId), ForeignKey(Users, Cascade, true));
    assert cat[PRIOR[4].0] == PRIOR[4].1;
  }
}
