/**
  Deletion under a foreign-key graph (ISO/IEC 9075-2, section 11.8).

  A schema maps each foreign-key column to the table it references and to the action
  taken when the referenced row goes away.  Deleting a row puts one work item on a list
  for every foreign key that references the row's table; carrying out an item may delete
  further rows, which add further items.  The items may be taken in any order, and the
  graph may be cyclic.  NO ACTION is checked at the end of the statement.
 */
module Referential {
  import opened Names

  datatype Action = Cascade | SetNull | NoAction

  datatype Column = Column(table: Table, name: Field)

  datatype ForeignKey = ForeignKey(target: Table, onDelete: Action, notNull: bool)

  /** stamped: the tables whose BEFORE UPDATE trigger writes updated_at. */
  datatype Schema = Schema(keys: map<Column, ForeignKey>, stamped: set<Table>)

  datatype RowId = RowId(table: Table, id: int)

  /** refs holds the non-NULL foreign-key columns; data stands for all other columns. */
  datatype Row = Row(refs: map<Field, int>, updatedAt: int, data: int)

  type Rows = map<RowId, Row>

  /** The foreign keys that are NOT NULL and SET NULL at once are outside the model. */
  ghost predicate WellFormed(s: Schema) {
    forall k <- s.keys :: s.keys[k].onDelete == SetNull ==> !s.keys[k].notNull
  }

  /** Column f of row x is a foreign key that references y. */
  predicate Refers(s: Schema, rows: Rows, x: RowId, f: Field, y: RowId) {
    && x in rows
    && Column(x.table, f) in s.keys
    && f in rows[x].refs
    && y == RowId(s.keys[Column(x.table, f)].target, rows[x].refs[f])
  }

  function ActionOf(s: Schema, x: RowId, f: Field): Action
    requires Column(x.table, f) in s.keys
  {
    s.keys[Column(x.table, f)].onDelete
  }

  /** No reference dangles, and NOT NULL foreign keys hold a value. */
  ghost predicate Valid(s: Schema, rows: Rows) {
    && (forall x, f, y :: Refers(s, rows, x, f, y) ==> y in rows)
    && (forall x, k :: x in rows && k in s.keys && k.table == x.table && s.keys[k].notNull ==> k.name in rows[x].refs)
  }

  // ---------------------------------------------------------------- what a delete means

  ghost predicate CascadesTo(s: Schema, rows: Rows, y: RowId, x: RowId) {
    exists f :: Refers(s, rows, x, f, y) && ActionOf(s, x, f) == Cascade
  }

  /** p leads from its first row to its last along CASCADE references. */
  ghost predicate CascadePath(s: Schema, rows: Rows, p: seq<RowId>) {
    && |p| > 0
    && (forall i :: 0 <= i < |p| ==> p[i] in rows)
    && (forall i {:trigger p[i]} :: 0 < i < |p| ==> CascadesTo(s, rows, p[i - 1], p[i]))
  }

  ghost predicate Doomed(s: Schema, rows: Rows, root: RowId, x: RowId) {
    exists p :: CascadePath(s, rows, p) && p[0] == root && p[|p| - 1] == x
  }

  /** The rows that must go when root goes. */
  ghost function Closure(s: Schema, rows: Rows, root: RowId): set<RowId> {
    set x | x in rows && Doomed(s, rows, root, x)
  }

  ghost predicate ClosedUnderCascade(s: Schema, rows: Rows, gone: set<RowId>) {
    forall x, y :: y in gone && CascadesTo(s, rows, y, x) ==> x in gone
  }

  /** The columns of x that SET NULL clears when the rows in gone are deleted. */
  function Cleared(s: Schema, rows: Rows, x: RowId, gone: set<RowId>): set<Field>
    requires x in rows
  {
    set f | f in rows[x].refs && Column(x.table, f) in s.keys && ActionOf(s, x, f) == SetNull
            && RowId(s.keys[Column(x.table, f)].target, rows[x].refs[f]) in gone
  }

  function Cut(s: Schema, table: Table, row: Row, fields: set<Field>, now: int): Row {
    if fields == {} then row
    else Row(row.refs - fields, if table in s.stamped then now else row.updatedAt, row.data)
  }

  /** The store once the rows in gone are deleted and the references to them cleared. */
  ghost function Aftermath(s: Schema, rows: Rows, gone: set<RowId>, now: int): Rows {
    map x | x in rows && x !in gone :: Cut(s, x.table, rows[x], Cleared(s, rows, x, gone), now)
  }

  /** A NO ACTION reference from a remaining row to a deleted one. */
  ghost predicate Blocked(s: Schema, rows: Rows, gone: set<RowId>) {
    exists x, f, y :: x !in gone && y in gone && Refers(s, rows, x, f, y) && ActionOf(s, x, f) == NoAction
  }

  datatype Outcome = Accepted(rows: Rows) | Rejected

  /** The meaning of DELETE, with no reference to any order of work. */
  ghost function DeleteOutcome(s: Schema, rows: Rows, root: RowId, now: int): Outcome {
    if root !in rows then Accepted(rows)
    else if Blocked(s, rows, Closure(s, rows, root)) then Rejected
    else Accepted(Aftermath(s, rows, Closure(s, rows, root), now))
  }

  lemma ClosureContainsRoot(s: Schema, rows: Rows, root: RowId)
    requires root in rows
    ensures root in Closure(s, rows, root)
  {
    var p := [root];
    assert CascadePath(s, rows, p) && p[0] == root && p[|p| - 1] == root;
  }

  lemma ExtendPath(s: Schema, rows: Rows, root: RowId, y: RowId, x: RowId)
    requires Doomed(s, rows, root, y) && CascadesTo(s, rows, y, x)
    ensures Doomed(s, rows, root, x)
  {
    var p :| CascadePath(s, rows, p) && p[0] == root && p[|p| - 1] == y;
    var q := p + [x];
    forall i | 0 < i < |q| ensures CascadesTo(s, rows, q[i - 1], q[i]) {
      if i < |p| {
        assert q[i] == p[i] && q[i - 1] == p[i - 1];
      }
    }
    assert CascadePath(s, rows, q) && q[0] == root && q[|q| - 1] == x;
  }

  lemma PathStaysInside(s: Schema, rows: Rows, p: seq<RowId>, gone: set<RowId>)
    requires CascadePath(s, rows, p) && p[0] in gone && ClosedUnderCascade(s, rows, gone)
    ensures p[|p| - 1] in gone
  {
    var i := 1;
    while i < |p|
      invariant 1 <= i <= |p| && p[i - 1] in gone
    {
      assert CascadesTo(s, rows, p[i - 1], p[i]);
      i := i + 1;
    }
  }

  /** Closure is the least set of rows that contains root and is closed under CASCADE. */
  lemma ClosureIsLeast(s: Schema, rows: Rows, root: RowId)
    requires root in rows
    ensures root in Closure(s, rows, root) && ClosedUnderCascade(s, rows, Closure(s, rows, root))
    ensures forall gone :: root in gone && ClosedUnderCascade(s, rows, gone) ==> Closure(s, rows, root) <= gone
  {
    ClosureContainsRoot(s, rows, root);
    var c := Closure(s, rows, root);
    forall x, y | y in c && CascadesTo(s, rows, y, x) ensures x in c {
      ExtendPath(s, rows, root, y, x);
    }
    forall gone, x | root in gone && ClosedUnderCascade(s, rows, gone) && x in c ensures x in gone {
      var p :| CascadePath(s, rows, p) && p[0] == root && p[|p| - 1] == x;
      PathStaysInside(s, rows, p, gone);
    }
  }

  // ---------------------------------------------------------------- the worklist

  /** Foreign key `key` still has to be acted upon for the deleted row `gone`. */
  datatype Work = Work(key: Column, gone: RowId)

  datatype State = State(rows: Rows, pending: set<Work>)

  function WorkFor(s: Schema, gone: set<RowId>): set<Work> {
    set y, k | y in gone && k in s.keys && s.keys[k].target == y.table :: Work(k, y)
  }

  /** The rows that reference w.gone through w.key. */
  function Hits(s: Schema, rows: Rows, w: Work): set<RowId> {
    set x | x in rows && x.table == w.key.table && Refers(s, rows, x, w.key.name, w.gone)
  }

  function Start(s: Schema, rows: Rows, root: RowId): State {
    State(rows - {root}, WorkFor(s, {root}))
  }

  function Step(s: Schema, st: State, w: Work, now: int): State
    requires w.key in s.keys
  {
    var hits := Hits(s, st.rows, w);
    match s.keys[w.key].onDelete
    case Cascade => State(st.rows - hits, (st.pending - {w}) + WorkFor(s, hits))
    case SetNull =>
      State(map x | x in st.rows ::
              if x in hits then Cut(s, x.table, st.rows[x], {w.key.name}, now) else st.rows[x],
            st.pending - {w})
    case NoAction => State(st.rows, st.pending - {w})
  }

  /** `w` no longer needs any action: no remaining row references w.gone through it. */
  ghost predicate Settled(s: Schema, rows: Rows, w: Work) {
    w.key in s.keys && (s.keys[w.key].onDelete == NoAction || Hits(s, rows, w) == {})
  }

  /** What remains of row x while the rows in gone are already deleted. */
  ghost predicate Remnant(s: Schema, rows: Rows, x: RowId, row: Row, gone: set<RowId>, now: int)
    requires x in rows
  {
    exists cut :: cut <= Cleared(s, rows, x, gone) && row == Cut(s, x.table, rows[x], cut, now)
  }

  /** What every step of the worklist keeps; rows is the store before the delete. */
  ghost predicate Inv(s: Schema, rows: Rows, root: RowId, now: int, st: State) {
    var gone := rows.Keys - st.rows.Keys;
    && root in gone && st.rows.Keys <= rows.Keys
    && gone <= Closure(s, rows, root)
    && (forall x <- st.rows :: Remnant(s, rows, x, st.rows[x], gone, now))
    && st.pending <= WorkFor(s, gone)
    && (forall w <- WorkFor(s, gone) :: w in st.pending || Settled(s, st.rows, w))
  }

  lemma StartKeepsInv(s: Schema, rows: Rows, root: RowId, now: int)
    requires root in rows
    ensures Inv(s, rows, root, now, Start(s, rows, root))
  {
    var st := Start(s, rows, root);
    assert rows.Keys - st.rows.Keys == {root};
    ClosureContainsRoot(s, rows, root);
    forall x <- st.rows ensures Remnant(s, rows, x, st.rows[x], {root}, now) {
      assert {} <= Cleared(s, rows, x, {root}) && st.rows[x] == Cut(s, x.table, rows[x], {}, now);
    }
  }

  /** A column still present in a remnant holds its original value. */
  lemma RemnantRefers(s: Schema, rows: Rows, now: int, st: State, gone: set<RowId>, x: RowId, f: Field, y: RowId)
    requires x in st.rows && x in rows && Remnant(s, rows, x, st.rows[x], gone, now)
    requires Refers(s, st.rows, x, f, y)
    ensures Refers(s, rows, x, f, y)
  {
  }

  lemma RemnantGrows(s: Schema, rows: Rows, x: RowId, row: Row, small: set<RowId>, large: set<RowId>, now: int)
    requires x in rows && small <= large && Remnant(s, rows, x, row, small, now)
    ensures Remnant(s, rows, x, row, large, now)
  {
    var cut :| cut <= Cleared(s, rows, x, small) && row == Cut(s, x.table, rows[x], cut, now);
    assert cut <= Cleared(s, rows, x, large);
  }

  lemma CascadeKeepsInv(s: Schema, rows: Rows, root: RowId, now: int, st: State, w: Work)
    requires Inv(s, rows, root, now, st) && w in st.pending && w.key in s.keys && s.keys[w.key].onDelete == Cascade
    ensures Inv(s, rows, root, now, Step(s, st, w, now))
  {
    var next := Step(s, st, w, now);
    var hits := Hits(s, st.rows, w);
    var gone := rows.Keys - st.rows.Keys;
    var gone' := rows.Keys - next.rows.Keys;
    assert gone' == gone + hits;
    assert w.gone in gone;
    forall x <- hits ensures x in Closure(s, rows, root) {
      RemnantRefers(s, rows, now, st, gone, x, w.key.name, w.gone);
      assert CascadesTo(s, rows, w.gone, x);
      ExtendPath(s, rows, root, w.gone, x);
    }
    forall x <- next.rows ensures Remnant(s, rows, x, next.rows[x], gone', now) {
      RemnantGrows(s, rows, x, st.rows[x], gone, gone', now);
    }
    assert WorkFor(s, gone') == WorkFor(s, gone) + WorkFor(s, hits);
    forall v <- WorkFor(s, gone') ensures v in next.pending || Settled(s, next.rows, v) {
      assert Hits(s, next.rows, v) <= Hits(s, st.rows, v) - hits;
    }
  }

  lemma CutTwice(s: Schema, table: Table, row: Row, a: set<Field>, b: set<Field>, now: int)
    ensures Cut(s, table, Cut(s, table, row, a, now), b, now) == Cut(s, table, row, a + b, now)
  {
    assert row.refs - a - b == row.refs - (a + b);
    if a == {} {
      assert a + b == b;
    } else if b == {} {
      assert a + b == a;
    }
  }

  lemma SetNullKeepsInv(s: Schema, rows: Rows, root: RowId, now: int, st: State, w: Work)
    requires Inv(s, rows, root, now, st) && w in st.pending && w.key in s.keys && s.keys[w.key].onDelete == SetNull
    ensures Inv(s, rows, root, now, Step(s, st, w, now))
  {
    var next := Step(s, st, w, now);
    var hits := Hits(s, st.rows, w);
    var gone := rows.Keys - st.rows.Keys;
    assert next.rows.Keys == st.rows.Keys;
    assert w.gone in gone;
    forall x <- next.rows ensures Remnant(s, rows, x, next.rows[x], gone, now) {
      if x in hits {
        RemnantRefers(s, rows, now, st, gone, x, w.key.name, w.gone);
        assert Column(x.table, w.key.name) == w.key;
        var cut :| cut <= Cleared(s, rows, x, gone) && st.rows[x] == Cut(s, x.table, rows[x], cut, now);
        CutTwice(s, x.table, rows[x], cut, {w.key.name}, now);
        assert cut + {w.key.name} <= Cleared(s, rows, x, gone);
      }
    }
    forall v <- WorkFor(s, gone) ensures v in next.pending || Settled(s, next.rows, v) {
      if v == w {
        forall x | x in st.rows ensures x !in Hits(s, next.rows, w) {
        }
      } else {
        forall x <- Hits(s, next.rows, v) ensures x in Hits(s, st.rows, v) {
        }
      }
    }
  }

  /** Every step, whichever item it takes, keeps the invariant. */
  lemma StepKeepsInv(s: Schema, rows: Rows, root: RowId, now: int, st: State, w: Work)
    requires Inv(s, rows, root, now, st) && w in st.pending
    ensures w.key in s.keys
    ensures Inv(s, rows, root, now, Step(s, st, w, now))
  {
    match s.keys[w.key].onDelete
    case Cascade => CascadeKeepsInv(s, rows, root, now, st, w);
    case SetNull => SetNullKeepsInv(s, rows, root, now, st, w);
    case NoAction =>
  }

  /** Every step deletes a row or shortens the list: the measure that replaces a table order. */
  lemma StepDecreases(s: Schema, st: State, w: Work, now: int)
    requires w in st.pending && w.key in s.keys
    ensures var next := Step(s, st, w, now);
      |next.rows| < |st.rows| || (|next.rows| == |st.rows| && |next.pending| < |st.pending|)
  {
    var next := Step(s, st, w, now);
    assert |st.pending - {w}| < |st.pending|;
    assert |next.rows| == |next.rows.Keys| && |st.rows| == |st.rows.Keys|;
    match s.keys[w.key].onDelete {
      case Cascade =>
        var hits := Hits(s, st.rows, w);
        assert next.rows.Keys == st.rows.Keys - hits;
        if hits == {} {
          assert WorkFor(s, hits) == {};
          assert next.pending == st.pending - {w};
          assert next.rows.Keys == st.rows.Keys;
        } else {
          assert next.rows.Keys < st.rows.Keys;
          SubsetSize(next.rows.Keys, st.rows.Keys);
        }
      case SetNull => assert next.rows.Keys == st.rows.Keys;
      case NoAction =>
    }
  }

  lemma SubsetSize(a: set<RowId>, b: set<RowId>)
    requires a < b
    ensures |a| < |b|
  {
    var x :| x in b && x !in a;
    assert b == (b - a) + a && (b - a) !! a && x in b - a;
    assert |b| == |b - a| + |a|;
  }

  /** When no work is left, the deleted rows and the survivors are those of the definition. */
  lemma FinishedIsAftermath(s: Schema, rows: Rows, root: RowId, now: int, st: State)
    requires root in rows && Inv(s, rows, root, now, st) && st.pending == {}
    ensures st.rows == Aftermath(s, rows, Closure(s, rows, root), now)
  {
    var gone := rows.Keys - st.rows.Keys;
    forall x, y | y in gone && CascadesTo(s, rows, y, x) ensures x in gone {
      var f :| Refers(s, rows, x, f, y) && ActionOf(s, x, f) == Cascade;
      var w := Work(Column(x.table, f), y);
      assert w in WorkFor(s, gone);
      assert x in st.rows ==> x in Hits(s, st.rows, w);
    }
    ClosureIsLeast(s, rows, root);
    assert gone == Closure(s, rows, root);
    forall x <- st.rows ensures st.rows[x] == Cut(s, x.table, rows[x], Cleared(s, rows, x, gone), now) {
      var cut :| cut <= Cleared(s, rows, x, gone) && st.rows[x] == Cut(s, x.table, rows[x], cut, now);
      forall f <- Cleared(s, rows, x, gone) ensures f in cut {
        var w := Work(Column(x.table, f), RowId(s.keys[Column(x.table, f)].target, rows[x].refs[f]));
        assert w in WorkFor(s, gone);
        assert f !in cut ==> x in Hits(s, st.rows, w);
      }
      assert cut == Cleared(s, rows, x, gone);
    }
    assert st.rows.Keys == Aftermath(s, rows, gone, now).Keys;
  }

  /** The items of a run, in the order in which they are taken. */
  ghost predicate IsRun(s: Schema, st: State, order: seq<Work>, now: int)
    decreases |order|
  {
    order == [] || (order[0] in st.pending && order[0].key in s.keys
                    && IsRun(s, Step(s, st, order[0], now), order[1..], now))
  }

  ghost function After(s: Schema, st: State, order: seq<Work>, now: int): State
    requires IsRun(s, st, order, now)
    decreases |order|
  {
    if order == [] then st else After(s, Step(s, st, order[0], now), order[1..], now)
  }

  lemma {:induction false} RunKeepsInv(s: Schema, rows: Rows, root: RowId, now: int, st: State, order: seq<Work>)
    requires Inv(s, rows, root, now, st) && IsRun(s, st, order, now)
    ensures Inv(s, rows, root, now, After(s, st, order, now))
    decreases |order|
  {
    if order != [] {
      StepKeepsInv(s, rows, root, now, st, order[0]);
      RunKeepsInv(s, rows, root, now, Step(s, st, order[0], now), order[1..]);
    }
  }

  /** Confluence: any two orders that use up the work end in the same store, the one defined by Closure. */
  lemma OrderDoesNotMatter(s: Schema, rows: Rows, root: RowId, now: int, order: seq<Work>, other: seq<Work>)
    requires root in rows
    requires IsRun(s, Start(s, rows, root), order, now) && After(s, Start(s, rows, root), order, now).pending == {}
    requires IsRun(s, Start(s, rows, root), other, now) && After(s, Start(s, rows, root), other, now).pending == {}
    ensures After(s, Start(s, rows, root), order, now) == After(s, Start(s, rows, root), other, now)
    ensures After(s, Start(s, rows, root), order, now).rows == Aftermath(s, rows, Closure(s, rows, root), now)
  {
    StartKeepsInv(s, rows, root, now);
    RunKeepsInv(s, rows, root, now, Start(s, rows, root), order);
    RunKeepsInv(s, rows, root, now, Start(s, rows, root), other);
    FinishedIsAftermath(s, rows, root, now, After(s, Start(s, rows, root), order, now));
    FinishedIsAftermath(s, rows, root, now, After(s, Start(s, rows, root), other, now));
  }

  /** Every run can be continued until the work is used up, on a cyclic graph too. */
  lemma {:induction false} EveryRunCanFinish(s: Schema, rows: Rows, root: RowId, now: int,
                                             st: State) returns (order: seq<Work>)
    requires Inv(s, rows, root, now, st)
    ensures IsRun(s, st, order, now) && After(s, st, order, now).pending == {}
    decreases |st.rows|, |st.pending|
  {
    if st.pending == {} {
      order := [];
    } else {
      var w :| w in st.pending;
      StepKeepsInv(s, rows, root, now, st, w);
      StepDecreases(s, st, w, now);
      var rest := EveryRunCanFinish(s, rows, root, now, Step(s, st, w, now));
      order := [w] + rest;
      assert order[1..] == rest;
    }
  }

  // ---------------------------------------------------------------- consequences

  /** A row reached by CASCADE is gone even when another of its columns is SET NULL. */
  lemma CascadeBeatsSetNull(s: Schema, rows: Rows, root: RowId, now: int, x: RowId, f: Field, y: RowId)
    requires root in rows && y in Closure(s, rows, root)
    requires Refers(s, rows, x, f, y) && ActionOf(s, x, f) == Cascade
    ensures DeleteOutcome(s, rows, root, now).Accepted? ==> x !in DeleteOutcome(s, rows, root, now).rows
  {
    assert CascadesTo(s, rows, y, x);
    ExtendPath(s, rows, root, y, x);
  }

  /** An accepted delete leaves no dangling reference and no NULL in a NOT NULL column. */
  lemma DeleteKeepsValid(s: Schema, rows: Rows, root: RowId, now: int)
    requires WellFormed(s) && Valid(s, rows) && DeleteOutcome(s, rows, root, now).Accepted?
    ensures Valid(s, DeleteOutcome(s, rows, root, now).rows)
  {
    if root in rows {
      var gone := Closure(s, rows, root);
      var after := Aftermath(s, rows, gone, now);
      ClosureIsLeast(s, rows, root);
      forall x, f, y | Refers(s, after, x, f, y) ensures y in after {
        assert Refers(s, rows, x, f, y) && f !in Cleared(s, rows, x, gone);
        if y in gone && ActionOf(s, x, f) == Cascade {
          assert CascadesTo(s, rows, y, x);
        }
      }
      forall x, k | x in after && k in s.keys && k.table == x.table && s.keys[k].notNull
        ensures k.name in after[x].refs
      {
        assert k == Column(x.table, k.name);
      }
    }
  }

  /** A row other than the root goes only because of a CASCADE reference to a row that goes. */
  lemma GoesByCascade(s: Schema, rows: Rows, root: RowId, x: RowId)
    requires x in Closure(s, rows, root) && x != root
    ensures exists y :: y in Closure(s, rows, root) && CascadesTo(s, rows, y, x)
  {
    var p :| CascadePath(s, rows, p) && p[0] == root && p[|p| - 1] == x;
    var q := p[..|p| - 1];
    assert CascadePath(s, rows, q) && q[0] == root;
    assert q[|q| - 1] == p[|p| - 2] && CascadesTo(s, rows, p[|p| - 2], p[|p| - 1]);
  }

  lemma NothingGoesWithoutRoot(s: Schema, rows: Rows, root: RowId)
    requires root !in rows
    ensures Closure(s, rows, root) == {}
  {
    forall x ensures !Doomed(s, rows, root, x) {
      if p :| CascadePath(s, rows, p) && p[0] == root && p[|p| - 1] == x {
        assert false;
      }
    }
  }

  /** SET NULL reaches column f of x: its reference is to a row that goes. */
  ghost predicate LosesReference(s: Schema, rows: Rows, root: RowId, x: RowId, f: Field) {
    exists y :: y in Closure(s, rows, root) && Refers(s, rows, x, f, y) && ActionOf(s, x, f) == SetNull
  }

  lemma ClearedExactly(s: Schema, rows: Rows, root: RowId, x: RowId, f: Field)
    requires x in rows
    ensures f in Cleared(s, rows, x, Closure(s, rows, root)) <==> LosesReference(s, rows, root, x, f)
  {
    var gone := Closure(s, rows, root);
    if f in Cleared(s, rows, x, gone) {
      assert Refers(s, rows, x, f, RowId(s.keys[Column(x.table, f)].target, rows[x].refs[f]));
    }
  }

  /** A delete is rejected if and only if a row that stays has a NO ACTION reference to one that would go. */
  lemma RejectedExactly(s: Schema, rows: Rows, root: RowId, now: int)
    ensures DeleteOutcome(s, rows, root, now).Rejected? <==>
      exists x, f, y :: x !in Closure(s, rows, root) && y in Closure(s, rows, root) && Refers(s, rows, x, f, y)
        && ActionOf(s, x, f) == NoAction
  {
    if root !in rows {
      NothingGoesWithoutRoot(s, rows, root);
    }
  }

  /** Exactly the rows outside the closure survive an accepted delete; where the root is absent, all do, unchanged. */
  lemma SurvivorsExactly(s: Schema, rows: Rows, root: RowId, now: int, x: RowId)
    requires DeleteOutcome(s, rows, root, now).Accepted?
    ensures x in DeleteOutcome(s, rows, root, now).rows <==> x in rows && x !in Closure(s, rows, root)
    ensures root !in rows ==> DeleteOutcome(s, rows, root, now).rows == rows
  {
    if root !in rows {
      NothingGoesWithoutRoot(s, rows, root);
    }
  }

  /**
    Survivors keep everything but the references that SET NULL clears, and those that lose
    one get the time of the delete where the table has the trigger.
   */
  lemma SurvivorsKeepTheRest(s: Schema, rows: Rows, root: RowId, now: int, x: RowId)
    requires DeleteOutcome(s, rows, root, now).Accepted? && x in DeleteOutcome(s, rows, root, now).rows
    ensures x in rows
    ensures var row := DeleteOutcome(s, rows, root, now).rows[x];
      && row.data == rows[x].data
      && (forall f :: f in row.refs <==> f in rows[x].refs && !LosesReference(s, rows, root, x, f))
      && (forall f :: f in row.refs ==> row.refs[f] == rows[x].refs[f])
      && row.updatedAt == if x.table in s.stamped && row.refs != rows[x].refs then now else rows[x].updatedAt
  {
    SurvivorsExactly(s, rows, root, now, x);
    var gone, row := Closure(s, rows, root), DeleteOutcome(s, rows, root, now).rows[x];
    forall f ensures f in Cleared(s, rows, x, gone) <==> LosesReference(s, rows, root, x, f) {
      ClearedExactly(s, rows, root, x, f);
    }
    if root !in rows {
      NothingGoesWithoutRoot(s, rows, root);
    } else if Cleared(s, rows, x, gone) != {} {
      var f :| f in Cleared(s, rows, x, gone);
      assert f in rows[x].refs && f !in row.refs;
    }
  }

  /** A row with no CASCADE reference to what goes outlives it, and loses its SET NULL references to it. */
  lemma OutlivesAndIsCleared(s: Schema, rows: Rows, root: RowId, now: int, x: RowId, f: Field, y: RowId)
    requires DeleteOutcome(s, rows, root, now).Accepted? && x != root && y in Closure(s, rows, root)
    requires Refers(s, rows, x, f, y) && ActionOf(s, x, f) == SetNull
    requires forall g, z :: Refers(s, rows, x, g, z) && ActionOf(s, x, g) == Cascade ==> z !in Closure(s, rows, root)
    ensures var after := DeleteOutcome(s, rows, root, now).rows; x in after && f !in after[x].refs && y !in after
  {
    if x in Closure(s, rows, root) {
      GoesByCascade(s, rows, root, x);
    }
    SurvivorsExactly(s, rows, root, now, x);
    SurvivorsExactly(s, rows, root, now, y);
    SurvivorsKeepTheRest(s, rows, root, now, x);
    assert LosesReference(s, rows, root, x, f);
  }

  // ---------------------------------------------------------------- the mutable store

  class Store {
    const schema: Schema
    var rows: Rows

    constructor (schema: Schema, rows: Rows)
      ensures this.schema == schema && this.rows == rows
    {
      this.schema := schema;
      this.rows := rows;
    }

    /** DELETE FROM root.table WHERE id = root.id */
    method Delete(root: RowId, now: int) returns (accepted: bool)
      requires WellFormed(schema) && Valid(schema, rows)
      modifies this`rows
      ensures Valid(schema, rows)
      ensures match DeleteOutcome(schema, old(rows), root, now)
        case Accepted(after) => accepted && rows == after
        case Rejected => !accepted && rows == old(rows)
    {
      if root !in rows {
        return true;
      }
      ghost var before := rows;
      var snapshot := rows;
      var pending := WorkFor(schema, {root});
      rows := rows - {root};
      StartKeepsInv(schema, before, root, now);
      while pending != {}
        invariant Inv(schema, before, root, now, State(rows, pending))
        decreases |rows|, |pending|
      {
        var w :| w in pending;
        StepKeepsInv(schema, before, root, now, State(rows, pending), w);
        StepDecreases(schema, State(rows, pending), w, now);
        var next := Step(schema, State(rows, pending), w, now);
        rows, pending := next.rows, next.pending;
      }
      FinishedIsAftermath(schema, before, root, now, State(rows, pending));
      FindsBlocked(schema, before, root, now);
      if LeavesDangling(schema, snapshot, rows) {
        rows := snapshot;
        return false;
      }
      DeleteKeepsValid(schema, before, root, now);
      return true;
    }
  }

  /** The check at the end of the statement: a remaining row held a NO ACTION reference to a row now missing. */
  predicate LeavesDangling(s: Schema, before: Rows, rows: Rows) {
    exists x, k :: x in rows && x in before && k in s.keys && k.table == x.table && s.keys[k].onDelete == NoAction
      && k.name in before[x].refs && RowId(s.keys[k].target, before[x].refs[k.name]) in before
      && RowId(s.keys[k].target, before[x].refs[k.name]) !in rows
  }

  lemma FindsBlocked(s: Schema, rows: Rows, root: RowId, now: int)
    ensures var gone := Closure(s, rows, root);
      LeavesDangling(s, rows, Aftermath(s, rows, gone, now)) <==> Blocked(s, rows, gone)
  {
    var gone := Closure(s, rows, root);
    var after := Aftermath(s, rows, gone, now);
    if LeavesDangling(s, rows, after) {
      var x, k :| x in after && x in rows && k in s.keys && k.table == x.table && s.keys[k].onDelete == NoAction
        && k.name in rows[x].refs && RowId(s.keys[k].target, rows[x].refs[k.name]) in rows
        && RowId(s.keys[k].target, rows[x].refs[k.name]) !in after;
      assert k == Column(x.table, k.name);
      assert Refers(s, rows, x, k.name, RowId(s.keys[k].target, rows[x].refs[k.name]));
    }
    if Blocked(s, rows, gone) {
      var x, f, y :| x !in gone && y in gone && Refers(s, rows, x, f, y) && ActionOf(s, x, f) == NoAction;
      var k := Column(x.table, f);
      assert x in after && k in s.keys && y in rows && y !in after;
    }
  }
}
