/**
  Row-level security on api_usage: policy expressions in SQL's three-valued logic, the two
  versions of the four policies, and what a sequence of statements can observe.
 */
module RowSecurity {
  // ---------------------------------------------------------------- policy expressions

  datatype Truth = True | False | Unknown

  /** The value of a configuration setting; current_setting(name, TRUE) of an unset name is NULL. */
  datatype Setting = Null | Text(value: string)

  datatype Expr =
    | WorkspaceIsContext       // workspace_id::text = current_setting('app.current_workspace_id', TRUE)
    | ContextIsNull            // current_setting('app.current_workspace_id', TRUE) IS NULL
    | Or(left: Expr, right: Expr)

  function Disjoin(a: Truth, b: Truth): Truth {
    if a == True || b == True then True
    else if a == False && b == False then False
    else Unknown
  }

  function Eval(e: Expr, workspace: string, context: Setting): Truth {
    match e
    case WorkspaceIsContext =>
      (match context
       case Null => Unknown
       case Text(w) => if workspace == w then True else False)
    case ContextIsNull => if context == Null then True else False
    case Or(a, b) => Disjoin(Eval(a, workspace, context), Eval(b, workspace, context))
  }

  // ---------------------------------------------------------------- policies in the catalog

  datatype Command = Select | Insert | Update | Delete

  /** One policy for each command; a command without a policy is denied. */
  type Policies = map<Command, Expr>

  predicate Admits(p: Policies, c: Command, workspace: string, context: Setting) {
    c in p && Eval(p[c], workspace, context) == True
  }

  function Same(e: Expr): Policies {
    map[Select := e, Insert := e, Update := e, Delete := e]
  }

  const FIXED: Policies := Same(WorkspaceIsContext)
  const BYPASS: Policies := Same(Or(WorkspaceIsContext, ContextIsNull))

  /** Isolation: the four names that the migrations use, workspace_isolation_<command>_policy. */
  datatype PolicyName = Isolation(command: Command) | Other(name: string)

  datatype Policy = Policy(command: Command, expr: Expr)

  /** The policies of the table as the catalog has them, by name. */
  type Catalogued = map<PolicyName, Policy>

  /** Policies for one command are permissive: one that admits the row is enough. */
  predicate Permits(ps: Catalogued, c: Command, workspace: string, context: Setting) {
    exists n <- ps :: ps[n].command == c && Eval(ps[n].expr, workspace, context) == True
  }

  function Named(e: Expr): Catalogued {
    map c: Command :: Isolation(c) := Policy(c, e)
  }

  lemma InNamed(e: Expr, n: PolicyName)
    ensures n in Named(e) <==> n.Isolation?
    ensures n.Isolation? ==> Named(e)[n] == Policy(n.command, e)
  {
  }

  lemma InSame(e: Expr, c: Command, workspace: string, context: Setting)
    ensures Admits(Same(e), c, workspace, context) <==> Eval(e, workspace, context) == True
  {
  }

  class PolicyCatalog {
    var policies: Catalogued

    /** DROP POLICY IF EXISTS */
    method DropPolicy(n: PolicyName)
      modifies this
      ensures policies == old(policies) - {n}
    {
      policies := policies - {n};
    }

    /** CREATE POLICY fails when the name is taken. */
    method CreatePolicy(n: PolicyName, c: Command, e: Expr) returns (ok: bool)
      modifies this
      ensures ok == (n !in old(policies))
      ensures policies == if ok then old(policies)[n := Policy(c, e)] else old(policies)
    {
      ok := n !in policies;
      if ok {
        policies := policies[n := Policy(c, e)];
      }
    }

    /** Drops the four policies and creates them again; this never fails, and other policies stay. */
    method Replace(e: Expr) returns (ok: bool)
      modifies this
      ensures ok && policies == old(policies) + Named(e)
    {
      DropPolicy(Isolation(Select));
      DropPolicy(Isolation(Insert));
      DropPolicy(Isolation(Update));
      DropPolicy(Isolation(Delete));
      var ok1 := CreatePolicy(Isolation(Select), Select, e);
      var ok2 := CreatePolicy(Isolation(Insert), Insert, e);
      var ok3 := CreatePolicy(Isolation(Update), Update, e);
      var ok4 := CreatePolicy(Isolation(Delete), Delete, e);
      ok := ok1 && ok2 && ok3 && ok4;
      forall n ensures n in policies <==> n in old(policies) || n.Isolation?
        ensures n in policies ==> policies[n] == if n.Isolation? then Policy(n.command, e) else old(policies)[n]
        ensures n in Named(e) <==> n.Isolation?
      {
        InNamed(e, n);
        if n.Isolation? {
          match n.command
          case Select =>
          case Insert =>
          case Update =>
          case Delete =>
        }
      }
    }

    method Up() returns (ok: bool)
      modifies this
      ensures ok && policies == old(policies) + Named(WorkspaceIsContext)
    {
      ok := Replace(WorkspaceIsContext);
    }

    method Down() returns (ok: bool)
      modifies this
      ensures ok && policies == old(policies) + Named(Or(WorkspaceIsContext, ContextIsNull))
    {
      ok := Replace(Or(WorkspaceIsContext, ContextIsNull));
    }
  }

  /** After either migration a row is admitted by the new policies, or by a policy of another name. */
  lemma WhatIsPermitted(ps: Catalogued, e: Expr, c: Command, workspace: string, context: Setting)
    ensures Permits(ps + Named(e), c, workspace, context) <==>
      Admits(Same(e), c, workspace, context) || Permits(ps - Named(e).Keys, c, workspace, context)
  {
    var others, all := ps - Named(e).Keys, ps + Named(e);
    InSame(e, c, workspace, context);
    forall n ensures n in others <==> n in ps && !n.Isolation?
      ensures n in all <==> n in ps || n.Isolation?
      ensures n in all ==> all[n] == if n.Isolation? then Policy(n.command, e) else others[n]
    {
      InNamed(e, n);
    }
    assert Isolation(c) in all;
  }

  /** So the decisions are those of FIXED if and only if no other policy admits a row that is not the context's. */
  lemma FixedExactlyWithoutWiderPolicies(ps: Catalogued)
    ensures var others := ps - Named(WorkspaceIsContext).Keys;
      (forall c, w, context ::
         Permits(ps + Named(WorkspaceIsContext), c, w, context) <==> Admits(FIXED, c, w, context)) <==>
      (forall c, w, context :: Permits(others, c, w, context) ==> context == Text(w))
  {
    var others := ps - Named(WorkspaceIsContext).Keys;
    forall c, w, context
      ensures Permits(ps + Named(WorkspaceIsContext), c, w, context) <==>
        Admits(FIXED, c, w, context) || Permits(others, c, w, context)
      ensures Admits(FIXED, c, w, context) <==> context == Text(w)
    {
      WhatIsPermitted(ps, WorkspaceIsContext, c, w, context);
      AdmitsFixed(c, w, context);
    }
  }

  // ---------------------------------------------------------------- statements

  /** A row of api_usage; data stands for the columns other than the key and the workspace. */
  datatype Row = Row(workspace: string, data: int)

  type Table = map<int, Row>

  datatype Statement =
    | Query(where: (int, Row) -> bool)
    | Add(id: int, row: Row)
    | Change(where: (int, Row) -> bool, set_: Row -> Row)
    | Remove(where: (int, Row) -> bool)

  datatype Output = Rows(rows: Table) | Affected(count: int) | PolicyViolation | DuplicateKey

  datatype Effect = Effect(table: Table, output: Output)

  /** The rows that pass the WHERE clause and the policies: SELECT's, and the command's own. */
  function Targets(p: Policies, c: Command, context: Setting, where: (int, Row) -> bool, t: Table): set<int> {
    set i | i in t && where(i, t[i]) && Admits(p, Select, t[i].workspace, context)
      && Admits(p, c, t[i].workspace, context)
  }

  /**
    One statement under a context.  UPDATE has no WITH CHECK clause, so its USING clause, and
    that of SELECT, also check the new rows; a row that fails a check makes the statement fail.
   */
  function Exec(p: Policies, context: Setting, st: Statement, t: Table): Effect {
    match st
    case Query(where) =>
      var hits := Targets(p, Select, context, where, t);
      Effect(t, Rows(map i | i in hits :: t[i]))
    case Add(id, row) =>
      if !Admits(p, Insert, row.workspace, context) then Effect(t, PolicyViolation)
      else if id in t then Effect(t, DuplicateKey)
      else Effect(t[id := row], Affected(1))
    case Change(where, set_) =>
      var hits := Targets(p, Update, context, where, t);
      if exists i <- hits ::
           !Admits(p, Update, set_(t[i]).workspace, context) || !Admits(p, Select, set_(t[i]).workspace, context)
      then Effect(t, PolicyViolation)
      else Effect(map i | i in t :: if i in hits then set_(t[i]) else t[i], Affected(|hits|))
    case Remove(where) =>
      var hits := Targets(p, Delete, context, where, t);
      Effect(t - hits, Affected(|hits|))
  }

  /** A statement together with the context of the session that issues it. */
  datatype Request = Request(context: Setting, statement: Statement)

  datatype Run = Run(table: Table, outputs: seq<Output>)

  function Execute(p: Policies, t: Table, trace: seq<Request>): Run
    decreases |trace|
  {
    if trace == [] then Run(t, [])
    else
      var e := Exec(p, trace[0].context, trace[0].statement, t);
      var rest := Execute(p, e.table, trace[1..]);
      Run(rest.table, [e.output] + rest.outputs)
  }

  // ---------------------------------------------------------------- what the policies guard

  /** SQL's OR: TRUE if a side is, FALSE if both are. */
  lemma OrExactly(a: Expr, b: Expr, workspace: string, context: Setting)
    ensures var x, y, r := Eval(a, workspace, context), Eval(b, workspace, context), Eval(Or(a, b), workspace, context);
      (r == True <==> x == True || y == True) && (r == False <==> x == False && y == False)
  {
  }

  /** The row passes the policies of both commands. */
  predicate AdmitsBoth(p: Policies, c: Command, row: Row, context: Setting) {
    Admits(p, Select, row.workspace, context) && Admits(p, c, row.workspace, context)
  }

  /** Whatever the policies are, what a statement reads, adds, changes or removes has passed those of its command. */
  lemma PoliciesGuard(p: Policies, context: Setting, st: Statement, t: Table, i: int)
    ensures var e := Exec(p, context, st, t);
      && (e.output.Rows? && i in e.output.rows ==>
            i in t && e.output.rows[i] == t[i] && Admits(p, Select, t[i].workspace, context))
      && (i !in t && i in e.table ==> Admits(p, Insert, e.table[i].workspace, context))
      && (i in t && i in e.table && e.table[i] != t[i] ==>
            AdmitsBoth(p, Update, t[i], context) && AdmitsBoth(p, Update, e.table[i], context))
      && (i in t && i !in e.table ==> AdmitsBoth(p, Delete, t[i], context))
  {
  }

  /** And they stop nothing else: an admitted row is reached, and only a row that is not admitted fails a check. */
  lemma PoliciesStopNothingElse(p: Policies, context: Setting, st: Statement, t: Table, i: int)
    ensures var e := Exec(p, context, st, t);
      && (st.Query? && i in t && st.where(i, t[i]) && Admits(p, Select, t[i].workspace, context) ==> i in e.output.rows)
      && (st.Remove? && i in t && st.where(i, t[i]) && AdmitsBoth(p, Delete, t[i], context) ==> i !in e.table)
      && (st.Change? && i in t && st.where(i, t[i]) && AdmitsBoth(p, Update, t[i], context) ==>
            e.output == PolicyViolation || (i in e.table && e.table[i] == st.set_(t[i])))
      && (e.output == PolicyViolation <==>
            || (st.Add? && !Admits(p, Insert, st.row.workspace, context))
            || (st.Change? && exists j <- t ::
                  st.where(j, t[j]) && AdmitsBoth(p, Update, t[j], context)
                  && !AdmitsBoth(p, Update, st.set_(t[j]), context)))
      && (e.output == DuplicateKey <==> st.Add? && Admits(p, Insert, st.row.workspace, context) && st.id in t)
  {
  }

  // ---------------------------------------------------------------- the two versions

  lemma AdmitsFixed(c: Command, workspace: string, context: Setting)
    ensures Admits(FIXED, c, workspace, context) <==> context == Text(workspace)
  {
  }

  lemma AdmitsBypass(c: Command, workspace: string, context: Setting)
    ensures Admits(BYPASS, c, workspace, context) <==> context == Text(workspace) || context == Null
  {
    var own, unset := Eval(WorkspaceIsContext, workspace, context), Eval(ContextIsNull, workspace, context);
    assert Eval(Or(WorkspaceIsContext, ContextIsNull), workspace, context) == Disjoin(own, unset);
  }

  /** The two versions admit the same rows exactly when the context is not NULL; NULL denies all or allows all. */
  lemma VersionsDifferOnNull(c: Command, workspace: string, context: Setting)
    ensures Admits(FIXED, c, workspace, context) == Admits(BYPASS, c, workspace, context) <==> context != Null
    ensures !Admits(FIXED, c, workspace, Null) && Admits(BYPASS, c, workspace, Null)
  {
    AdmitsFixed(c, workspace, context);
    AdmitsBypass(c, workspace, context);
    AdmitsFixed(c, workspace, Null);
    AdmitsBypass(c, workspace, Null);
  }

  lemma SameTargets(c: Command, context: Setting, where: (int, Row) -> bool, t: Table)
    requires context != Null
    ensures Targets(FIXED, c, context, where, t) == Targets(BYPASS, c, context, where, t)
  {
    forall i ensures i in Targets(FIXED, c, context, where, t) <==> i in Targets(BYPASS, c, context, where, t) {
      if i in t {
        VersionsDifferOnNull(Select, t[i].workspace, context);
        VersionsDifferOnNull(c, t[i].workspace, context);
      }
    }
  }

  lemma SameEffect(context: Setting, st: Statement, t: Table)
    requires context != Null
    ensures Exec(FIXED, context, st, t) == Exec(BYPASS, context, st, t)
  {
    match st
    case Query(where) => SameTargets(Select, context, where, t);
    case Add(id, row) => VersionsDifferOnNull(Insert, row.workspace, context);
    case Change(where, set_) =>
      SameTargets(Update, context, where, t);
      forall i <- Targets(FIXED, Update, context, where, t), c <- {Update, Select}
        ensures Admits(FIXED, c, set_(t[i]).workspace, context) == Admits(BYPASS, c, set_(t[i]).workspace, context)
      {
        VersionsDifferOnNull(c, set_(t[i]).workspace, context);
      }
    case Remove(where) => SameTargets(Delete, context, where, t);
  }

  /** On a run whose contexts are never NULL the two versions give the same outputs and tables. */
  lemma {:induction false} VersionsAgreeOnRuns(t: Table, trace: seq<Request>)
    requires forall i :: 0 <= i < |trace| ==> trace[i].context != Null
    ensures Execute(FIXED, t, trace) == Execute(BYPASS, t, trace)
    decreases |trace|
  {
    if trace != [] {
      SameEffect(trace[0].context, trace[0].statement, t);
      VersionsAgreeOnRuns(Exec(FIXED, trace[0].context, trace[0].statement, t).table, trace[1..]);
    }
  }

  /** What the statement would do on a table without row-level security. */
  function Unrestricted(st: Statement, t: Table): Effect {
    match st
    case Query(where) => Effect(t, Rows(map i | i in t && where(i, t[i]) :: t[i]))
    case Add(id, row) => if id in t then Effect(t, DuplicateKey) else Effect(t[id := row], Affected(1))
    case Change(where, set_) =>
      Effect(map i | i in t :: if where(i, t[i]) then set_(t[i]) else t[i],
             Affected(|set i | i in t && where(i, t[i])|))
    case Remove(where) =>
      var hits := set i | i in t && where(i, t[i]);
      Effect(t - hits, Affected(|hits|))
  }

  lemma NullTargets(c: Command, where: (int, Row) -> bool, t: Table)
    ensures Targets(FIXED, c, Null, where, t) == {}
    ensures Targets(BYPASS, c, Null, where, t) == set i | i in t && where(i, t[i])
  {
    forall i
      ensures i !in Targets(FIXED, c, Null, where, t)
      ensures i in Targets(BYPASS, c, Null, where, t) <==> i in t && where(i, t[i])
    {
      if i in t {
        VersionsDifferOnNull(Select, t[i].workspace, Null);
        VersionsDifferOnNull(c, t[i].workspace, Null);
      }
    }
  }

  /** What a statement returns that finds no row and may write none. */
  function Denied(st: Statement): Output {
    match st
    case Query(_) => Rows(map[])
    case Add(_, _) => PolicyViolation
    case _ => Affected(0)
  }

  /** On a NULL context the fixed policies deny everything and the bypass policies allow everything. */
  lemma NullContext(st: Statement, t: Table)
    ensures Exec(FIXED, Null, st, t) == Effect(t, Denied(st))
    ensures Exec(BYPASS, Null, st, t) == Unrestricted(st, t)
  {
    match st
    case Query(where) =>
      NullTargets(Select, where, t);
      assert Exec(BYPASS, Null, st, t).output.rows == Unrestricted(st, t).output.rows;
    case Add(id, row) => VersionsDifferOnNull(Insert, row.workspace, Null);
    case Change(where, set_) =>
      NullTargets(Update, where, t);
      forall i <- Targets(BYPASS, Update, Null, where, t), c <- {Update, Select}
        ensures Admits(BYPASS, c, set_(t[i]).workspace, Null)
      {
        VersionsDifferOnNull(c, set_(t[i]).workspace, Null);
      }
    case Remove(where) => NullTargets(Delete, where, t);
  }

  // ---------------------------------------------------------------- isolation

  /** The rows of workspace w. */
  function View(t: Table, w: string): Table {
    map i | i in t && t[i].workspace == w :: t[i]
  }

  lemma FixedTargets(c: Command, context: Setting, where: (int, Row) -> bool, t: Table)
    ensures forall i :: i in Targets(FIXED, c, context, where, t) <==>
      i in t && where(i, t[i]) && context == Text(t[i].workspace)
  {
    forall i
      ensures i in Targets(FIXED, c, context, where, t) <==> i in t && where(i, t[i]) && context == Text(t[i].workspace)
    {
      if i in t {
        AdmitsFixed(Select, t[i].workspace, context);
        AdmitsFixed(c, t[i].workspace, context);
      }
    }
  }

  /** The context is none of the workspaces that the statement could read or write. */
  predicate Foreign(context: Setting, st: Statement, t: Table) {
    (forall i <- t :: context != Text(t[i].workspace)) && (st.Add? ==> context != Text(st.row.workspace))
  }

  lemma ForeignTargets(c: Command, context: Setting, where: (int, Row) -> bool, t: Table)
    requires forall i <- t :: context != Text(t[i].workspace)
    ensures Targets(FIXED, c, context, where, t) == {}
  {
    forall i ensures i !in Targets(FIXED, c, context, where, t) {
      if i in t {
        AdmitsFixed(c, t[i].workspace, context);
      }
    }
  }

  /** A statement under such a context is denied, whatever it is, and changes nothing. */
  lemma ForeignContext(context: Setting, st: Statement, t: Table)
    requires Foreign(context, st, t)
    ensures Exec(FIXED, context, st, t) == Effect(t, Denied(st))
  {
    match st
    case Query(where) => ForeignTargets(Select, context, where, t);
    case Add(id, row) => AdmitsFixed(Insert, row.workspace, context);
    case Change(where, set_) => ForeignTargets(Update, context, where, t);
    case Remove(where) => ForeignTargets(Delete, context, where, t);
  }

  /** A statement under w hits the same rows in the whole table as among the rows of w. */
  lemma ViewTargets(c: Command, w: string, where: (int, Row) -> bool, t: Table)
    ensures Targets(FIXED, c, Text(w), where, t) == Targets(FIXED, c, Text(w), where, View(t, w))
    ensures forall i :: i in Targets(FIXED, c, Text(w), where, t) ==> i in t && t[i].workspace == w
  {
    FixedTargets(c, Text(w), where, t);
    FixedTargets(c, Text(w), where, View(t, w));
    forall i ensures i in Targets(FIXED, c, Text(w), where, t) <==> i in Targets(FIXED, c, Text(w), where, View(t, w)) {
    }
  }

  /** An insert into the own workspace under an id that a row of another workspace already uses. */
  predicate TakesForeignId(w: string, st: Statement, t: Table) {
    st.Add? && st.row.workspace == w && st.id in t && t[st.id].workspace != w
  }

  /**
    One statement under w acts as it would on the rows of w alone, in what it returns and in
    what it leaves, if and only if it does not insert under an id in use elsewhere: the
    duplicate-key error tells that such a row exists.
   */
  lemma OwnRowsAlone(w: string, st: Statement, t: Table)
    ensures var whole, own := Exec(FIXED, Text(w), st, t), Exec(FIXED, Text(w), st, View(t, w));
      whole.output == own.output && View(whole.table, w) == own.table <==> !TakesForeignId(w, st, t)
  {
    var v := View(t, w);
    match st {
      case Query(where) => ViewTargets(Select, w, where, t);
      case Add(id, row) => AdmitsFixed(Insert, row.workspace, Text(w));
      case Change(where, set_) => ChangeOwnRows(w, where, set_, t);
      case Remove(where) => ViewTargets(Delete, w, where, t);
    }
  }

  /** The statement writes a row of another workspace. */
  predicate WritesElsewhere(w: string, st: Statement, t: Table) {
    match st
    case Add(_, row) => row.workspace != w
    case Change(where, set_) => exists i <- t :: where(i, t[i]) && set_(t[i]).workspace != w
    case _ => false
  }

  lemma OwnTargets(c: Command, w: string, where: (int, Row) -> bool, t: Table)
    requires forall i <- t :: t[i].workspace == w
    ensures Targets(FIXED, c, Text(w), where, t) == set i | i in t && where(i, t[i])
  {
    FixedTargets(c, Text(w), where, t);
    forall i ensures i in Targets(FIXED, c, Text(w), where, t) <==> i in t && where(i, t[i]) {
      assert i in t ==> t[i].workspace == w;
    }
  }

  /**
    On w's own rows the policies refuse what writes elsewhere and nothing else: every other
    statement does what it does without row-level security.
   */
  lemma OwnRowsUnrestricted(w: string, st: Statement, t: Table)
    requires forall i <- t :: t[i].workspace == w
    ensures Exec(FIXED, Text(w), st, t) ==
      if WritesElsewhere(w, st, t) then Effect(t, PolicyViolation) else Unrestricted(st, t)
  {
    match st {
      case Query(where) =>
        OwnTargets(Select, w, where, t);
        assert Exec(FIXED, Text(w), st, t).output.rows == Unrestricted(st, t).output.rows;
      case Add(id, row) => AdmitsFixed(Insert, row.workspace, Text(w));
      case Change(where, set_) => ChangeUnrestricted(w, where, set_, t);
      case Remove(where) =>
        OwnTargets(Delete, w, where, t);
    }
  }

  lemma ChangeUnrestricted(w: string, where: (int, Row) -> bool, set_: Row -> Row, t: Table)
    requires forall i <- t :: t[i].workspace == w
    ensures Exec(FIXED, Text(w), Change(where, set_), t) ==
      if WritesElsewhere(w, Change(where, set_), t) then Effect(t, PolicyViolation)
      else Unrestricted(Change(where, set_), t)
  {
    OwnTargets(Update, w, where, t);
    var hits := Targets(FIXED, Update, Text(w), where, t);
    forall i <- hits, c <- {Update, Select}
      ensures Admits(FIXED, c, set_(t[i]).workspace, Text(w)) <==> set_(t[i]).workspace == w
    {
      AdmitsFixed(c, set_(t[i]).workspace, Text(w));
    }
  }

  lemma ChangeOwnRows(w: string, where: (int, Row) -> bool, set_: Row -> Row, t: Table)
    ensures var st := Change(where, set_);
      var whole, own := Exec(FIXED, Text(w), st, t), Exec(FIXED, Text(w), st, View(t, w));
      whole.output == own.output && View(whole.table, w) == own.table
  {
    var v := View(t, w);
    ViewTargets(Update, w, where, t);
    var hits := Targets(FIXED, Update, Text(w), where, t);
    forall i <- hits
      ensures Admits(FIXED, Update, set_(t[i]).workspace, Text(w)) <==> set_(t[i]).workspace == w
      ensures Admits(FIXED, Select, set_(t[i]).workspace, Text(w)) <==> set_(t[i]).workspace == w
    {
      AdmitsFixed(Update, set_(t[i]).workspace, Text(w));
      AdmitsFixed(Select, set_(t[i]).workspace, Text(w));
    }
    var whole, own := Exec(FIXED, Text(w), Change(where, set_), t), Exec(FIXED, Text(w), Change(where, set_), v);
    if whole.output != PolicyViolation {
      assert forall i <- hits :: set_(t[i]).workspace == w;
      assert own.table == map i | i in v :: if i in hits then set_(v[i]) else v[i];
      assert View(whole.table, w) == own.table;
    }
  }

  lemma SameView(t: Table, u: Table, w: string)
    requires forall i :: i in t && t[i].workspace == w ==> i in u && u[i] == t[i]
    requires forall i :: i in u && u[i].workspace == w ==> i in t && u[i] == t[i]
    ensures View(t, w) == View(u, w)
  {
    var a, b := View(t, w), View(u, w);
    assert forall i :: (i in a <==> i in b) && (i in a ==> a[i] == b[i]);
  }

  /** A statement under any other context, unset included, leaves the rows of w as they are. */
  lemma OthersUntouched(context: Setting, st: Statement, t: Table, w: string)
    requires context != Text(w)
    ensures View(Exec(FIXED, context, st, t).table, w) == View(t, w)
  {
    match st
    case Query(where) =>
    case Add(id, row) => AdmitsFixed(Insert, row.workspace, context);
    case Change(where, set_) =>
      FixedTargets(Update, context, where, t);
      var hits := Targets(FIXED, Update, context, where, t);
      forall i <- hits ensures Admits(FIXED, Update, set_(t[i]).workspace, context) ==> set_(t[i]).workspace != w {
        AdmitsFixed(Update, set_(t[i]).workspace, context);
      }
      SameView(Exec(FIXED, context, st, t).table, t, w);
    case Remove(where) =>
      FixedTargets(Delete, context, where, t);
      SameView(Exec(FIXED, context, st, t).table, t, w);
  }

  /** The statements of w, in order. */
  function Own(trace: seq<Request>, w: string): seq<Request>
    decreases |trace|
  {
    if trace == [] then []
    else (if trace[0].context == Text(w) then [trace[0]] else []) + Own(trace[1..], w)
  }

  /** The outputs that the statements of w receive, in order. */
  function OwnOutputs(trace: seq<Request>, outputs: seq<Output>, w: string): seq<Output>
    requires |trace| == |outputs|
    decreases |trace|
  {
    if trace == [] then []
    else (if trace[0].context == Text(w) then [outputs[0]] else []) + OwnOutputs(trace[1..], outputs[1..], w)
  }

  lemma {:induction false} OneOutputEach(p: Policies, t: Table, trace: seq<Request>)
    ensures |Execute(p, t, trace).outputs| == |trace|
    decreases |trace|
  {
    if trace != [] {
      OneOutputEach(p, Exec(p, trace[0].context, trace[0].statement, t).table, trace[1..]);
    }
  }

  /** No statement of w inserts under an id that another workspace uses at that moment. */
  ghost predicate FreshIds(t: Table, trace: seq<Request>, w: string)
    decreases |trace|
  {
    trace == [] || (
      && (trace[0].context == Text(w) ==> !TakesForeignId(w, trace[0].statement, t))
      && FreshIds(Exec(FIXED, trace[0].context, trace[0].statement, t).table, trace[1..], w))
  }

  /**
    Non-interference, for whatever the other sessions do in between: the statements of w
    receive what they would receive if they ran alone on w's own rows, if and only if none of
    them inserts under an id that another workspace uses.  They then leave w's rows the same.
   */
  lemma {:induction false} NonInterference(t: Table, trace: seq<Request>, w: string)
    ensures |Execute(FIXED, t, trace).outputs| == |trace|
    ensures var all, alone := Execute(FIXED, t, trace), Execute(FIXED, View(t, w), Own(trace, w));
      && (OwnOutputs(trace, all.outputs, w) == alone.outputs <==> FreshIds(t, trace, w))
      && (FreshIds(t, trace, w) ==> View(all.table, w) == alone.table)
    decreases |trace|
  {
    OneOutputEach(FIXED, t, trace);
    if trace == [] {
    } else {
      var request := trace[0];
      var e := Exec(FIXED, request.context, request.statement, t);
      var rest := Execute(FIXED, e.table, trace[1..]);
      NonInterference(e.table, trace[1..], w);
      assert ([e.output] + rest.outputs)[1..] == rest.outputs;
      if request.context == Text(w) {
        OwnStatementFirst(t, trace, w);
        var alone := Exec(FIXED, Text(w), request.statement, View(t, w));
        SameFirstAndRest(e.output, OwnOutputs(trace[1..], rest.outputs, w),
                         alone.output, Execute(FIXED, alone.table, Own(trace[1..], w)).outputs);
      } else {
        OthersUntouched(request.context, request.statement, t, w);
        assert Own(trace, w) == Own(trace[1..], w);
      }
    }
  }

  lemma SameFirstAndRest(a: Output, s: seq<Output>, b: Output, t: seq<Output>)
    ensures [a] + s == [b] + t <==> a == b && s == t
  {
    assert ([a] + s)[0] == a && ([a] + s)[1..] == s;
    assert ([b] + t)[0] == b && ([b] + t)[1..] == t;
  }

  /** The first statement is w's: its output is the one it gets alone unless it takes a foreign id. */
  lemma OwnStatementFirst(t: Table, trace: seq<Request>, w: string)
    requires trace != [] && trace[0].context == Text(w)
    ensures var st, own := trace[0].statement, Own(trace, w);
      var whole, alone := Exec(FIXED, Text(w), st, t), Exec(FIXED, Text(w), st, View(t, w));
      && own[0] == trace[0] && own[1..] == Own(trace[1..], w)
      && (whole.output == alone.output <==> !TakesForeignId(w, st, t))
      && (!TakesForeignId(w, st, t) ==> View(whole.table, w) == alone.table)
  {
    var st := trace[0].statement;
    OwnRowsAlone(w, st, t);
    if TakesForeignId(w, st, t) {
      AdmitsFixed(Insert, st.row.workspace, Text(w));
    }
  }

  /** Two tables that agree on w's rows give w the same outputs and the same rows, whatever else they hold. */
  lemma OnlyOwnRowsMatter(t: Table, u: Table, trace: seq<Request>, w: string)
    requires View(t, w) == View(u, w) && FreshIds(t, trace, w) && FreshIds(u, trace, w)
    ensures |Execute(FIXED, t, trace).outputs| == |Execute(FIXED, u, trace).outputs| == |trace|
    ensures OwnOutputs(trace, Execute(FIXED, t, trace).outputs, w) ==
      OwnOutputs(trace, Execute(FIXED, u, trace).outputs, w)
    ensures View(Execute(FIXED, t, trace).table, w) == View(Execute(FIXED, u, trace).table, w)
  {
    NonInterference(t, trace, w);
    NonInterference(u, trace, w);
  }
}
