/**
  The setting app.current_workspace_id on the connections of a pool: set_config with
  transaction and with session scope, and what the statements of each connection can see.
 */
module ConnectionPool {
  import opened Prelude
  import opened RowSecurity

  // ---------------------------------------------------------------- one connection

  /**
    Idle: no transaction is open.  Open: session is the value set with session scope inside
    the transaction, local the value set with transaction scope; after a failed statement the
    transaction accepts nothing but its end.
   */
  datatype Tx = Idle | Open(session: Option<Setting>, local: Option<Setting>, failed: bool)

  datatype Conn = Conn(tx: Tx, session: Setting)

  datatype Action =
    | Begin
    | Commit
    | Rollback
    | SetLocal(value: Setting)       // set_config(name, value, TRUE)
    | SetSession(value: Setting)     // set_config(name, value, FALSE)
    | Statement                      // any other statement that succeeds
    | Failure                        // any other statement that fails

  const NEW: Conn := Conn(Idle, Null)

  /** A setting that was once set and then lost its value reads as the empty string, not as NULL. */
  predicate Unset(s: Setting) {
    s == Null || s == Text("")
  }

  /** What a setting reads as once a set_config has touched it: NULL resets it to the empty string. */
  function Residue(s: Setting): Setting {
    if s == Null then Text("") else s
  }

  /** current_setting('app.current_workspace_id', TRUE) */
  function Current(c: Conn): Setting {
    match c.tx
    case Idle => c.session
    case Open(session, local, _) =>
      if local.Some? then local.value else if session.Some? then session.value else c.session
  }

  function EndOfTransaction(c: Conn, commit: bool): Conn
    requires c.tx.Open?
  {
    if commit && !c.tx.failed && c.tx.session.Some? then Conn(Idle, c.tx.session.value)
    else if c.tx.session.Some? || c.tx.local.Some? then Conn(Idle, Residue(c.session))
    else Conn(Idle, c.session)
  }

  function Step(c: Conn, a: Action): Conn {
    match a
    case Begin => if c.tx.Idle? then c.(tx := Open(None, None, false)) else c
    case Commit => if c.tx.Idle? then c else EndOfTransaction(c, true)
    case Rollback => if c.tx.Idle? then c else EndOfTransaction(c, false)
    case SetLocal(v) =>
      // outside a transaction the statement is a transaction of its own
      if c.tx.Idle? then Conn(Idle, Residue(c.session))
      else if c.tx.failed then c
      else c.(tx := c.tx.(local := Some(Residue(v))))
    case SetSession(v) =>
      if c.tx.Idle? then Conn(Idle, Residue(v))
      else if c.tx.failed then c
      else c.(tx := c.tx.(session := Some(Residue(v)), local := None))
    case Statement => c
    case Failure => if c.tx.Idle? then c else c.(tx := c.tx.(failed := true))
  }

  function After(c: Conn, h: seq<Action>): Conn
    decreases |h|
  {
    if h == [] then c else Step(After(c, h[..|h| - 1]), h[|h| - 1])
  }

  lemma {:induction false} AfterConcat(c: Conn, h: seq<Action>, g: seq<Action>)
    ensures After(c, h + g) == After(After(c, h), g)
    decreases |g|
  {
    if g == [] {
      assert h + g == h;
    } else {
      var all := h + g;
      assert all[..|all| - 1] == h + g[..|g| - 1];
      AfterConcat(c, h, g[..|g| - 1]);
    }
  }

  /** A query on the connection sees row r of its snapshot; in a failed transaction no query runs. */
  predicate SeesUnder(p: Policies, c: Conn, r: Row) {
    !(c.tx.Open? && c.tx.failed) && Admits(p, Select, r.workspace, Current(c))
  }

  predicate Sees(c: Conn, r: Row) {
    SeesUnder(FIXED, c, r)
  }

  // ---------------------------------------------------------------- transaction scope

  predicate EndsTransaction(a: Action) {
    a == Commit || a == Rollback
  }

  /** A transaction is open at the end of h. */
  ghost predicate Begun(h: seq<Action>) {
    exists i :: 0 <= i < |h| && h[i] == Begin && forall k :: i < k < |h| ==> !EndsTransaction(h[k])
  }

  /** h[i] opened the transaction that is still open at the end of h, and no statement failed in it. */
  ghost predicate Alive(h: seq<Action>, i: int) {
    && 0 <= i < |h| && h[i] == Begin && !Begun(h[..i])
    && forall k :: i < k < |h| ==> !EndsTransaction(h[k]) && h[k] != Failure
  }

  ghost predicate SomeAlive(h: seq<Action>) {
    exists i :: Alive(h, i)
  }

  /** A call with transaction scope after which the setting reads as v. */
  predicate Sets(a: Action, v: Setting) {
    a.SetLocal? && Residue(a.value) == v
  }

  /** v is the value last set with transaction scope inside the open, unfailed transaction. */
  ghost predicate SetInOpenTransaction(h: seq<Action>, v: Setting) {
    exists i, j :: i < j < |h| && Alive(h, i) && Sets(h[j], v) && forall k :: j < k < |h| ==> !h[k].SetLocal?
  }

  lemma BegunStep(h: seq<Action>, a: Action)
    ensures Begun(h + [a]) <==> a == Begin || (Begun(h) && !EndsTransaction(a))
  {
    var g := h + [a];
    if i :| 0 <= i < |g| && g[i] == Begin && forall k :: i < k < |g| ==> !EndsTransaction(g[k]) {
      if i < |h| {
        assert h[i] == Begin && forall k :: i < k < |h| ==> h[k] == g[k];
        assert g[|h|] == a;
      }
    }
    if a == Begin {
      assert g[|h|] == Begin;
    }
    if i :| 0 <= i < |h| && h[i] == Begin && forall k :: i < k < |h| ==> !EndsTransaction(h[k]) {
      assert g[i] == Begin;
    }
  }

  lemma AliveStep(h: seq<Action>, a: Action, i: int)
    ensures Alive(h + [a], i) <==>
      if i == |h| then a == Begin && !Begun(h) else Alive(h, i) && !EndsTransaction(a) && a != Failure
  {
    var g := h + [a];
    if 0 <= i <= |h| {
      assert g[..i] == h[..i];
      assert i == |h| ==> h[..i] == h;
    }
    if i < |h| && Alive(g, i) {
      assert g[|h|] == a && h[i] == g[i];
      assert forall k :: i < k < |h| ==> g[k] == h[k];
    }
  }

  lemma SomeAliveStep(h: seq<Action>, a: Action)
    ensures SomeAlive(h + [a]) <==> (a == Begin && !Begun(h)) || (SomeAlive(h) && !EndsTransaction(a) && a != Failure)
  {
    if i :| Alive(h + [a], i) {
      AliveStep(h, a, i);
    }
    AliveStep(h, a, |h|);
    if i :| Alive(h, i) {
      AliveStep(h, a, i);
    }
  }

  lemma SetStep(h: seq<Action>, a: Action, v: Setting)
    ensures SetInOpenTransaction(h + [a], v) <==>
      if a.SetLocal? then Sets(a, v) && SomeAlive(h)
      else SetInOpenTransaction(h, v) && !EndsTransaction(a) && a != Failure
  {
    var g := h + [a];
    assert g[|h|] == a;
    if SetInOpenTransaction(g, v) {
      var i, j :| i < j < |g| && Alive(g, i) && Sets(g[j], v) && forall k :: j < k < |g| ==> !g[k].SetLocal?;
      AliveStep(h, a, i);
      if !a.SetLocal? {
        assert j < |h| && h[j] == g[j];
        assert forall k :: j < k < |h| ==> g[k] == h[k];
      }
    }
    if Sets(a, v) && SomeAlive(h) {
      var i :| Alive(h, i);
      AliveStep(h, a, i);
    }
    if !a.SetLocal? && SetInOpenTransaction(h, v) && !EndsTransaction(a) && a != Failure {
      var i, j :| i < j < |h| && Alive(h, i) && Sets(h[j], v) && forall k :: j < k < |h| ==> !h[k].SetLocal?;
      AliveStep(h, a, i);
      assert g[j] == h[j];
      assert forall k :: j < k < |g| ==> !g[k].SetLocal?;
    }
  }

  lemma NoSetWithoutTransaction(h: seq<Action>, v: Setting)
    ensures SetInOpenTransaction(h, v) ==> SomeAlive(h)
    ensures SomeAlive(h) ==> Begun(h)
  {
  }

  /** Whether a transaction is open, and whether it has failed, follows from the history alone. */
  ghost predicate TxReflects(c: Conn, h: seq<Action>) {
    (c.tx.Open? <==> Begun(h)) && (c.tx.Open? && !c.tx.failed <==> SomeAlive(h))
  }

  lemma {:induction false} StateReflectsTransaction(h: seq<Action>)
    ensures TxReflects(After(NEW, h), h)
    decreases |h|
  {
    if h != [] {
      var front, a := h[..|h| - 1], h[|h| - 1];
      StateReflectsTransaction(front);
      BegunStep(front, a);
      SomeAliveStep(front, a);
      assert front + [a] == h;
    }
  }

  /** What the state of a connection says about its history, when no session-scoped call occurs. */
  ghost predicate Reflects(c: Conn, h: seq<Action>) {
    && TxReflects(c, h)
    && Unset(c.session)
    && (c.tx.Open? ==> c.tx.session.None?)
    && (forall v :: SetInOpenTransaction(h, v) <==> c.tx.Open? && !c.tx.failed && c.tx.local == Some(v))
  }

  lemma ReflectsStep(c: Conn, h: seq<Action>, a: Action)
    requires Reflects(c, h) && !a.SetSession?
    ensures Reflects(Step(c, a), h + [a])
  {
    BegunStep(h, a);
    SomeAliveStep(h, a);
    forall v
      ensures SetInOpenTransaction(h + [a], v) <==>
        Step(c, a).tx.Open? && !Step(c, a).tx.failed && Step(c, a).tx.local == Some(v)
    {
      SetStep(h, a, v);
      NoSetWithoutTransaction(h, v);
    }
  }

  /** No session-scoped call occurs in h. */
  predicate LocalOnly(h: seq<Action>) {
    forall i :: 0 <= i < |h| ==> !h[i].SetSession?
  }

  lemma {:induction false} StateReflectsHistory(h: seq<Action>)
    requires LocalOnly(h)
    ensures Reflects(After(NEW, h), h)
    decreases |h|
  {
    if h != [] {
      var front, a := h[..|h| - 1], h[|h| - 1];
      StateReflectsHistory(front);
      ReflectsStep(After(NEW, front), front, a);
      assert front + [a] == h;
    }
  }

  /**
    Pool invariant, for one connection and any history of it: outside a transaction there is
    no context, and a query sees a row if and only if the row's workspace was the value last
    set inside the transaction that is open, with no failure in it.
   */
  lemma SeesOnlyWhatItsTransactionSet(h: seq<Action>, r: Row)
    requires LocalOnly(h) && r.workspace != ""
    ensures Sees(After(NEW, h), r) <==> SetInOpenTransaction(h, Text(r.workspace))
    ensures !Begun(h) ==> Unset(Current(After(NEW, h)))
  {
    StateReflectsHistory(h);
    var c := After(NEW, h);
    AdmitsFixed(Select, r.workspace, Current(c));
  }

  // ---------------------------------------------------------------- the NULL context

  /** A set_config of either scope had an effect: it ran outside a transaction, or in one that had not failed. */
  ghost predicate TookEffect(h: seq<Action>) {
    exists j :: 0 <= j < |h| && IsSet(h[j]) && (!Begun(h[..j]) || SomeAlive(h[..j]))
  }

  predicate IsSet(a: Action) {
    a.SetLocal? || a.SetSession?
  }

  lemma TookEffectStep(h: seq<Action>, a: Action)
    ensures TookEffect(h + [a]) <==> TookEffect(h) || (IsSet(a) && (!Begun(h) || SomeAlive(h)))
  {
    var g := h + [a];
    assert g[|h|] == a && g[..|h|] == h;
    forall j | 0 <= j < |h| ensures g[j] == h[j] && g[..j] == h[..j] {
    }
  }

  /** No set_config has reached the connection. */
  predicate Untouched(c: Conn) {
    c.session == Null && (c.tx.Open? ==> c.tx.session == None && c.tx.local == None)
  }

  predicate NoNullSet(c: Conn) {
    c.tx.Open? ==> c.tx.session != Some(Null) && c.tx.local != Some(Null)
  }

  lemma UntouchedStep(c: Conn, a: Action)
    requires NoNullSet(c)
    ensures NoNullSet(Step(c, a))
    ensures Untouched(Step(c, a)) <==> Untouched(c) && !(IsSet(a) && (c.tx.Idle? || !c.tx.failed))
  {
  }

  lemma {:induction false} UntouchedUntilSet(h: seq<Action>)
    ensures var c := After(NEW, h); NoNullSet(c) && (Untouched(c) <==> !TookEffect(h))
    decreases |h|
  {
    if h != [] {
      var front, a := h[..|h| - 1], h[|h| - 1];
      assert front + [a] == h;
      UntouchedUntilSet(front);
      UntouchedStep(After(NEW, front), a);
      StateReflectsTransaction(front);
      TookEffectStep(front, a);
    }
  }

  /** The context of a connection is NULL until the first set_config that takes effect, and never again. */
  lemma ContextIsNullUntilSet(h: seq<Action>)
    ensures Current(After(NEW, h)) == Null <==> !TookEffect(h)
  {
    UntouchedUntilSet(h);
  }

  /** No query runs at the end of h: its transaction is open and has failed. */
  ghost predicate HasFailed(h: seq<Action>) {
    Begun(h) && !SomeAlive(h)
  }

  /** A query sees the same rows under both versions once a set_config has taken effect, and where none runs. */
  lemma VersionsDifferUntilSet(h: seq<Action>, r: Row)
    ensures SeesUnder(FIXED, After(NEW, h), r) == SeesUnder(BYPASS, After(NEW, h), r) <==> TookEffect(h) || HasFailed(h)
  {
    ContextIsNullUntilSet(h);
    StateReflectsTransaction(h);
    VersionsDifferOnNull(Select, r.workspace, Current(After(NEW, h)));
  }

  // ---------------------------------------------------------------- session scope

  /** A run of plain statements, in which none fails. */
  predicate OnlyStatements(h: seq<Action>) {
    forall i :: 0 <= i < |h| ==> h[i] == Statement
  }

  lemma {:induction false} StatementsChangeNothing(c: Conn, h: seq<Action>)
    requires OnlyStatements(h)
    ensures After(c, h) == c
    decreases |h|
  {
    if h != [] {
      StatementsChangeNothing(c, h[..|h| - 1]);
    }
  }

  /**
    A value set with session scope lasts: over any statements, and over COMMIT if the call was
    in a transaction.  ROLLBACK brings back the session value from before, NULL as the empty string.
   */
  lemma SessionScopeLasts(c: Conn, v: Setting, h: seq<Action>)
    requires OnlyStatements(h) && !(c.tx.Open? && c.tx.failed)
    ensures var set_ := After(Step(c, SetSession(v)), h);
      && Current(set_) == Residue(v) && Current(Step(set_, Commit)) == Residue(v) && Step(set_, Commit).tx.Idle?
      && Current(Step(set_, Rollback)) == Residue(if c.tx.Idle? then v else c.session)
  {
    StatementsChangeNothing(Step(c, SetSession(v)), h);
  }

  /** h[b] opened the transaction that is still open at the end of h. */
  ghost predicate OpenedAt(h: seq<Action>, b: int) {
    0 <= b < |h| && h[b] == Begin && !Begun(h[..b]) && forall i :: b < i < |h| ==> !EndsTransaction(h[i])
  }

  lemma {:induction false} Opener(h: seq<Action>) returns (b: int)
    requires Begun(h)
    ensures OpenedAt(h, b)
    decreases |h|
  {
    var i :| 0 <= i < |h| && h[i] == Begin && forall k :: i < k < |h| ==> !EndsTransaction(h[k]);
    if Begun(h[..i]) {
      b := Opener(h[..i]);
      assert forall k :: 0 <= k < i ==> h[..i][k] == h[k];
      assert h[..i][..b] == h[..b];
    } else {
      b := i;
    }
  }

  lemma OneOpener(h: seq<Action>, a: int, b: int)
    requires OpenedAt(h, a) && OpenedAt(h, b)
    ensures a == b
  {
  }

  /** While a transaction is open, the session value from before it is kept aside. */
  lemma {:induction false} SessionIsKeptAside(h: seq<Action>, b: int)
    requires OpenedAt(h, b)
    ensures After(NEW, h[..b]).tx.Idle? && After(NEW, h).session == After(NEW, h[..b]).session
    decreases |h|
  {
    StateReflectsTransaction(h[..b]);
    var front := h[..|h| - 1];
    if b < |h| - 1 {
      assert front[..b] == h[..b];
      SessionIsKeptAside(front, b);
      StateReflectsTransaction(front);
      assert front[b] == Begin && forall i :: b < i < |front| ==> front[i] == h[i];
    }
  }

  /** The transaction open after h[i] ends at e. */
  predicate EndsAt(h: seq<Action>, i: int, e: int) {
    0 <= i < e < |h| && EndsTransaction(h[e]) && forall k :: i < k < e ==> !EndsTransaction(h[k])
  }

  /** It ends with a COMMIT, and no statement in it failed. */
  ghost predicate Commits(h: seq<Action>, i: int) {
    exists e :: EndsAt(h, i, e) && h[e] == Commit && SomeAlive(h[..e])
  }

  /** The session value from before the transaction open at h[i] is unset. */
  ghost predicate UnsetBefore(h: seq<Action>, i: int)
    requires 0 <= i <= |h|
  {
    exists b :: OpenedAt(h[..i], b) && Unset(After(NEW, h[..b]).session)
  }

  predicate StillOpen(h: seq<Action>, i: nat) {
    forall k :: i < k < |h| ==> !EndsTransaction(h[k])
  }

  lemma CommitsBefore(h: seq<Action>, i: int, e: int)
    requires 0 <= e < |h| - 1
    ensures EndsAt(h[..|h| - 1], i, e) <==> EndsAt(h, i, e)
    ensures h[..|h| - 1][e] == h[e] && h[..|h| - 1][..e] == h[..e]
  {
  }

  lemma CommitsStep(h: seq<Action>, i: nat)
    requires i < |h| - 1
    ensures var front, a := h[..|h| - 1], h[|h| - 1];
      Commits(h, i) <==> Commits(front, i) || (StillOpen(front, i) && a == Commit && SomeAlive(front))
  {
    var last := |h| - 1;
    var front := h[..last];
    assert EndsAt(h, i, last) <==> StillOpen(front, i) && EndsTransaction(h[last]);
    forall e | 0 <= e < last ensures EndsAt(front, i, e) <==> EndsAt(h, i, e)
      ensures front[e] == h[e] && front[..e] == h[..e]
    {
      CommitsBefore(h, i, e);
    }
  }

  /** What the session-scoped call at i, the last one in h, has done by the end of h. */
  ghost predicate CallReflected(c: Conn, h: seq<Action>, i: int)
    requires 0 <= i < |h| && h[i].SetSession?
  {
    if Begun(h[..i]) && StillOpen(h, i) then
      c.tx.Open? && (!c.tx.failed ==> c.tx.session == Some(Residue(h[i].value)))
    else
      && (c.tx.Open? ==> c.tx.session.None?)
      && (Unset(c.session) <==> !Begun(h[..i]) || Commits(h, i) || UnsetBefore(h, i))
  }

  lemma CallMade(h: seq<Action>, i: int)
    requires i == |h| - 1 >= 0 && h[i].SetSession? && Unset(h[i].value)
    ensures CallReflected(After(NEW, h), h, i)
  {
    StateReflectsTransaction(h[..i]);
  }

  /** The end of the transaction in which the call was made. */
  lemma CallSettled(h: seq<Action>, i: int)
    requires 0 <= i < |h| - 1 && h[i].SetSession? && Unset(h[i].value)
    requires var front := h[..|h| - 1];
      Begun(h[..i]) && StillOpen(front, i) && CallReflected(After(NEW, front), front, i)
    requires EndsTransaction(h[|h| - 1])
    ensures CallReflected(After(NEW, h), h, i)
  {
    var front := h[..|h| - 1];
    assert front[..i] == h[..i];
    StateReflectsTransaction(front);
    CommitsStep(h, i);
    assert !Commits(front, i);
    var b := Opener(h[..i]);
    assert h[..i][..b] == h[..b] == front[..b];
    forall k | b < k < |front| ensures !EndsTransaction(front[k]) {
      assert k < i ==> h[..i][k] == front[k];
    }
    assert front[b] == h[..i][b];
    assert OpenedAt(front, b);
    SessionIsKeptAside(front, b);
    forall a | OpenedAt(h[..i], a) ensures a == b {
      OneOpener(h[..i], a, b);
    }
    assert UnsetBefore(h, i) <==> Unset(After(NEW, front).session);
  }

  lemma SameBefore(h: seq<Action>, i: int)
    requires 0 <= i < |h|
    ensures UnsetBefore(h[..|h| - 1], i) <==> UnsetBefore(h, i)
  {
    var front := h[..|h| - 1];
    assert forall b :: 0 <= b <= i ==> front[..b] == h[..b];
  }

  /** After the end of that transaction, or when there was none, nothing changes what the call left. */
  lemma CallStays(h: seq<Action>, i: int)
    requires 0 <= i < |h| - 1 && h[i].SetSession? && !h[|h| - 1].SetSession?
    requires var front := h[..|h| - 1];
      !(Begun(h[..i]) && StillOpen(front, i)) && CallReflected(After(NEW, front), front, i)
    ensures CallReflected(After(NEW, h), h, i)
  {
    var front := h[..|h| - 1];
    assert front[..i] == h[..i];
    SameBefore(h, i);
    CommitsStep(h, i);
    assert StillOpen(h, i) ==> StillOpen(front, i);
  }

  lemma CallStep(h: seq<Action>, i: int)
    requires 0 <= i < |h| - 1 && h[i].SetSession? && Unset(h[i].value) && !h[|h| - 1].SetSession?
    requires CallReflected(After(NEW, h[..|h| - 1]), h[..|h| - 1], i)
    ensures CallReflected(After(NEW, h), h, i)
  {
    var front := h[..|h| - 1];
    assert front[..i] == h[..i];
    if !Begun(h[..i]) || !StillOpen(front, i) {
      CallStays(h, i);
    } else if EndsTransaction(h[|h| - 1]) {
      CallSettled(h, i);
    }
  }

  /** No session-scoped call after the one at i. */
  predicate LastCall(h: seq<Action>, i: int) {
    0 <= i < |h| && h[i].SetSession? && forall k :: i < k < |h| ==> !h[k].SetSession?
  }

  lemma {:induction false} CallIsReflected(h: seq<Action>, i: int)
    requires LastCall(h, i) && Unset(h[i].value)
    ensures CallReflected(After(NEW, h), h, i)
    decreases |h|
  {
    if i == |h| - 1 {
      CallMade(h, i);
    } else {
      assert LastCall(h[..|h| - 1], i);
      CallIsReflected(h[..|h| - 1], i);
      CallStep(h, i);
    }
  }

  /**
    Any history of a connection that ends outside a transaction and whose last session-scoped
    call clears the setting: the setting is unset at the end if and only if the clear ran
    outside a transaction, or its transaction committed with no failure in it, or the value
    from before that transaction was unset.
   */
  lemma ClearLasts(h: seq<Action>, i: int)
    requires LastCall(h, i) && Unset(h[i].value) && !Begun(h)
    ensures Unset(Current(After(NEW, h))) <==> !Begun(h[..i]) || Commits(h, i) || UnsetBefore(h, i)
  {
    CallIsReflected(h, i);
    StateReflectsTransaction(h);
  }

  /** The same sequence of calls can leave the context on the connection that goes back to the pool. */
  lemma RollbackBringsTheContextBack(w: string)
    ensures After(NEW, [SetSession(Text(w)), Begin, SetSession(Text("")), Rollback]) == Conn(Idle, Text(w))
  {
    var h := [SetSession(Text(w)), Begin, SetSession(Text("")), Rollback];
    assert h[..1][..0] == [] && h[..2][..1] == h[..1] && h[..3][..2] == h[..2];
    assert After(NEW, h[..1]) == Conn(Idle, Text(w));
    assert After(NEW, h[..3]) == Conn(Open(Some(Text("")), None, false), Text(w));
  }

  /**
    In an open, unfailed transaction the value set last counts, whatever its scope; COMMIT
    keeps a session value only.
   */
  lemma LastSetCounts(c: Conn, v: Setting, w: Setting)
    requires c.tx.Open? && !c.tx.failed
    ensures var local, both := Step(c, SetLocal(w)), Step(Step(c, SetSession(v)), SetLocal(w));
      && Current(local) == Residue(w) == Current(both)
      && Current(Step(both, Commit)) == Residue(v)
      && Current(Step(Step(c, SetLocal(w)), SetSession(v))) == Residue(v)
  {
  }

  /** A session value set outside a transaction outlasts everything but session-scoped calls. */
  lemma {:induction false} SessionValueStays(c: Conn, v: string, g: seq<Action>)
    requires c == Conn(Idle, Text(v)) && LocalOnly(g)
    ensures After(c, g).session == Text(v) && (After(c, g).tx.Open? ==> After(c, g).tx.session.None?)
    decreases |g|
  {
    if g != [] {
      SessionValueStays(c, v, g[..|g| - 1]);
    }
  }

  // ---------------------------------------------------------------- the pool

  type ConnId = int

  /** Every connection starts fresh; those not in the map have not been used. */
  type Pool = map<ConnId, Conn>

  datatype Event = Event(conn: ConnId, action: Action)

  function At(p: Pool, c: ConnId): Conn {
    if c in p then p[c] else NEW
  }

  function Perform(p: Pool, e: Event): Pool {
    p[e.conn := Step(At(p, e.conn), e.action)]
  }

  function PerformAll(p: Pool, trace: seq<Event>): Pool
    decreases |trace|
  {
    if trace == [] then p else Perform(PerformAll(p, trace[..|trace| - 1]), trace[|trace| - 1])
  }

  /** What happens on connection c, in order. */
  function On(trace: seq<Event>, c: ConnId): seq<Action>
    decreases |trace|
  {
    if trace == [] then []
    else On(trace[..|trace| - 1], c) + (if trace[|trace| - 1].conn == c then [trace[|trace| - 1].action] else [])
  }

  /** In every interleaving, a connection's state is that of its own actions alone. */
  lemma {:induction false} ConnectionsAreIndependent(p: Pool, trace: seq<Event>, c: ConnId)
    ensures At(PerformAll(p, trace), c) == After(At(p, c), On(trace, c))
    decreases |trace|
  {
    if trace != [] {
      var front, e := trace[..|trace| - 1], trace[|trace| - 1];
      ConnectionsAreIndependent(p, front, c);
      var h := On(front, c);
      if e.conn == c {
        var g := h + [e.action];
        assert g[..|g| - 1] == h;
      } else {
        assert On(trace, c) == h;
      }
    }
  }

  /**
    Every interleaving of any number of requests over any number of connections, with
    transaction-scoped calls only: a query on c sees exactly the rows of the workspace last
    set in c's own open transaction, and no row if none was set there.
   */
  lemma PoolIsolation(trace: seq<Event>, c: ConnId, r: Row)
    requires LocalOnly(On(trace, c)) && r.workspace != ""
    ensures Sees(At(PerformAll(map[], trace), c), r) <==> SetInOpenTransaction(On(trace, c), Text(r.workspace))
    ensures !Begun(On(trace, c)) ==> Unset(Current(At(PerformAll(map[], trace), c)))
  {
    ConnectionsAreIndependent(map[], trace, c);
    SeesOnlyWhatItsTransactionSet(On(trace, c), r);
  }

  /**
    The same pool under the policies with the NULL bypass: a query on c also sees every row
    until the first set_config on c takes effect, except in a failed transaction.
   */
  lemma PoolUnderBypass(trace: seq<Event>, c: ConnId, r: Row)
    requires LocalOnly(On(trace, c)) && r.workspace != ""
    ensures SeesUnder(BYPASS, At(PerformAll(map[], trace), c), r) <==>
      || SetInOpenTransaction(On(trace, c), Text(r.workspace))
      || (!TookEffect(On(trace, c)) && !HasFailed(On(trace, c)))
  {
    var h := On(trace, c);
    ConnectionsAreIndependent(map[], trace, c);
    SeesOnlyWhatItsTransactionSet(h, r);
    ContextIsNullUntilSet(h);
    StateReflectsTransaction(h);
    AdmitsFixed(Select, r.workspace, Current(After(NEW, h)));
    AdmitsBypass(Select, r.workspace, Current(After(NEW, h)));
  }

  /** What set_workspace_context, the work of a request, clear_workspace_context and later use leave on a connection. */
  function Bracketed(before: seq<Action>, w: string, between: seq<Action>, clear: Setting, rest: seq<Action>)
      : seq<Action>
  {
    before + [SetSession(Text(w))] + between + [SetSession(clear)] + rest
  }

  lemma OpenedAfter(before: seq<Action>, v: Setting, between: seq<Action>, b: int)
    requires !Begun(before) && OpenedAt(before + [SetSession(v)] + between, b)
    ensures b > |before|
  {
    var h := before + [SetSession(v)] + between;
    assert h[|before|] == SetSession(v);
    assert forall k :: 0 <= k < |before| ==> h[k] == before[k];
  }

  lemma SetOutside(before: seq<Action>, v: Setting)
    requires !Begun(before)
    ensures After(NEW, before + [SetSession(v)]) == Conn(Idle, Residue(v))
  {
    var h := before + [SetSession(v)];
    assert h[..|h| - 1] == before;
    StateReflectsTransaction(before);
  }

  /** The value from before the transaction is w's, when w was set outside it. */
  lemma BracketHoldsValue(before: seq<Action>, w: string, between: seq<Action>)
    requires !Begun(before) && LocalOnly(between) && w != ""
    ensures var h := before + [SetSession(Text(w))] + between; !UnsetBefore(h, |h|)
  {
    var set_ := before + [SetSession(Text(w))];
    var h := set_ + between;
    assert h[..|h|] == h;
    forall b | OpenedAt(h, b) ensures !Unset(After(NEW, h[..b]).session) {
      OpenedAfter(before, Text(w), between, b);
      var g := between[..b - |set_|];
      assert h[..b] == set_ + g;
      SetOutside(before, Text(w));
      AfterConcat(NEW, set_, g);
      SessionValueStays(Conn(Idle, Text(w)), w, g);
    }
  }

  /**
    In every interleaving, a connection that the pool gets back after set, any work, clear
    and any later use without session-scoped calls: its setting is unset exactly as
    ClearLasts says.  Where the set ran outside a transaction, that leaves two cases: the
    clear ran outside a transaction too, or its transaction committed with no failure.
   */
  lemma SessionBracket(trace: seq<Event>, c: ConnId, before: seq<Action>, w: string, between: seq<Action>,
                       clear: Setting, rest: seq<Action>)
    requires On(trace, c) == Bracketed(before, w, between, clear, rest)
    requires Unset(clear) && LocalOnly(rest) && !Begun(On(trace, c))
    ensures var h, i := On(trace, c), |before| + 1 + |between|;
      && (Unset(Current(At(PerformAll(map[], trace), c))) <==> !Begun(h[..i]) || Commits(h, i) || UnsetBefore(h, i))
      && (!Begun(before) && LocalOnly(between) && w != "" ==>
            (Unset(Current(At(PerformAll(map[], trace), c))) <==> !Begun(h[..i]) || Commits(h, i)))
  {
    var h, i := On(trace, c), |before| + 1 + |between|;
    assert h[i] == SetSession(clear) && forall k :: i < k < |h| ==> h[k] == rest[k - i - 1];
    ConnectionsAreIndependent(map[], trace, c);
    ClearLasts(h, i);
    var front := before + [SetSession(Text(w))] + between;
    assert h[..i] == front && front[..i] == front;
    if !Begun(before) && LocalOnly(between) && w != "" {
      BracketHoldsValue(before, w, between);
      assert forall b :: 0 <= b <= i ==> h[..b] == front[..b];
      assert !UnsetBefore(h, i);
    }
  }

  /** Every transaction-scoped call runs outside a transaction, as a statement of its own. */
  ghost predicate AutocommitOnly(h: seq<Action>) {
    forall j :: 0 <= j < |h| && h[j].SetLocal? ==> !Begun(h[..j])
  }

  /** A context set as a statement of its own is gone before the next statement: no query ever sees a row. */
  lemma AutocommitContextIsLost(trace: seq<Event>, c: ConnId, r: Row)
    requires LocalOnly(On(trace, c)) && AutocommitOnly(On(trace, c)) && r.workspace != ""
    ensures !Sees(At(PerformAll(map[], trace), c), r)
  {
    PoolIsolation(trace, c, r);
    var h := On(trace, c);
    SetHappensInside(h, Text(r.workspace));
  }

  /** Nor is there a context: the setting is unset at every point, in transactions and between them. */
  lemma {:induction false} AutocommitIsUnset(h: seq<Action>)
    requires LocalOnly(h) && AutocommitOnly(h)
    ensures var c := After(NEW, h); Unset(c.session) && (c.tx.Open? ==> c.tx.session == None && c.tx.local == None)
    decreases |h|
  {
    if h != [] {
      var front := h[..|h| - 1];
      assert forall j :: 0 <= j < |front| ==> front[j] == h[j] && front[..j] == h[..j];
      AutocommitIsUnset(front);
      StateReflectsTransaction(front);
    }
  }

  lemma SetHappensInside(h: seq<Action>, v: Setting)
    ensures SetInOpenTransaction(h, v) ==> exists j :: 0 <= j < |h| && Sets(h[j], v) && Begun(h[..j])
  {
    if SetInOpenTransaction(h, v) {
      var i, j :| i < j < |h| && Alive(h, i) && Sets(h[j], v) && forall k :: j < k < |h| ==> !h[k].SetLocal?;
      var front := h[..j];
      assert front[i] == Begin && forall k :: i < k < |front| ==> front[k] == h[k];
      assert Begun(front);
    }
  }

  /** A context set in the transaction that also runs the queries: they see exactly the rows of w. */
  lemma SharedTransactionSeesOwnRows(before: seq<Action>, w: string, queries: nat, r: Row)
    requires LocalOnly(before) && !Begun(before) && w != "" && r.workspace != ""
    ensures var h := before + [Begin, SetLocal(Text(w))] + seq(queries, _ => Statement);
      LocalOnly(h) && (Sees(After(NEW, h), r) <==> r.workspace == w)
  {
    var h := before + [Begin, SetLocal(Text(w))] + seq(queries, _ => Statement);
    var i := |before|;
    assert h[..i] == before && h[i] == Begin && h[i + 1] == SetLocal(Text(w));
    assert forall k :: i + 1 < k < |h| ==> h[k] == Statement;
    assert LocalOnly(h);
    assert Alive(h, i) && SetInOpenTransaction(h, Text(w));
    StateReflectsHistory(h);
    SeesOnlyWhatItsTransactionSet(h, r);
  }
}
