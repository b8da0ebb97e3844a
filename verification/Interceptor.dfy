/**
  WorkspaceContextInterceptor: copies the workspace of the authenticated user into the
  request and brackets the handler with two set_config calls on connections of the pool.
 */
module Interceptor {
  import opened Prelude
  import opened RowSecurity
  import opened ConnectionPool

  class Request {
    /** request.user?.workspaceId */
    const userWorkspaceId: Option<string>
    var workspaceId: Option<string>

    constructor (userWorkspaceId: Option<string>)
      ensures this.userWorkspaceId == userWorkspaceId && workspaceId == None
    {
      this.userWorkspaceId := userWorkspaceId;
      workspaceId := None;
    }

    /** The value is neither missing nor the empty string. */
    predicate HasWorkspace() {
      userWorkspaceId.Some? && userWorkspaceId.value != ""
    }
  }

  class DataSource {
    var conns: Pool
    /** Everything that happened on the pool so far, requests interleaved. */
    ghost var trace: seq<Event>

    ghost predicate Valid()
      reads this
    {
      conns == PerformAll(map[], trace)
    }

    constructor ()
      ensures Valid() && trace == []
    {
      conns := map[];
      trace := [];
    }

    method Execute(e: Event)
      requires Valid()
      modifies this
      ensures Valid() && trace == old(trace) + [e]
    {
      conns := Perform(conns, e);
      trace := trace + [e];
      assert trace[..|trace| - 1] == old(trace);
    }

    method ExecuteAll(events: seq<Event>)
      requires Valid()
      modifies this
      ensures Valid() && trace == old(trace) + events
    {
      var i := 0;
      while i < |events|
        invariant 0 <= i <= |events|
        invariant Valid() && trace == old(trace) + events[..i]
      {
        Execute(events[i]);
        i := i + 1;
        assert events[..i] == events[..i - 1] + [events[i - 1]];
      }
      assert events[..i] == events;
    }
  }

  datatype Response = Handled | SecurityContextFailed

  /** How the two set_config calls of one request turn out, and on which connections they run. */
  datatype Calls = Calls(setOn: ConnId, setFails: bool, clearOn: ConnId, clearFails: bool)

  /** set_config(..., NULL, TRUE), after the request. */
  function ClearCall(calls: Calls): Event {
    Event(calls.clearOn, if calls.clearFails then Failure else SetLocal(Null))
  }

  /** What one request with workspace w adds to the trace; handler is what happens while it is handled. */
  function Bracket(w: string, calls: Calls, handler: seq<Event>): seq<Event> {
    [Event(calls.setOn, if calls.setFails then Failure else SetLocal(Text(w)))]
    + (if calls.setFails then [] else handler)
    + [ClearCall(calls)]
  }

  /**
    The call e may follow the trace: no session scope, and transaction scope only on a
    connection with no open transaction.
   */
  ghost predicate Permitted(trace: seq<Event>, e: Event) {
    !e.action.SetSession? && (e.action.SetLocal? ==> !Begun(On(trace, e.conn)))
  }

  /** Each event is permitted after those before it; transactions may be open, as long as no set_config runs in one. */
  ghost predicate AllPermitted(before: seq<Event>, events: seq<Event>) {
    forall i :: 0 <= i < |events| ==> Permitted(before + events[..i], events[i])
  }

  /** So far, every set_config call on every connection was a statement of its own. */
  ghost predicate IdleCalls(trace: seq<Event>) {
    forall c :: LocalOnly(On(trace, c)) && AutocommitOnly(On(trace, c))
  }

  lemma PermittedKeepsIdle(trace: seq<Event>, e: Event)
    requires IdleCalls(trace) && Permitted(trace, e)
    ensures IdleCalls(trace + [e])
  {
    var more := trace + [e];
    assert more[..|more| - 1] == trace;
    forall c ensures LocalOnly(On(more, c)) && AutocommitOnly(On(more, c)) {
      var h := On(trace, c);
      assert LocalOnly(h) && AutocommitOnly(h);
      if e.conn == c {
        var g := h + [e.action];
        assert g[..|h|] == h && forall j :: 0 <= j < |h| ==> g[..j] == h[..j];
      } else {
        assert On(more, c) == h;
      }
    }
  }

  lemma {:induction false} AllPermittedKeepIdle(before: seq<Event>, events: seq<Event>)
    requires IdleCalls(before) && AllPermitted(before, events)
    ensures IdleCalls(before + events)
    decreases |events|
  {
    if events == [] {
      assert before + events == before;
    } else {
      var k := |events| - 1;
      forall i | 0 <= i < k ensures Permitted(before + events[..k][..i], events[..k][i]) {
        assert events[..k][..i] == events[..i];
      }
      AllPermittedKeepIdle(before, events[..k]);
      PermittedKeepsIdle(before + events[..k], events[k]);
      assert before + events[..k] + [events[k]] == before + events;
    }
  }

  /**
    However requests are interleaved and whatever transactions their handlers open: as long
    as every set_config call is a transaction-scoped statement of its own, as the
    interceptor's are, no query on any connection ever sees a row.
   */
  lemma NoQuerySeesARow(before: seq<Event>, events: seq<Event>, c: ConnId, r: Row)
    requires IdleCalls(before) && AllPermitted(before, events) && r.workspace != ""
    ensures !Sees(At(PerformAll(map[], before + events), c), r)
  {
    AllPermittedKeepIdle(before, events);
    AutocommitContextIsLost(before + events, c, r);
  }

  /**
    Nor does any other statement find or write a row, on a table whose rows have workspaces:
    an INSERT is refused, an UPDATE or DELETE affects no row, and the table stays as it is.
   */
  lemma EveryStatementIsDenied(before: seq<Event>, events: seq<Event>, c: ConnId, st: RowSecurity.Statement, t: Table)
    requires IdleCalls(before) && AllPermitted(before, events)
    requires (forall i <- t :: t[i].workspace != "") && (st.Add? ==> st.row.workspace != "")
    ensures Exec(FIXED, Current(At(PerformAll(map[], before + events), c)), st, t) == Effect(t, Denied(st))
  {
    var h := On(before + events, c);
    AllPermittedKeepIdle(before, events);
    ConnectionsAreIndependent(map[], before + events, c);
    AutocommitIsUnset(h);
    ForeignContext(Current(After(NEW, h)), st, t);
  }

  /**
    At every point of a bracketed request no query on any connection sees a row, the
    workspace's own included: the isolation fails closed.
   */
  lemma HandlersSeeNothing(before: seq<Event>, w: string, calls: Calls, handler: seq<Event>, seen: nat, c: ConnId,
                           r: Row)
    requires IdleCalls(before) && AllPermitted(before, Bracket(w, calls, handler))
    requires seen <= |Bracket(w, calls, handler)| && r.workspace != ""
    ensures !Sees(At(PerformAll(map[], before + Bracket(w, calls, handler)[..seen]), c), r)
  {
    var b := Bracket(w, calls, handler);
    forall i | 0 <= i < seen ensures Permitted(before + b[..seen][..i], b[..seen][i]) {
      assert b[..seen][..i] == b[..i];
    }
    NoQuerySeesARow(before, b[..seen], c, r);
  }

  /**
    What queries see once `events` have followed `before`: where no session-scoped call
    occurs, what their own open transaction has set; nothing at all if every set_config call
    was a statement of its own.
   */
  ghost predicate Observed(conns: Pool, before: seq<Event>, events: seq<Event>) {
    && (forall c, r: Row :: LocalOnly(On(before + events, c)) && r.workspace != "" ==>
          (Sees(At(conns, c), r) <==> SetInOpenTransaction(On(before + events, c), Text(r.workspace))))
    && (IdleCalls(before) && AllPermitted(before, events) ==>
          forall c, r: Row :: r.workspace != "" ==> !Sees(At(conns, c), r))
  }

  lemma WhatIsObserved(before: seq<Event>, events: seq<Event>)
    ensures Observed(PerformAll(map[], before + events), before, events)
  {
    var trace := before + events;
    forall c, r: Row | LocalOnly(On(trace, c)) && r.workspace != ""
      ensures Sees(At(PerformAll(map[], trace), c), r) <==> SetInOpenTransaction(On(trace, c), Text(r.workspace))
    {
      PoolIsolation(trace, c, r);
    }
    forall c, r: Row | IdleCalls(before) && AllPermitted(before, events) && r.workspace != ""
      ensures !Sees(At(PerformAll(map[], trace), c), r)
    {
      NoQuerySeesARow(before, events, c, r);
    }
  }

  /** The two calls around the handler.  A failing set stops the request; the clear runs in any case. */
  method Enclose(w: string, pool: DataSource, calls: Calls, handler: seq<Event>) returns (response: Response)
    requires pool.Valid()
    modifies pool
    ensures pool.Valid() && pool.trace == old(pool.trace) + Bracket(w, calls, handler)
    ensures response == if calls.setFails then SecurityContextFailed else Handled
  {
    if calls.setFails {
      pool.Execute(Event(calls.setOn, Failure));
      response := SecurityContextFailed;
    } else {
      pool.Execute(Event(calls.setOn, SetLocal(Text(w))));
      pool.ExecuteAll(handler);
      response := Handled;
    }
    pool.Execute(ClearCall(calls));
  }

  /** What a request adds to the trace; without a workspace it is the handler's events alone. */
  function Adds(workspace: Option<string>, calls: Calls, handler: seq<Event>): seq<Event> {
    if workspace.Some? && workspace.value != "" then Bracket(workspace.value, calls, handler) else handler
  }

  /**
    `intercept`.  A request without a workspace goes straight to the handler; otherwise its
    calls enclose the handler's, and the failure of the set is the response.
   */
  method Intercept(request: Request, pool: DataSource, calls: Calls, handler: seq<Event>) returns (response: Response)
    requires pool.Valid()
    modifies request, pool
    ensures pool.Valid()
    // no workspace: nothing but the handler
    ensures request.userWorkspaceId == None || request.userWorkspaceId == Some("") ==>
      response == Handled && request.workspaceId == old(request.workspaceId) && pool.trace == old(pool.trace) + handler
    ensures request.userWorkspaceId.Some? && request.userWorkspaceId.value != "" ==>
      && request.workspaceId == request.userWorkspaceId
      && response == (if calls.setFails then SecurityContextFailed else Handled)
      && |pool.trace| >= 2
      && pool.trace[|pool.trace| - 1] == Event(calls.clearOn, if calls.clearFails then Failure else SetLocal(Null))
      && pool.trace[..|pool.trace| - 1] == old(pool.trace)
           // a failing set keeps the handler out
           + if calls.setFails then [Event(calls.setOn, Failure)]
             else [Event(calls.setOn, SetLocal(Text(request.userWorkspaceId.value)))] + handler
    ensures Observed(pool.conns, old(pool.trace), Adds(request.userWorkspaceId, calls, handler))
  {
    if request.HasWorkspace() {
      request.workspaceId := request.userWorkspaceId;
      response := Enclose(request.userWorkspaceId.value, pool, calls, handler);
    } else {
      pool.ExecuteAll(handler);
      response := Handled;
    }
    WhatIsObserved(old(pool.trace), Adds(request.userWorkspaceId, calls, handler));
  }
}
