/**
  Rotation of the BYOK master key: every active row is decrypted under the old settings and
  encrypted under the new ones, in one transaction that commits only when no row failed.
 */
module KeyRotation {
  import opened Prelude
  import opened KeyFormat

  /** A row of byok_secrets, without the columns the script never touches. */
  datatype Secret = Secret(workspace: string, stored: Stored, active: bool, updatedAt: int)

  type Table = map<int, Secret>

  /**
    One run of the script: the settings, the random nonce drawn for each row, the rows whose
    UPDATE the database refuses, and whether COMMIT fails.
   */
  datatype Attempt = Attempt(old_: Settings, new_: Settings, iv: int -> Bytes, refused: int -> bool,
    commitFails: bool, now: int)

  // ---------------------------------------------------------------- what a run means

  function Active(t: Table): set<int> {
    set i | i in t && t[i].active
  }

  /** The row can be decrypted under the old settings and updated. */
  predicate Rotatable(k: Crypto, s: Secret, id: int, a: Attempt) {
    Decrypt(k, s.workspace, s.stored, a.old_).Ok? && !a.refused(id)
  }

  /** The transaction commits: every row fetched is rotatable. */
  predicate Commits(k: Crypto, fetched: Table, a: Attempt) {
    (forall i <- Active(fetched) :: Rotatable(k, fetched[i], i, a)) && !a.commitFails
  }

  function Reencrypted(k: Crypto, s: Secret, id: int, a: Attempt): Stored
    requires Decrypt(k, s.workspace, s.stored, a.old_).Ok?
  {
    Encrypt(k, s.workspace, Decrypt(k, s.workspace, s.stored, a.old_).value, a.iv(id), a.new_)
  }

  /** The rows of `ids` rewritten; t may differ from the table that was fetched. */
  function Rewritten(k: Crypto, fetched: Table, t: Table, ids: set<int>, a: Attempt): Table
    requires ids <= fetched.Keys
    requires forall i <- ids :: Decrypt(k, fetched[i].workspace, fetched[i].stored, a.old_).Ok?
  {
    map i | i in t :: if i in ids then t[i].(stored := Reencrypted(k, fetched[i], i, a), updatedAt := a.now) else t[i]
  }

  /** The table after a run that fetched `fetched` and whose transaction began on t. */
  function AfterRun(k: Crypto, fetched: Table, t: Table, a: Attempt): Table {
    if Commits(k, fetched, a) then Rewritten(k, fetched, t, Active(fetched), a) else t
  }

  // ---------------------------------------------------------------- the transaction

  /** Aborted: a statement failed, and every further one fails until ROLLBACK. */
  datatype Status = Running | Aborted | Committed | RolledBack

  class Database {
    var secrets: Table

    constructor (secrets: Table)
      ensures this.secrets == secrets
    {
      this.secrets := secrets;
    }

    /** SELECT ... WHERE is_active = true, in whatever order the rows come. */
    method FetchActive() returns (keys: seq<(int, Secret)>)
      ensures Lists(keys, secrets, Active(secrets))
    {
      var all := Active(secrets);
      ActiveRows(secrets);
      var todo := all;
      ghost var done: set<int> := {};
      keys := [];
      while todo != {}
        invariant todo + done == all && todo !! done
        invariant Lists(keys, secrets, done)
        decreases todo
      {
        HasElement(todo);
        var i :| i in todo;
        ListsOneMore(keys, secrets, done, i);
        keys, todo, done := keys + [(i, secrets[i])], todo - {i}, done + {i};
      }
      assert done == all;
    }
  }

  lemma ActiveRows(t: Table)
    ensures Active(t) <= t.Keys
  {
  }

  function Ids(keys: seq<(int, Secret)>): set<int> {
    set key <- keys :: key.0
  }

  /** keys lists the rows of t with an id in ids, each of them once. */
  ghost predicate Lists(keys: seq<(int, Secret)>, t: Table, ids: set<int>) {
    && Ids(keys) == ids && |keys| == |ids|
    && forall key <- keys :: key.0 in t && key.1 == t[key.0]
  }

  lemma ListsOneMore(keys: seq<(int, Secret)>, t: Table, ids: set<int>, i: int)
    requires Lists(keys, t, ids) && i !in ids && i in t
    ensures Lists(keys + [(i, t[i])], t, ids + {i})
  {
    var more := keys + [(i, t[i])];
    forall key ensures key in more <==> key in keys || key == (i, t[i]) {
    }
    forall x ensures x in Ids(more) <==> x in ids || x == i {
      if x == i {
        assert (i, t[i]) in more;
      }
      if x in ids {
        var key :| key in keys && key.0 == x;
        assert key in more;
      }
    }
  }

  class Transaction {
    const database: Database
    var working: Table
    var status: Status

    /** startTransaction */
    constructor (database: Database)
      ensures this.database == database && working == database.secrets && status == Running
    {
      this.database := database;
      working := database.secrets;
      status := Running;
    }

    /** UPDATE byok_secrets ... WHERE id = id; updating no row is not an error. */
    method Update(id: int, stored: Stored, now: int, refused: bool) returns (ok: bool)
      requires status == Running || status == Aborted
      modifies this
      ensures ok == (old(status) == Running && !refused)
      ensures status == if ok then Running else Aborted
      ensures working == if ok && id in old(working)
                         then old(working)[id := old(working)[id].(stored := stored, updatedAt := now)]
                           else old(working)
    {
      if status == Aborted || refused {
        status := Aborted;
        return false;
      }
      if id in working {
        working := working[id := working[id].(stored := stored, updatedAt := now)];
      }
      return true;
    }

    /** commitTransaction, issued only while no statement has failed. */
    method Commit(fails: bool) returns (ok: bool)
      requires status == Running
      modifies this, database
      ensures ok == !fails && status == if ok then Committed else Aborted
      ensures database.secrets == if ok then old(working) else old(database.secrets)
    {
      if fails {
        status := Aborted;
        return false;
      }
      database.secrets := working;
      status := Committed;
      return true;
    }

    /** rollbackTransaction */
    method Rollback()
      requires status == Running || status == Aborted
      modifies this
      ensures status == RolledBack
    {
      status := RolledBack;
    }
  }

  // ---------------------------------------------------------------- the script

  /** What one row does to the working table and to the status. */
  ghost predicate RowHandled(k: Crypto, a: Attempt, id: int, key: Secret, working: Table, status: Status, ok: bool,
                             working': Table, status': Status) {
    && (ok <==> status == Running && Rotatable(k, key, id, a))
    && (status == Running || status == Aborted)
    && status' == (if Decrypt(k, key.workspace, key.stored, a.old_).Ok? && !ok then Aborted else status)
    && working' == if ok && id in working
                   then working[id := working[id].(stored := Reencrypted(k, key, id, a), updatedAt := a.now)]
                     else working
  }

  /** The body of the loop: an error is counted, not thrown. */
  method RotateOne(k: Crypto, tx: Transaction, id: int, key: Secret, a: Attempt) returns (ok: bool)
    requires tx.status == Running || tx.status == Aborted
    modifies tx
    ensures RowHandled(k, a, id, key, old(tx.working), old(tx.status), ok, tx.working, tx.status)
  {
    match Decrypt(k, key.workspace, key.stored, a.old_)
    case Err(_) => ok := false;
    case Ok(plaintext) =>
      ok := tx.Update(id, Encrypt(k, key.workspace, plaintext, a.iv(id), a.new_), a.now, a.refused(id));
  }

  /** What the loop keeps: done are the ids handled so far. */
  ghost predicate LoopInv(k: Crypto, fetched: Table, start: Table, a: Attempt, working: Table, status: Status,
                          done: set<int>, errors: int) {
    && done <= fetched.Keys
    && (status == Running || (status == Aborted && errors > 0))
    && (errors == 0 <==> forall i <- done :: Rotatable(k, fetched[i], i, a))
    && (errors == 0 ==> working == Rewritten(k, fetched, start, done, a))
  }

  lemma RewrittenOneMore(k: Crypto, fetched: Table, t: Table, done: set<int>, id: int, a: Attempt)
    requires done <= fetched.Keys && id in fetched && id !in done
    requires forall i <- done :: Decrypt(k, fetched[i].workspace, fetched[i].stored, a.old_).Ok?
    requires Decrypt(k, fetched[id].workspace, fetched[id].stored, a.old_).Ok?
    ensures var before := Rewritten(k, fetched, t, done, a);
      Rewritten(k, fetched, t, done + {id}, a) ==
      if id in before then before[id := before[id].(stored := Reencrypted(k, fetched[id], id, a), updatedAt := a.now)]
      else before
  {
  }

  /** Row n of the list decrypts, but the database refuses its UPDATE; that aborts the transaction. */
  predicate RefusedAt(k: Crypto, keys: seq<(int, Secret)>, a: Attempt, n: int) {
    0 <= n < |keys| && Decrypt(k, keys[n].1.workspace, keys[n].1.stored, a.old_).Ok? && a.refused(keys[n].0)
  }

  /** An UPDATE of one of the first n rows was refused. */
  predicate AbortedBy(k: Crypto, keys: seq<(int, Secret)>, a: Attempt, n: int) {
    exists m: int :: 0 <= m < n && RefusedAt(k, keys, a, m)
  }

  /** Row n counts as an error: it does not decrypt, or an UPDATE was refused by then. */
  predicate FailsAt(k: Crypto, keys: seq<(int, Secret)>, a: Attempt, n: int) {
    0 <= n < |keys| &&
      (Decrypt(k, keys[n].1.workspace, keys[n].1.stored, a.old_).Err? || AbortedBy(k, keys, a, n + 1))
  }

  /** The errors among the first n rows. */
  function Failures(k: Crypto, keys: seq<(int, Secret)>, a: Attempt, n: nat): set<int> {
    set i: int | 0 <= i < n && FailsAt(k, keys, a, i)
  }

  lemma NoFailureYet(k: Crypto, keys: seq<(int, Secret)>, a: Attempt)
    ensures Failures(k, keys, a, 0) == {} && !AbortedBy(k, keys, a, 0)
  {
  }

  lemma OneFailureMore(k: Crypto, keys: seq<(int, Secret)>, a: Attempt, n: nat)
    ensures |Failures(k, keys, a, n + 1)| == |Failures(k, keys, a, n)| + if FailsAt(k, keys, a, n) then 1 else 0
  {
    var before, after := Failures(k, keys, a, n), Failures(k, keys, a, n + 1);
    if FailsAt(k, keys, a, n) {
      assert after == before + {n};
    } else {
      assert after == before;
    }
  }

  lemma OneRowMore(k: Crypto, keys: seq<(int, Secret)>, a: Attempt, n: nat)
    requires n < |keys|
    ensures AbortedBy(k, keys, a, n + 1) <==> AbortedBy(k, keys, a, n) || RefusedAt(k, keys, a, n)
    ensures FailsAt(k, keys, a, n) <==> AbortedBy(k, keys, a, n) || !Rotatable(k, keys[n].1, keys[n].0, a)
    ensures |Failures(k, keys, a, n + 1)| == |Failures(k, keys, a, n)| + if FailsAt(k, keys, a, n) then 1 else 0
  {
    OneFailureMore(k, keys, a, n);
  }

  lemma LoopStep(k: Crypto, fetched: Table, start: Table, a: Attempt, done: set<int>, id: int, errors: int,
                 working: Table,
                 status: Status, ok: bool, working': Table, status': Status)
    requires LoopInv(k, fetched, start, a, working, status, done, errors) && id in fetched && id !in done && errors >= 0
    requires RowHandled(k, a, id, fetched[id], working, status, ok, working', status')
    ensures LoopInv(k, fetched, start, a, working', status', done + {id}, if ok then errors else errors + 1)
  {
    if errors == 0 && Rotatable(k, fetched[id], id, a) {
      RewrittenOneMore(k, fetched, start, done, id, a);
    }
  }

  /** What the loop has done after n rows. */
  ghost predicate Progress(k: Crypto, keys: seq<(int, Secret)>, fetched: Table, start: Table, a: Attempt,
                           working: Table,
                           status: Status, n: nat, successes: int, errors: int) {
    && n <= |keys| && successes + errors == n && errors == |Failures(k, keys, a, n)|
    && (status == Aborted <==> AbortedBy(k, keys, a, n))
    && LoopInv(k, fetched, start, a, working, status, Ids(keys[..n]), errors)
  }

  lemma ProgressStart(k: Crypto, keys: seq<(int, Secret)>, fetched: Table, start: Table, a: Attempt)
    ensures Progress(k, keys, fetched, start, a, start, Running, 0, 0, 0)
  {
    NoFailureYet(k, keys, a);
    assert Ids(keys[..0]) == {};
    assert Rewritten(k, fetched, start, {}, a) == start;
  }

  lemma ProgressStep(k: Crypto, keys: seq<(int, Secret)>, fetched: Table, start: Table, a: Attempt, working: Table,
                     status: Status, n: nat, successes: int, errors: int, ok: bool, working': Table, status': Status)
    requires Progress(k, keys, fetched, start, a, working, status, n, successes, errors)
    requires n < |keys| && Lists(keys, fetched, Active(fetched))
    requires RowHandled(k, a, keys[n].0, keys[n].1, working, status, ok, working', status')
    ensures Progress(k, keys, fetched, start, a, working', status', n + 1,
                     if ok then successes + 1 else successes, if ok then errors else errors + 1)
  {
    NewId(keys, fetched, n);
    OneRowMore(k, keys, a, n);
    assert keys[n] in keys;
    LoopStep(k, fetched, start, a, Ids(keys[..n]), keys[n].0, errors, working, status, ok, working', status');
  }

  lemma ProgressEnd(k: Crypto, keys: seq<(int, Secret)>, fetched: Table, start: Table, a: Attempt, working: Table,
                    status: Status, successes: int, errors: int)
    requires Progress(k, keys, fetched, start, a, working, status, |keys|, successes, errors)
    requires Lists(keys, fetched, Active(fetched))
    ensures successes + errors == |keys| && errors == |Failures(k, keys, a, |keys|)|
    ensures LoopInv(k, fetched, start, a, working, status, Active(fetched), errors)
  {
    assert keys[..|keys|] == keys;
  }

  /** The loop over the fetched rows; every row counts as a success or as an error. */
  method RotateAll(k: Crypto, tx: Transaction, keys: seq<(int, Secret)>, a: Attempt, ghost fetched: Table)
      returns (successCount: nat, errorCount: nat)
    requires tx.status == Running && Lists(keys, fetched, Active(fetched))
    modifies tx
    ensures successCount + errorCount == |keys| && errorCount == |Failures(k, keys, a, |keys|)|
    ensures LoopInv(k, fetched, old(tx.working), a, tx.working, tx.status, Active(fetched), errorCount)
  {
    successCount, errorCount := 0, 0;
    ghost var start := tx.working;
    ProgressStart(k, keys, fetched, start, a);
    for n := 0 to |keys|
      invariant Progress(k, keys, fetched, start, a, tx.working, tx.status, n, successCount, errorCount)
      invariant tx.status == Running || tx.status == Aborted
    {
      ghost var working, status := tx.working, tx.status;
      var ok := RotateOne(k, tx, keys[n].0, keys[n].1, a);
      ProgressStep(k, keys, fetched, start, a, working, status, n, successCount, errorCount, ok, tx.working, tx.status);
      if ok {
        successCount := successCount + 1;
      } else {
        errorCount := errorCount + 1;
      }
    }
    ProgressEnd(k, keys, fetched, start, a, tx.working, tx.status, successCount, errorCount);
  }

  lemma IdsOfPrefix(keys: seq<(int, Secret)>, n: nat)
    requires n < |keys|
    ensures Ids(keys[..n + 1]) == Ids(keys[..n]) + {keys[n].0}
  {
    assert keys[..n + 1] == keys[..n] + [keys[n]];
    forall x ensures x in Ids(keys[..n + 1]) <==> x in Ids(keys[..n]) || x == keys[n].0 {
      if x in Ids(keys[..n]) {
        var key :| key in keys[..n] && key.0 == x;
        assert key in keys[..n + 1];
      }
      if x == keys[n].0 {
        assert keys[n] in keys[..n + 1];
      }
    }
  }

  lemma {:induction false} NoMoreIdsThanKeys(keys: seq<(int, Secret)>)
    ensures |Ids(keys)| <= |keys|
    decreases |keys|
  {
    if keys != [] {
      var n := |keys| - 1;
      NoMoreIdsThanKeys(keys[..n]);
      assert keys[..n + 1] == keys;
      IdsOfPrefix(keys, n);
    }
  }

  /** As many ids as entries: no id comes twice. */
  lemma {:induction false} NoIdTwice(keys: seq<(int, Secret)>, n: nat)
    requires n < |keys| && |Ids(keys)| == |keys|
    ensures keys[n].0 !in Ids(keys[..n])
    decreases |keys|
  {
    var last := |keys| - 1;
    var front := keys[..last];
    assert keys[..last + 1] == keys;
    IdsOfPrefix(keys, last);
    NoMoreIdsThanKeys(front);
    if n < last {
      NoIdTwice(front, n);
      assert front[..n] == keys[..n];
    }
  }

  lemma NewId(keys: seq<(int, Secret)>, t: Table, n: nat)
    requires Lists(keys, t, Active(t)) && n < |keys|
    ensures keys[n].0 !in Ids(keys[..n]) && keys[n].0 in Active(t) && t[keys[n].0] == keys[n].1
    ensures Ids(keys[..n + 1]) == Ids(keys[..n]) + {keys[n].0}
  {
    NoIdTwice(keys, n);
    IdsOfPrefix(keys, n);
    assert keys[n] in keys;
    assert keys[n].0 in Ids(keys);
  }

  datatype Outcome = NothingToDo | Rotated(count: nat) | Failed(errors: nat) | CommitFailed

  /** How a run ends, given what it fetched; the number of errors depends on the order in which the rows came. */
  ghost predicate EndsAs(k: Crypto, fetched: Table, a: Attempt, outcome: Outcome) {
    match outcome
    case NothingToDo => Active(fetched) == {}
    case Rotated(count) => Active(fetched) != {} && Commits(k, fetched, a) && count == |Active(fetched)|
    case Failed(errors) => 0 < errors <= |Active(fetched)|
      && (exists i <- Active(fetched) :: !Rotatable(k, fetched[i], i, a))
      && exists keys :: Lists(keys, fetched, Active(fetched)) && errors == |Failures(k, keys, a, |keys|)|
    case CommitFailed => a.commitFails && forall i <- Active(fetched) :: Rotatable(k, fetched[i], i, a)
  }

  /**
    What a committed run did to the table `start` that its transaction began on: every row
    fetched holds, under the new settings, the plaintext it had when it was fetched; no other
    row and no other column changed.
   */
  ghost predicate CarriedOver(k: Crypto, fetched: Table, start: Table, after: Table, a: Attempt) {
    && after.Keys == start.Keys
    && forall i <- start ::
         if i in Active(fetched) then
           && after[i] == start[i].(stored := after[i].stored, updatedAt := a.now)
           && Decrypt(k, fetched[i].workspace, fetched[i].stored, a.old_).Ok?
           && (k.Correct() ==> Decrypt(k, fetched[i].workspace, after[i].stored, a.new_)
                               == Decrypt(k, fetched[i].workspace, fetched[i].stored, a.old_))
         else after[i] == start[i]
  }

  lemma CommitCarriesOver(k: Crypto, fetched: Table, start: Table, a: Attempt)
    requires Commits(k, fetched, a)
    ensures CarriedOver(k, fetched, start, AfterRun(k, fetched, start, a), a)
  {
    forall i | i in Active(fetched) && k.Correct()
      ensures Decrypt(k, fetched[i].workspace, fetched[i].stored, a.old_).Ok?
      ensures Decrypt(k, fetched[i].workspace, Reencrypted(k, fetched[i], i, a), a.new_)
           == Decrypt(k, fetched[i].workspace, fetched[i].stored, a.old_)
    {
      var f := fetched[i];
      assert Rotatable(k, f, i, a);
      DecryptAfterEncrypt(k, f.workspace, Decrypt(k, f.workspace, f.stored, a.old_).value, a.iv(i), a.new_);
    }
  }

  /**
    reencryptKeys.  The rows are fetched before the transaction begins; `writes` is what
    other sessions do to the table in between.
   */
  method ReencryptKeys(k: Crypto, db: Database, a: Attempt, writes: Table -> Table) returns (outcome: Outcome)
    modifies db
    ensures EndsAs(k, old(db.secrets), a, outcome)
    ensures outcome.NothingToDo? ==> db.secrets == old(db.secrets)
    ensures outcome.Failed? || outcome.CommitFailed? ==> db.secrets == writes(old(db.secrets))
    ensures outcome.Rotated? ==>
      && db.secrets == AfterRun(k, old(db.secrets), writes(old(db.secrets)), a)
      && CarriedOver(k, old(db.secrets), writes(old(db.secrets)), db.secrets, a)
  {
    ghost var fetched := db.secrets;
    var keys := db.FetchActive();
    if |keys| == 0 {
      return NothingToDo;
    }
    assert Active(fetched) != {};
    db.secrets := writes(db.secrets);
    var tx := new Transaction(db);
    var successCount, errorCount := RotateAll(k, tx, keys, a, fetched);
    if errorCount == 0 {
      var ok := tx.Commit(a.commitFails);
      if ok {
        CommitCarriesOver(k, fetched, writes(fetched), a);
        return Rotated(successCount);
      }
      tx.Rollback();
      return CommitFailed;
    } else {
      tx.Rollback();
      return Failed(errorCount);
    }
  }
}
