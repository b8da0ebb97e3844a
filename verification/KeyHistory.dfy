/**
  Runs of the key table: keys are created, switched on and off, and rotated any number of
  times, by runs of the script that overlap in any way.  Under an ideal cipher each row stays
  readable under the settings it was last written with.
 */
module KeyHistory {
  import opened Prelude
  import opened KeyFormat
  import opened KeyRotation

  // ---------------------------------------------------------------- one rotation

  /** A committed rotation with no writer in between: the same plaintexts under the new settings, all else as before. */
  lemma CommittedRotation(k: Crypto, t: Table, a: Attempt, id: int)
    requires k.Correct() && Commits(k, t, a) && id in t
    ensures var after := AfterRun(k, t, t, a);
      && after.Keys == t.Keys
      && after[id].workspace == t[id].workspace && after[id].active == t[id].active
      && (t[id].active ==> after[id].updatedAt == a.now && Decrypt(k, t[id].workspace, t[id].stored, a.old_).Ok?)
      && (t[id].active ==>
            Decrypt(k, after[id].workspace, after[id].stored, a.new_) ==
              Decrypt(k, t[id].workspace, t[id].stored, a.old_))
      && (!t[id].active ==> after[id] == t[id])
  {
    CommitCarriesOver(k, t, t, a);
  }

  /**
    A row written between the fetch and the transaction: after the commit it decrypts to
    what was fetched, so the write survives if and only if it did not change the plaintext.
   */
  lemma WritesInBetweenAreLost(k: Crypto, fetched: Table, t: Table, a: Attempt, id: int, written: Bytes)
    requires k.Correct() && Commits(k, fetched, a) && id in Active(fetched) && id in t
    requires t[id].workspace == fetched[id].workspace
    requires Decrypt(k, t[id].workspace, t[id].stored, a.old_) == Ok(written)
    ensures var after := AfterRun(k, fetched, t, a)[id];
      Decrypt(k, after.workspace, after.stored, a.new_) == Ok(written) <==>
      Decrypt(k, fetched[id].workspace, fetched[id].stored, a.old_) == Ok(written)
  {
    var s := fetched[id];
    DecryptAfterEncrypt(k, s.workspace, Decrypt(k, s.workspace, s.stored, a.old_).value, a.iv(id), a.new_);
  }

  // ---------------------------------------------------------------- runs

  datatype Event =
    | Create(id: int, workspace: string, plaintext: Bytes, iv: Bytes)
    | Switch(id: int, active: bool)
    | Deploy(config: Settings)               // the application restarts with other settings
    | Fetch(run: int, attempt: Attempt)      // a run of the script reads the active rows
    | Transact(run: int)                     // its transaction, later

  /**
    current: the settings of the running application.  plain and epoch are history: what each
    row was created with, and the settings of the last committed rotation that fetched it,
    or else those of its creation.
   */
  datatype World = World(table: Table, current: Settings, plain: map<int, Bytes>, epoch: map<int, Settings>)

  /** A run of the script between its fetch and its transaction, with the world at the fetch. */
  datatype Waiting = Waiting(fetched: World, attempt: Attempt)

  datatype State = State(world: World, waiting: map<int, Waiting>)

  /** What the application does. */
  function Apply(k: Crypto, w: World, e: Event): World {
    match e
    case Create(id, workspace, plaintext, iv) =>
      if id in w.table then w
      else World(w.table[id := Secret(workspace, Encrypt(k, workspace, plaintext, iv, w.current), true, 0)],
                 w.current, w.plain[id := plaintext], w.epoch[id := w.current])
    case Switch(id, active) =>
      if id in w.table then w.(table := w.table[id := w.table[id].(active := active)]) else w
    case Deploy(config) => w.(current := config)
    case _ => w
  }

  /** The transaction of a rotation that fetched `fetched`, on the world it finds. */
  function Finish(k: Crypto, fetched: Table, w: World, a: Attempt): World {
    if Commits(k, fetched, a)
    then World(AfterRun(k, fetched, w.table, a), w.current, w.plain,
               map i | i in w.epoch :: if i in Active(fetched) then a.new_ else w.epoch[i])
    else w
  }

  function Step(k: Crypto, s: State, e: Event): State {
    match e
    case Fetch(run, a) => if run in s.waiting then s else s.(waiting := s.waiting[run := Waiting(s.world, a)])
    case Transact(run) =>
      if run in s.waiting
      then State(Finish(k, s.waiting[run].fetched.table, s.world, s.waiting[run].attempt), s.waiting - {run})
      else s
    case _ => s.(world := Apply(k, s.world, e))
  }

  function Run(k: Crypto, s: State, events: seq<Event>): State
    decreases |events|
  {
    if events == [] then s else Run(k, Step(k, s, events[0]), events[1..])
  }

  /** Every row holds its plaintext, encrypted under the settings of its epoch. */
  ghost predicate Consistent(k: Crypto, w: World) {
    && w.table.Keys == w.plain.Keys == w.epoch.Keys
    && forall i <- w.table :: Written(k, w.table[i], w.plain[i], w.epoch[i])
  }

  ghost predicate Written(k: Crypto, s: Secret, plaintext: Bytes, c: Settings) {
    exists iv :: s.stored == Encrypt(k, s.workspace, plaintext, iv, c)
  }

  /** Under c the row gives its plaintext if c has the bytes of its epoch, and nothing otherwise. */
  predicate ReadableUnder(k: Crypto, s: Secret, plaintext: Bytes, epoch: Settings, c: Settings) {
    Decrypt(k, s.workspace, s.stored, c) == if SameSecrets(epoch, c) then Ok(plaintext) else Err(NotAuthentic)
  }

  /** The settings under which a consistent row decrypts are exactly those of its epoch. */
  lemma ReadsUnderEpoch(k: Crypto, s: Secret, plaintext: Bytes, epoch: Settings, c: Settings)
    requires k.Ideal() && Written(k, s, plaintext, epoch)
    ensures ReadableUnder(k, s, plaintext, epoch, c)
  {
    var iv :| s.stored == Encrypt(k, s.workspace, plaintext, iv, epoch);
    DecryptsExactlyUnder(k, s.workspace, plaintext, iv, epoch, c);
  }

  /** No row of w is gone in v, or has another workspace or plaintext there. */
  ghost predicate Kept(w: World, v: World) {
    forall i <- w.table :: i in w.plain ==>
      i in v.table && i in v.plain && v.table[i].workspace == w.table[i].workspace && v.plain[i] == w.plain[i]
  }

  /** A consistent world that has lost nothing. */
  ghost predicate Follows(k: Crypto, w: World, v: World) {
    Consistent(k, v) && Kept(w, v)
  }

  // ---------------------------------------------------------------- each event keeps the world consistent

  lemma CreateFollows(k: Crypto, w: World, id: int, workspace: string, plaintext: Bytes, iv: Bytes)
    requires Consistent(k, w)
    ensures Follows(k, w, Apply(k, w, Create(id, workspace, plaintext, iv)))
  {
    if id !in w.table {
      var s := Secret(workspace, Encrypt(k, workspace, plaintext, iv, w.current), true, 0);
      assert Written(k, s, plaintext, w.current);
    }
  }

  lemma SwitchedRow(k: Crypto, s: Secret, active: bool, plaintext: Bytes, c: Settings)
    requires Written(k, s, plaintext, c)
    ensures Written(k, s.(active := active), plaintext, c)
  {
  }

  lemma SwitchFollows(k: Crypto, w: World, id: int, active: bool)
    requires Consistent(k, w)
    ensures Follows(k, w, Apply(k, w, Switch(id, active)))
  {
    if id in w.table {
      SwitchedRow(k, w.table[id], active, w.plain[id], w.epoch[id]);
    }
  }

  lemma DeployFollows(k: Crypto, w: World, config: Settings)
    requires Consistent(k, w)
    ensures Follows(k, w, Apply(k, w, Deploy(config)))
  {
  }

  /**
    A row after a committed rotation: fetched rows hold their plaintext under the new settings,
    whatever happened since.
   */
  lemma FinishedRow(k: Crypto, w: World, v: World, a: Attempt, i: int)
    requires k.Ideal() && Consistent(k, w) && Follows(k, w, v) && Commits(k, w.table, a) && i in v.table
    ensures i in AfterRun(k, w.table, v.table, a)
    ensures Written(k, AfterRun(k, w.table, v.table, a)[i], v.plain[i],
                    if i in Active(w.table) then a.new_ else v.epoch[i])
    ensures AfterRun(k, w.table, v.table, a)[i].workspace == v.table[i].workspace
  {
    if i in Active(w.table) {
      var s := w.table[i];
      assert Rotatable(k, s, i, a);
      ReadsUnderEpoch(k, s, w.plain[i], w.epoch[i], a.old_);
      assert AfterRun(k, w.table, v.table, a)[i].stored == Encrypt(k, s.workspace, w.plain[i], a.iv(i), a.new_);
    }
  }

  lemma EpochsMove(k: Crypto, v: World, t: Table, moved: set<int>, c: Settings)
    requires Consistent(k, v) && t.Keys == v.table.Keys
    requires forall i <- t :: Written(k, t[i], v.plain[i], if i in moved then c else v.epoch[i])
    ensures Consistent(k, World(t, v.current, v.plain, map i | i in v.epoch :: if i in moved then c else v.epoch[i]))
  {
  }

  lemma FinishChanges(k: Crypto, w: World, v: World, a: Attempt)
    requires k.Ideal() && Consistent(k, w) && Follows(k, w, v)
    ensures Follows(k, v, Finish(k, w.table, v, a))
  {
    if Commits(k, w.table, a) {
      var t := AfterRun(k, w.table, v.table, a);
      assert t.Keys == v.table.Keys;
      forall i <- t
        ensures Written(k, t[i], v.plain[i], if i in Active(w.table) then a.new_ else v.epoch[i])
        ensures t[i].workspace == v.table[i].workspace
      {
        FinishedRow(k, w, v, a, i);
      }
      EpochsMove(k, v, t, Active(w.table), a.new_);
    }
  }

  lemma ChangeFollows(k: Crypto, w: World, e: Event)
    requires Consistent(k, w)
    ensures Follows(k, w, Apply(k, w, e))
  {
    match e
    case Create(id, workspace, plaintext, iv) => CreateFollows(k, w, id, workspace, plaintext, iv);
    case Switch(id, active) => SwitchFollows(k, w, id, active);
    case Deploy(config) => DeployFollows(k, w, config);
    case _ =>
  }

  lemma KeptTwice(k: Crypto, w: World, v: World, u: World)
    requires Consistent(k, w) && Follows(k, w, v) && Follows(k, v, u)
    ensures Follows(k, w, u)
  {
  }

  /** The world is consistent and has lost nothing of what a waiting run fetched. */
  ghost predicate Sound(k: Crypto, s: State) {
    && Consistent(k, s.world)
    && forall r <- s.waiting :: Consistent(k, s.waiting[r].fetched) && Follows(k, s.waiting[r].fetched, s.world)
  }

  lemma WorldMoves(k: Crypto, s: State, v: World, waiting: map<int, Waiting>)
    requires Sound(k, s) && Follows(k, s.world, v)
    requires forall r <- waiting :: r in s.waiting && waiting[r] == s.waiting[r]
    ensures Sound(k, State(v, waiting))
  {
    forall r <- waiting ensures Consistent(k, waiting[r].fetched) && Follows(k, waiting[r].fetched, v) {
      KeptTwice(k, waiting[r].fetched, s.world, v);
    }
  }

  lemma TransactFollows(k: Crypto, s: State, run: int)
    requires k.Ideal() && Sound(k, s)
    ensures Follows(k, s.world, Step(k, s, Transact(run)).world)
  {
    if run in s.waiting {
      FinishChanges(k, s.waiting[run].fetched, s.world, s.waiting[run].attempt);
    }
  }

  lemma StepKeepsSound(k: Crypto, s: State, e: Event)
    requires k.Ideal() && Sound(k, s)
    ensures Sound(k, Step(k, s, e)) && Follows(k, s.world, Step(k, s, e).world)
  {
    var t := Step(k, s, e);
    match e {
      case Fetch(run, a) =>
      case Transact(run) =>
        TransactFollows(k, s, run);
        WorldMoves(k, s, t.world, t.waiting);
      case _ =>
        ChangeFollows(k, s.world, e);
        WorldMoves(k, s, t.world, t.waiting);
    }
  }

  lemma {:induction false} RunKeepsSound(k: Crypto, s: State, events: seq<Event>)
    requires k.Ideal() && Sound(k, s)
    ensures Sound(k, Run(k, s, events)) && Follows(k, s.world, Run(k, s, events).world)
    decreases |events|
  {
    if events != [] {
      var t := Step(k, s, events[0]);
      StepKeepsSound(k, s, events[0]);
      RunKeepsSound(k, t, events[1..]);
      KeptTwice(k, s.world, t.world, Run(k, t, events[1..]).world);
    }
  }

  function Start(config: Settings): State {
    State(World(map[], config, map[], map[]), map[])
  }

  /**
    Over any run from an empty table, with any number of rotations whose fetches and
    transactions cross each other and every other event: a row never loses its plaintext, and
    decrypts to it under the settings of its epoch and under no others.
   */
  lemma KeysStayReadable(k: Crypto, config: Settings, first: seq<Event>, later: seq<Event>, id: int, c: Settings)
    requires k.Ideal()
    ensures var w := Run(k, Start(config), first);
      var v := Run(k, w, later).world;
      id in w.world.table ==>
        && id in w.world.plain && id in v.table && id in v.epoch
        && ReadableUnder(k, v.table[id], w.world.plain[id], v.epoch[id], c)
  {
    RunKeepsSound(k, Start(config), first);
    var w := Run(k, Start(config), first);
    RunKeepsSound(k, w, later);
    var v := Run(k, w, later).world;
    if id in w.world.table {
      ReadsUnderEpoch(k, v.table[id], v.plain[id], v.epoch[id], c);
    }
  }

  // ---------------------------------------------------------------- when a rotation can commit

  predicate NoneRefused(t: Table, a: Attempt) {
    forall i <- Active(t) :: !a.refused(i)
  }

  /** A rotation that the database does not refuse commits exactly when every row fetched is at the old settings. */
  lemma CommitsExactlyAtOneEpoch(k: Crypto, w: World, a: Attempt)
    requires k.Ideal() && Consistent(k, w) && !a.commitFails && NoneRefused(w.table, a)
    ensures Commits(k, w.table, a) <==> forall i <- Active(w.table) :: SameSecrets(w.epoch[i], a.old_)
  {
    forall i <- Active(w.table) ensures Rotatable(k, w.table[i], i, a) <==> SameSecrets(w.epoch[i], a.old_) {
      ReadsUnderEpoch(k, w.table[i], w.plain[i], w.epoch[i], a.old_);
    }
  }

  /** All these rows are at settings with the same bytes. */
  ghost predicate OneEpoch(w: World, ids: set<int>) {
    forall i, j :: i in ids && j in ids && i in w.epoch && j in w.epoch ==> SameSecrets(w.epoch[i], w.epoch[j])
  }

  lemma MixedEpochsBlock(k: Crypto, w: World, i: int, j: int, a: Attempt)
    requires k.Ideal() && Consistent(k, w) && i in Active(w.table) && j in Active(w.table)
    requires !SameSecrets(w.epoch[i], w.epoch[j])
    ensures !Commits(k, w.table, a)
  {
    ReadsUnderEpoch(k, w.table[i], w.plain[i], w.epoch[i], a.old_);
    ReadsUnderEpoch(k, w.table[j], w.plain[j], w.epoch[j], a.old_);
    assert !Rotatable(k, w.table[i], i, a) || !Rotatable(k, w.table[j], j, a);
  }

  /** Some rotation of the table would commit. */
  ghost predicate CanRotate(k: Crypto, t: Table) {
    exists a :: Commits(k, t, a)
  }

  lemma CanRotateFrom(k: Crypto, w: World, c: Settings)
    requires k.Ideal() && Consistent(k, w) && forall i <- Active(w.table) :: SameSecrets(w.epoch[i], c)
    ensures CanRotate(k, w.table)
  {
    var a := Attempt(c, c, _ => [], _ => false, false, 0);
    CommitsExactlyAtOneEpoch(k, w, a);
    assert Commits(k, w.table, a);
  }

  /** Some attempt can commit if and only if all active rows are at one epoch. */
  lemma SomeAttemptCommits(k: Crypto, w: World)
    requires k.Ideal() && Consistent(k, w)
    ensures CanRotate(k, w.table) <==> OneEpoch(w, Active(w.table))
  {
    forall i, j, a | i in Active(w.table) && j in Active(w.table) && !SameSecrets(w.epoch[i], w.epoch[j])
      ensures !Commits(k, w.table, a)
    {
      MixedEpochsBlock(k, w, i, j, a);
    }
    if OneEpoch(w, Active(w.table)) {
      HasElement(Active(w.table));
      var c := w.current;
      if i: int :| i in Active(w.table) {
        c := w.epoch[i];
      }
      CanRotateFrom(k, w, c);
    }
  }

  /** The run is waiting, and its transaction will commit: the rows it fetched decide that. */
  predicate WillCommit(k: Crypto, s: State, run: int) {
    run in s.waiting && Commits(k, s.waiting[run].fetched.table, s.waiting[run].attempt)
  }

  /** Unless the database refuses it, exactly when every row it fetched was at its old settings at the fetch. */
  lemma WaitingCommitsExactly(k: Crypto, s: State, run: int)
    requires k.Ideal() && Sound(k, s) && run in s.waiting
    requires var x := s.waiting[run];
      !x.attempt.commitFails && forall i <- Active(x.fetched.table) :: !x.attempt.refused(i)
    ensures var x := s.waiting[run];
      WillCommit(k, s, run) <==> forall i <- Active(x.fetched.table) :: SameSecrets(x.fetched.epoch[i], x.attempt.old_)
  {
    CommitsExactlyAtOneEpoch(k, s.waiting[run].fetched, s.waiting[run].attempt);
  }

  /** No rotation commits in the run of the events from s. */
  ghost predicate NoneCommits(k: Crypto, s: State, events: seq<Event>)
    decreases |events|
  {
    events == [] || (
      && (events[0].Transact? ==> !WillCommit(k, s, events[0].run))
      && NoneCommits(k, Step(k, s, events[0]), events[1..]))
  }

  /** None of the events switches row i off. */
  ghost predicate StaysOn(i: int, events: seq<Event>) {
    forall n :: 0 <= n < |events| ==> events[n] != Switch(i, false)
  }

  /** A rotation that is already waiting, and will commit, has its transaction among the events. */
  ghost predicate WaitingOneTransacts(k: Crypto, s: State, events: seq<Event>) {
    exists n :: 0 <= n < |events| && events[n].Transact? && WillCommit(k, s, events[n].run)
  }

  /** i and j are active, at the epochs c and d. */
  ghost predicate ActiveAt(w: World, i: int, c: Settings, j: int, d: Settings) {
    i in Active(w.table) && j in Active(w.table) && i in w.epoch && w.epoch[i] == c && j in w.epoch && w.epoch[j] == d
  }

  /** An event other than a commit leaves an active row where it is, unless it switches the row off. */
  lemma StaysActive(k: Crypto, s: State, i: int, e: Event)
    requires e != Switch(i, false) && (e.Transact? ==> !WillCommit(k, s, e.run))
    requires i in Active(s.world.table) && i in s.world.epoch
    ensures var w := Step(k, s, e).world; i in Active(w.table) && i in w.epoch && w.epoch[i] == s.world.epoch[i]
  {
    match e
    case Create(id, workspace, plaintext, iv) =>
    case Switch(id, active) =>
    case _ =>
  }

  /** A waiting run stays as it is until its transaction; a run that fetches mixed rows will not commit. */
  lemma WillCommitStep(k: Crypto, s: State, i: int, j: int, e: Event, run: int)
    requires k.Ideal() && Sound(k, s) && i in Active(s.world.table) && j in Active(s.world.table)
    requires !SameSecrets(s.world.epoch[i], s.world.epoch[j])
    ensures WillCommit(k, Step(k, s, e), run) <==> WillCommit(k, s, run) && e != Transact(run)
  {
    if e.Fetch? && e.run == run && run !in s.waiting {
      MixedEpochsBlock(k, s.world, i, j, e.attempt);
    }
  }

  lemma WaitingOneStep(k: Crypto, s: State, i: int, j: int, events: seq<Event>)
    requires k.Ideal() && Sound(k, s) && i in Active(s.world.table) && j in Active(s.world.table)
    requires !SameSecrets(s.world.epoch[i], s.world.epoch[j])
    requires events != [] && (events[0].Transact? ==> !WillCommit(k, s, events[0].run))
    ensures WaitingOneTransacts(k, s, events) <==> WaitingOneTransacts(k, Step(k, s, events[0]), events[1..])
  {
    var t, rest := Step(k, s, events[0]), events[1..];
    forall n | 0 <= n < |rest| && rest[n].Transact?
      ensures WillCommit(k, t, rest[n].run) <==> WillCommit(k, s, rest[n].run)
    {
      WillCommitStep(k, s, i, j, events[0], rest[n].run);
    }
    assert forall n :: 0 <= n < |rest| ==> rest[n] == events[n + 1];
    if n :| 0 <= n < |events| && events[n].Transact? && WillCommit(k, s, events[n].run) {
      assert rest[n - 1] == events[n];
    }
  }

  /**
    Two active rows at different settings, in any run that switches neither of them off: no
    rotation commits, whatever its settings, and the two stay as they are, if and only if no
    rotation that had fetched before, and will commit, has its transaction in the run.
   */
  lemma {:induction false} MixedEpochsBlockRotation(k: Crypto, s: State, i: int, c: Settings, j: int, d: Settings,
                                                    events: seq<Event>)
    requires k.Ideal() && Sound(k, s) && ActiveAt(s.world, i, c, j, d) && !SameSecrets(c, d)
    requires StaysOn(i, events) && StaysOn(j, events)
    ensures NoneCommits(k, s, events) <==> !WaitingOneTransacts(k, s, events)
    ensures NoneCommits(k, s, events) ==> ActiveAt(Run(k, s, events).world, i, c, j, d)
    decreases |events|
  {
    if events != [] && (events[0].Transact? ==> !WillCommit(k, s, events[0].run)) {
      var t, rest := Step(k, s, events[0]), events[1..];
      StaysActive(k, s, i, events[0]);
      StaysActive(k, s, j, events[0]);
      StepKeepsSound(k, s, events[0]);
      WaitingOneStep(k, s, i, j, events);
      assert forall n :: 0 <= n < |rest| ==> rest[n] == events[n + 1];
      MixedEpochsBlockRotation(k, t, i, c, j, d, rest);
    }
  }

  lemma SwitchedOff(k: Crypto, w: World, j: int)
    ensures var v := Apply(k, w, Switch(j, false)); Active(v.table) == Active(w.table) - {j} && v.epoch == w.epoch
  {
  }

  /** Switching a row off lets rotations through again if and only if the other active rows are at one epoch. */
  lemma SwitchingOffUnblocks(k: Crypto, w: World, j: int)
    requires k.Ideal() && Consistent(k, w)
    ensures CanRotate(k, Apply(k, w, Switch(j, false)).table) <==> OneEpoch(w, Active(w.table) - {j})
  {
    var v := Apply(k, w, Switch(j, false));
    SwitchFollows(k, w, j, false);
    SwitchedOff(k, w, j);
    SomeAttemptCommits(k, v);
    assert OneEpoch(v, Active(v.table)) <==> OneEpoch(w, Active(w.table) - {j});
  }

  // ---------------------------------------------------------------- how rows come to differ

  /** A rotation that finds every active row at the old settings and is not refused. */
  predicate Smooth(w: World, a: Attempt) {
    !a.commitFails && forall i <- Active(w.table) :: !a.refused(i) && i in w.epoch && w.epoch[i] == a.old_
  }

  lemma SmoothCommits(k: Crypto, w: World, a: Attempt)
    requires k.Ideal() && Consistent(k, w) && Smooth(w, a)
    ensures Commits(k, w.table, a)
  {
    CommitsExactlyAtOneEpoch(k, w, a);
  }

  /** A commit moves the rows that were fetched to the new settings, wherever they are by then. */
  lemma CommitMoves(k: Crypto, s: State, run: int, i: int)
    requires WillCommit(k, s, run)
    ensures var x, w := s.waiting[run], Step(k, s, Transact(run)).world;
      && (i in w.table <==> i in s.world.table) && (i in w.epoch <==> i in s.world.epoch)
        && w.current == s.world.current
      && (i in w.table ==> w.table[i].active == s.world.table[i].active)
      && (i in w.epoch ==> w.epoch[i] == if i in Active(x.fetched.table) then x.attempt.new_ else s.world.epoch[i])
  {
  }

  lemma FetchWaits(k: Crypto, s: State, run: int, a: Attempt)
    requires k.Ideal() && Sound(k, s) && Smooth(s.world, a) && run !in s.waiting
    ensures var t := Step(k, s, Fetch(run, a));
      t.world == s.world && t.waiting == s.waiting[run := Waiting(s.world, a)] && WillCommit(k, t, run)
  {
    SmoothCommits(k, s.world, a);
  }

  lemma WaitedOnce(waiting: map<int, Waiting>, run: int, x: Waiting)
    requires run !in waiting
    ensures waiting[run := x] - {run} == waiting
  {
  }

  /** A key created after the rotation and before the application restarts is left at the old settings. */
  lemma LateKeyIsLeftBehind(k: Crypto, s: State, run: int, a: Attempt, i: int, j: int, workspace: string, late: Bytes,
                            iv: Bytes)
    requires k.Ideal() && Sound(k, s) && Smooth(s.world, a) && s.world.current == a.old_ && run !in s.waiting
    requires i in Active(s.world.table) && j !in s.world.table
    ensures var fetched := Step(k, s, Fetch(run, a));
      var t := Step(k, Step(k, fetched, Transact(run)), Create(j, workspace, late, iv));
      t.waiting == s.waiting && ActiveAt(t.world, i, a.new_, j, a.old_)
  {
    var fetched := Step(k, s, Fetch(run, a));
    FetchWaits(k, s, run, a);
    CommitMoves(k, fetched, run, i);
    CommitMoves(k, fetched, run, j);
    StaysActive(k, Step(k, fetched, Transact(run)), i, Create(j, workspace, late, iv));
    WaitedOnce(s.waiting, run, Waiting(s.world, a));
  }

  /** So is a key created between the fetch and the transaction. */
  lemma KeyCreatedMeanwhileIsLeftBehind(k: Crypto, s: State, run: int, a: Attempt, i: int, j: int, workspace: string,
                                        late: Bytes, iv: Bytes)
    requires k.Ideal() && Sound(k, s) && Smooth(s.world, a) && s.world.current == a.old_ && run !in s.waiting
    requires i in Active(s.world.table) && j !in s.world.table
    ensures var fetched := Step(k, s, Fetch(run, a));
      var t := Step(k, Step(k, fetched, Create(j, workspace, late, iv)), Transact(run));
      t.waiting == s.waiting && ActiveAt(t.world, i, a.new_, j, a.old_)
  {
    var fetched := Step(k, s, Fetch(run, a));
    FetchWaits(k, s, run, a);
    var created := Step(k, fetched, Create(j, workspace, late, iv));
    StaysActive(k, fetched, i, Create(j, workspace, late, iv));
    CommitMoves(k, created, run, i);
    CommitMoves(k, created, run, j);
    WaitedOnce(s.waiting, run, Waiting(s.world, a));
  }

  /** So is a row that was off at the fetch and is switched on afterwards. */
  lemma RowOffIsLeftBehind(k: Crypto, s: State, run: int, i: int, j: int)
    requires Sound(k, s) && WillCommit(k, s, run) && j in s.world.table
    requires i in Active(s.waiting[run].fetched.table) && i in Active(s.world.table)
    requires j !in Active(s.waiting[run].fetched.table)
    ensures ActiveAt(Step(k, Step(k, s, Transact(run)), Switch(j, true)).world,
                     i, s.waiting[run].attempt.new_, j, s.world.epoch[j])
  {
    CommitMoves(k, s, run, i);
    CommitMoves(k, s, run, j);
    StaysActive(k, Step(k, s, Transact(run)), i, Switch(j, true));
  }

  lemma OneKey(k: Crypto, c: Settings, i: int, workspace: string, plaintext: Bytes, iv: Bytes)
    ensures var s := Step(k, Start(c), Create(i, workspace, plaintext, iv));
      && Sound(k, s) && s.waiting == map[] && s.world.current == c
      && s.world.table.Keys == Active(s.world.table) == {i} && s.world.epoch == map[i := c]
  {
    CreateFollows(k, Start(c).world, i, workspace, plaintext, iv);
  }

  lemma RunFirst(k: Crypto, s: State, e: Event, rest: seq<Event>)
    ensures Run(k, s, [e] + rest) == Run(k, Step(k, s, e), rest)
  {
    assert ([e] + rest)[1..] == rest;
  }

  lemma RunOfFour(k: Crypto, s: State, e: Event, f: Event, g: Event, h: Event)
    ensures Run(k, s, [e, f, g, h]) == Step(k, Step(k, Step(k, Step(k, s, e), f), g), h)
  {
    var s1 := Step(k, s, e);
    var s2 := Step(k, s1, f);
    assert [e, f, g, h] == [e] + [f, g, h] && [f, g, h] == [f] + [g, h] && [g, h] == [g] + [h] && [h] == [h] + [];
    RunFirst(k, s, e, [f, g, h]);
    RunFirst(k, s1, f, [g, h]);
    RunFirst(k, s2, g, [h]);
    RunFirst(k, Step(k, s2, g), h, []);
  }

  /**
    A key, its rotation, and a key created late: from then on no rotation commits, whatever
    else happens, as long as both keys stay on.
   */
  lemma RunThatEndsRotation(k: Crypto, i: int, j: int, workspace: string, plaintext: Bytes, iv: Bytes, run: int,
                            a: Attempt, meanwhile: bool, later: seq<Event>)
    requires k.Ideal() && i != j && !SameSecrets(a.old_, a.new_) && !a.commitFails && !a.refused(i)
    requires StaysOn(i, later) && StaysOn(j, later)
    ensures var one, two := Create(i, workspace, plaintext, iv), Create(j, workspace, plaintext, iv);
      var s := Run(k, Start(a.old_), if meanwhile then [one, Fetch(run, a), two, Transact(run)]
                                     else [one, Fetch(run, a), Transact(run), two]);
      ActiveAt(s.world, i, a.new_, j, a.old_) && NoneCommits(k, s, later)
  {
    var one, two := Create(i, workspace, plaintext, iv), Create(j, workspace, plaintext, iv);
    OneKey(k, a.old_, i, workspace, plaintext, iv);
    var s := Step(k, Start(a.old_), one);
    var events := if meanwhile then [one, Fetch(run, a), two, Transact(run)]
      else [one, Fetch(run, a), Transact(run), two];
    RunOfFour(k, Start(a.old_), events[0], events[1], events[2], events[3]);
    if meanwhile {
      KeyCreatedMeanwhileIsLeftBehind(k, s, run, a, i, j, workspace, plaintext, iv);
    } else {
      LateKeyIsLeftBehind(k, s, run, a, i, j, workspace, plaintext, iv);
    }
    RunKeepsSound(k, Start(a.old_), events);
    MixedEpochsBlockRotation(k, Run(k, Start(a.old_), events), i, a.new_, j, a.old_, later);
  }

  /** Two rotations wait; p fetched row i, and q both rows. */
  ghost predicate Crossing(k: Crypto, s: State, p: int, q: int, i: int, j: int) {
    && Sound(k, s) && p != q && WillCommit(k, s, p) && WillCommit(k, s, q)
    && i in Active(s.waiting[p].fetched.table) && j !in Active(s.waiting[p].fetched.table)
    && i in Active(s.waiting[q].fetched.table) && j in Active(s.waiting[q].fetched.table)
    && i in Active(s.world.table) && j in Active(s.world.table)
  }

  /**
    Rotations that cross: the first to commit leaves the rows at different settings, and the
    second, which was waiting, commits all the same and brings both to its own.
   */
  lemma CrossingRotationsCommit(k: Crypto, s: State, p: int, q: int, i: int, j: int)
    requires Crossing(k, s, p, q, i, j)
    ensures var a, b, t := s.waiting[p].attempt, s.waiting[q].attempt, Step(k, s, Transact(p));
      && ActiveAt(t.world, i, a.new_, j, s.world.epoch[j]) && WillCommit(k, t, q)
      && ActiveAt(Step(k, t, Transact(q)).world, i, b.new_, j, b.new_)
  {
    CommitMoves(k, s, p, i);
    CommitMoves(k, s, p, j);
    var t := Step(k, s, Transact(p));
    CommitMoves(k, t, q, i);
    CommitMoves(k, t, q, j);
  }

  lemma SecondKey(k: Crypto, s: State, i: int, e: Event)
    requires e.Create? && e.id != i && s.world.table.Keys == Active(s.world.table) == {i}
    ensures var t := Step(k, s, e);
      && Active(t.world.table) == {i, e.id} && t.waiting == s.waiting
      && t.world.epoch == s.world.epoch[e.id := s.world.current]
  {
  }

  /** One run waits and has fetched one of the two keys; a second run fetches both. */
  lemma SecondFetch(k: Crypto, s: State, p: int, q: int, i: int, j: int, b: Attempt)
    requires k.Ideal() && Sound(k, s) && WillCommit(k, s, p) && q !in s.waiting && i != j
    requires Active(s.waiting[p].fetched.table) == {i} && Active(s.world.table) == {i, j} && Smooth(s.world, b)
    ensures Crossing(k, Step(k, s, Fetch(q, b)), p, q, i, j)
  {
    FetchWaits(k, s, q, b);
    StepKeepsSound(k, s, Fetch(q, b));
  }

  lemma SmoothWithTwo(w: World, i: int, j: int, b: Attempt)
    requires Active(w.table) == {i, j} && w.epoch == map[i := b.old_, j := b.old_]
    requires !b.commitFails && !b.refused(i) && !b.refused(j)
    ensures Smooth(w, b)
  {
  }

  /** The service and the script alone reach it: a key is created between the two fetches. */
  lemma CrossingIsReached(k: Crypto, i: int, j: int, workspace: string, plaintext: Bytes, iv: Bytes,
                          p: int, a: Attempt, q: int, b: Attempt)
    requires k.Ideal() && i != j && p != q && a.old_ == b.old_ && !a.commitFails && !b.commitFails
    requires !a.refused(i) && !b.refused(i) && !b.refused(j)
    ensures Crossing(k, Run(k, Start(a.old_), [Create(i, workspace, plaintext, iv), Fetch(p, a),
                                               Create(j, workspace, plaintext, iv), Fetch(q, b)]), p, q, i, j)
  {
    var one, two := Create(i, workspace, plaintext, iv), Create(j, workspace, plaintext, iv);
    RunOfFour(k, Start(a.old_), one, Fetch(p, a), two, Fetch(q, b));
    OneKey(k, a.old_, i, workspace, plaintext, iv);
    var s := Step(k, Start(a.old_), one);
    FetchWaits(k, s, p, a);
    StepKeepsSound(k, s, Fetch(p, a));
    var fetched := Step(k, s, Fetch(p, a));
    SecondKey(k, fetched, i, two);
    StepKeepsSound(k, fetched, two);
    SmoothWithTwo(Step(k, fetched, two).world, i, j, b);
    SecondFetch(k, Step(k, fetched, two), p, q, i, j, b);
  }

  // ---------------------------------------------------------------- restarts

  ghost predicate NoDeploy(events: seq<Event>) {
    forall n :: 0 <= n < |events| ==> !events[n].Deploy?
  }

  lemma {:induction false} CurrentStays(k: Crypto, s: State, events: seq<Event>)
    requires NoDeploy(events)
    ensures Run(k, s, events).world.current == s.world.current
    decreases |events|
  {
    if events != [] {
      CurrentStays(k, Step(k, s, events[0]), events[1..]);
    }
  }

  lemma {:induction false} RunConcat(k: Crypto, s: State, events: seq<Event>, more: seq<Event>)
    ensures Run(k, s, events + more) == Run(k, Run(k, s, events), more)
    decreases |events|
  {
    if events == [] {
      assert events + more == more;
    } else {
      assert (events + more)[1..] == events[1..] + more;
      RunConcat(k, Step(k, s, events[0]), events[1..], more);
    }
  }

  /**
    The settings that the application started with last are those of the keys it creates: a
    new key decrypts under them, and under others only where these have the same secrets.
   */
  lemma DeployTakesEffect(k: Crypto, s: State, first: seq<Event>, c: Settings, later: seq<Event>, id: int,
                          workspace: string, plaintext: Bytes, iv: Bytes, other: Settings)
    requires k.Ideal() && NoDeploy(later) && id !in Run(k, s, first + [Deploy(c)] + later).world.table
    ensures var t := Step(k, Run(k, s, first + [Deploy(c)] + later), Create(id, workspace, plaintext, iv)).world.table;
      && id in t && t[id].active && t[id].workspace == workspace
      && Decrypt(k, workspace, t[id].stored, other) == if SameSecrets(c, other)
        then Ok(plaintext) else Err(NotAuthentic)
  {
    var deployed := Run(k, s, first + [Deploy(c)]);
    RunConcat(k, s, first, [Deploy(c)]);
    RunFirst(k, Run(k, s, first), Deploy(c), []);
    assert [Deploy(c)] + [] == [Deploy(c)];
    RunConcat(k, s, first + [Deploy(c)], later);
    CurrentStays(k, deployed, later);
    DecryptsExactlyUnder(k, workspace, plaintext, iv, c, other);
  }

  /** The application reads every active key: all are at the settings it runs with. */
  ghost predicate AllAtCurrent(w: World) {
    forall i <- Active(w.table) :: i in w.epoch && SameSecrets(w.epoch[i], w.current)
  }

  lemma AllAreRead(k: Crypto, w: World, i: int)
    requires k.Ideal() && Consistent(k, w) && AllAtCurrent(w) && i in Active(w.table)
    ensures Decrypt(k, w.table[i].workspace, w.table[i].stored, w.current) == Ok(w.plain[i])
  {
    ReadsUnderEpoch(k, w.table[i], w.plain[i], w.epoch[i], w.current);
  }

  /** Keys created and switched off, and rotations that only fetch. */
  predicate Quiet(e: Event) {
    e.Create? || e.Fetch? || (e.Switch? && !e.active)
  }

  lemma QuietStep(k: Crypto, s: State, e: Event)
    requires Quiet(e) && AllAtCurrent(s.world)
    ensures AllAtCurrent(Step(k, s, e).world)
  {
  }

  lemma {:induction false} QuietRun(k: Crypto, s: State, events: seq<Event>)
    requires AllAtCurrent(s.world) && forall n :: 0 <= n < |events| ==> Quiet(events[n])
    ensures AllAtCurrent(Run(k, s, events).world)
    decreases |events|
  {
    if events != [] {
      QuietStep(k, s, events[0]);
      QuietRun(k, Step(k, s, events[0]), events[1..]);
    }
  }

  lemma RotatedAndDeployed(k: Crypto, s: State, run: int, a: Attempt)
    requires k.Ideal() && Sound(k, s) && Smooth(s.world, a) && run !in s.waiting
    ensures var t := Step(k, Step(k, Step(k, s, Fetch(run, a)), Transact(run)), Deploy(a.new_));
      t.world.current == a.new_ && AllAtCurrent(t.world)
  {
    var fetched := Step(k, s, Fetch(run, a));
    FetchWaits(k, s, run, a);
    var moved := Step(k, fetched, Transact(run));
    forall i <- Active(moved.world.table) ensures i in moved.world.epoch && moved.world.epoch[i] == a.new_ {
      CommitMoves(k, fetched, run, i);
    }
  }

  /**
    The documented procedure, with nothing between its steps: rotate, then restart with the
    new settings.  Afterwards, over any creations and deactivations, the application reads
    every active key, and a rotation from the new settings commits unless it is refused.
   */
  lemma ProcedureKeepsOneEpoch(k: Crypto, s: State, run: int, a: Attempt, later: seq<Event>, b: Attempt)
    requires k.Ideal() && Sound(k, s) && Smooth(s.world, a) && run !in s.waiting
    requires forall n :: 0 <= n < |later| ==> Quiet(later[n])
    ensures var w := Run(k, Step(k, Step(k, Step(k, s, Fetch(run, a)), Transact(run)), Deploy(a.new_)), later).world;
      && w.current == a.new_
      && (forall i <- Active(w.table) :: i in w.plain
            && Decrypt(k, w.table[i].workspace, w.table[i].stored, a.new_) == Ok(w.plain[i]))
      && (b.old_ == a.new_ && !b.commitFails && NoneRefused(w.table, b) ==>
            Commits(k, w.table, b))
  {
    var fetched := Step(k, s, Fetch(run, a));
    var moved := Step(k, fetched, Transact(run));
    var t := Step(k, moved, Deploy(a.new_));
    StepKeepsSound(k, s, Fetch(run, a));
    StepKeepsSound(k, fetched, Transact(run));
    StepKeepsSound(k, moved, Deploy(a.new_));
    RotatedAndDeployed(k, s, run, a);
    AfterProcedure(k, t, a.new_, later, b);
  }

  lemma AfterProcedure(k: Crypto, t: State, c: Settings, later: seq<Event>, b: Attempt)
    requires k.Ideal() && Sound(k, t) && t.world.current == c && AllAtCurrent(t.world)
    requires forall n :: 0 <= n < |later| ==> Quiet(later[n])
    ensures var w := Run(k, t, later).world;
      && w.current == c
      && (forall i <- Active(w.table) :: i in w.plain
            && Decrypt(k, w.table[i].workspace, w.table[i].stored, c) == Ok(w.plain[i]))
      && (b.old_ == c && !b.commitFails && NoneRefused(w.table, b) ==> Commits(k, w.table, b))
  {
    var w := Run(k, t, later).world;
    CurrentStays(k, t, later);
    QuietRun(k, t, later);
    RunKeepsSound(k, t, later);
    forall i <- Active(w.table) ensures Decrypt(k, w.table[i].workspace, w.table[i].stored, c) == Ok(w.plain[i]) {
      AllAreRead(k, w, i);
    }
    if b.old_ == c && !b.commitFails && NoneRefused(w.table, b) {
      CommitsExactlyAtOneEpoch(k, w, b);
    }
  }
}
