/**
 Replication as a transition system: one credential's reconcile, broken into its API calls, interleaved with
 an environment that relabels namespaces, edits the spec, rotates the source and rewrites Secrets at will.
 The reconcile works from local copies: the spec it read, the source value it read, and the authorized set
 it computed, each possibly outdated by the time it is used.
 */
module ReplicationRuns {
  import opened Wrappers
  import opened Sorting
  import opened Api
  import opened Replication

  /** The local variables of a pass once the authorized set is known. */
  datatype Snapshot = Snapshot(c: Subject, value: Bytes, authorized: set<string>)

  datatype Phase =
    | Idle
    | HaveSpec(c: Subject)
    | HaveSource(c: Subject, value: Bytes)
    | Syncing(pass: Snapshot, todo: set<string>, synced: set<string>)
    | Pruning(pass: Snapshot, synced: set<string>, doomed: set<SecretId>)
    | Closing(pass: Snapshot, synced: set<string>)

  /**
   `copies` remembers which pass wrote a Secret that nobody has changed since; `report` is the last status
   written.
   */
  datatype World = World(
    store: Store, namespaces: map<string, Labels>, subject: Subject, phase: Phase,
    copies: map<SecretId, Snapshot>, report: Option<(Snapshot, seq<string>)>)

  ghost predicate Init(w: World) { w.phase == Idle && w.copies == map[] && w.report == None }

  // ---- Steps ----

  ghost predicate Environment(a: World, b: World) {
    && b.phase == a.phase && b.report == a.report && b.subject.name == a.subject.name
    && b.copies == map id | id in a.copies && Lookup(b.store, id) == Lookup(a.store, id) :: a.copies[id]
  }

  ghost predicate Begin(a: World, b: World) {
    a.phase == Idle && b == a.(phase := HaveSpec(a.subject))
  }

  /** Any failing call, and any early return, ends the pass where it stands. */
  ghost predicate Abort(a: World, b: World) { b == a.(phase := Idle) }

  ghost predicate GetSourceStep(a: World, b: World) {
    && a.phase.HaveSpec? && ReadSource(a.phase.c, a.store).Some?
    && b == a.(phase := HaveSource(a.phase.c, ReadSource(a.phase.c, a.store).value))
  }

  ghost predicate SnapshotStep(a: World, b: World) {
    && a.phase.HaveSource? && Authorized(a.phase.c.spec, a.namespaces).Ok?
    && var authorized := Authorized(a.phase.c.spec, a.namespaces).value;
       b == a.(phase := Syncing(Snapshot(a.phase.c, a.phase.value, authorized), authorized, {}))
  }

  ghost predicate SyncStep(a: World, b: World, n: string, outcome: CallOutcome) {
    && a.phase.Syncing? && n in a.phase.todo
    && var p, id := a.phase.pass, a.phase.pass.c.CopyId(n);
       var owned := CanOwn(Lookup(a.store, id), p.c.name);
       var rest := a.phase.todo - {n};
       if owned && outcome != Refused then
         b == a.(store := a.store[id := Copy(Lookup(a.store, id), p.c, p.value)], copies := a.copies[id := p],
                 phase := Syncing(p, rest, if outcome == Done then a.phase.synced + {n} else a.phase.synced))
       else b == a.(phase := Syncing(p, rest, a.phase.synced))
  }

  ghost predicate ListStep(a: World, b: World, listed: bool) {
    && a.phase.Syncing? && a.phase.todo == {}
    && var p := a.phase.pass;
       b == a.(phase := if listed
                        then Pruning(p, a.phase.synced,
                                     set id | id in a.store && Stale(id, a.store[id], p.c.name, p.authorized))
                        else Closing(p, a.phase.synced))
  }

  /** The delete names the Secret; what it holds by now is not looked at again. */
  ghost predicate DeleteStep(a: World, b: World, id: SecretId, outcome: CallOutcome) {
    && a.phase.Pruning? && id in a.phase.doomed
    && var next := if outcome == Done then a.phase.(doomed := a.phase.doomed - {id})
         else Closing(a.phase.pass, a.phase.synced);
       if outcome != Refused then b == a.(store := a.store - {id}, copies := a.copies - {id}, phase := next)
       else b == a.(phase := next)
  }

  ghost predicate PruneDone(a: World, b: World) {
    a.phase.Pruning? && a.phase.doomed == {} && b == a.(phase := Closing(a.phase.pass, a.phase.synced))
  }

  ghost predicate ReportStep(a: World, b: World) {
    && a.phase.Closing? && b.report.Some?
    && Ascending(b.report.value.1) && (forall n :: n in b.report.value.1 <==> n in a.phase.synced)
    && b.report.value.0 == a.phase.pass && b == a.(phase := Idle, report := b.report)
  }

  ghost predicate Controller(a: World, b: World) {
    || Begin(a, b) || Abort(a, b) || GetSourceStep(a, b) || SnapshotStep(a, b)
    || (exists n, outcome :: SyncStep(a, b, n, outcome))
    || (exists listed :: ListStep(a, b, listed))
    || (exists id, outcome :: DeleteStep(a, b, id, outcome))
    || PruneDone(a, b) || ReportStep(a, b)
  }

  ghost predicate Next(a: World, b: World) { Environment(a, b) || Controller(a, b) }

  ghost predicate StepAt(trace: seq<World>, i: int)
    requires 0 <= i < |trace| - 1
  {
    Next(trace[i], trace[i + 1])
  }

  ghost predicate EnvironmentAt(trace: seq<World>, i: int)
    requires 0 <= i < |trace| - 1
  {
    Environment(trace[i], trace[i + 1])
  }

  ghost predicate Run(trace: seq<World>) {
    trace != [] && Init(trace[0]) && forall i :: 0 <= i < |trace| - 1 ==> StepAt(trace, i)
  }

  // ---- Safety over every run ----

  /** Spec, source value and authorized set were each true of some earlier state, read in that order. */
  ghost predicate TakenAt(trace: seq<World>, p: Snapshot, i: int, j: int, k: int) {
    && 0 <= i <= j <= k < |trace|
    && trace[i].subject == p.c
    && ReadSource(p.c, trace[j].store) == Some(p.value)
    && Authorized(p.c.spec, trace[k].namespaces) == Ok(p.authorized)
  }

  ghost predicate Taken(trace: seq<World>, p: Snapshot, last: int) {
    exists i, j, k :: TakenAt(trace, p, i, j, k) && k <= last
  }

  ghost predicate SpecRead(trace: seq<World>, c: Subject, last: int) {
    exists i :: 0 <= i <= last && i < |trace| && trace[i].subject == c
  }

  ghost predicate SourceRead(trace: seq<World>, c: Subject, value: Bytes, last: int) {
    exists i, j ::
      0 <= i <= j <= last && j < |trace| && trace[i].subject == c && ReadSource(c, trace[j].store) == Some(value)
  }

  /** A recorded copy is where its pass was entitled to put it and holds what that pass read. */
  ghost predicate CopyOk(w: World, id: SecretId) {
    id in w.copies ==>
      var p := w.copies[id];
      && id.namespace in p.authorized && id == p.c.CopyId(id.namespace) && GoodCopy(p.c, w.store, id.namespace, p.value)
  }

  ghost predicate PhaseOk(trace: seq<World>, m: int)
    requires 0 <= m < |trace|
  {
    match trace[m].phase
    case Idle => true
    case HaveSpec(c) => SpecRead(trace, c, m)
    case HaveSource(c, value) => SourceRead(trace, c, value, m)
    case Syncing(p, todo, synced) => Taken(trace, p, m) && todo <= p.authorized && synced <= p.authorized
    case Pruning(p, synced, _) => Taken(trace, p, m) && synced <= p.authorized
    case Closing(p, synced) => Taken(trace, p, m) && synced <= p.authorized
  }

  ghost predicate ReportOk(trace: seq<World>, m: int)
    requires 0 <= m < |trace|
  {
    match trace[m].report
    case None => true
    case Some((p, names)) => Taken(trace, p, m) && Ascending(names) && forall n :: n in names ==> n in p.authorized
  }

  lemma TakenLater(trace: seq<World>, p: Snapshot, m: int)
    requires Taken(trace, p, m)
    ensures Taken(trace, p, m + 1)
  {
    var i, j, k :| TakenAt(trace, p, i, j, k) && k <= m;
    assert TakenAt(trace, p, i, j, k) && k <= m + 1;
  }

  lemma SpecReadLater(trace: seq<World>, c: Subject, m: int)
    requires SpecRead(trace, c, m)
    ensures SpecRead(trace, c, m + 1)
  {
    var i :| 0 <= i <= m && i < |trace| && trace[i].subject == c;
    assert 0 <= i <= m + 1;
  }

  lemma SourceReadLater(trace: seq<World>, c: Subject, value: Bytes, m: int)
    requires SourceRead(trace, c, value, m)
    ensures SourceRead(trace, c, value, m + 1)
  {
    var i, j :| 0 <= i <= j <= m && j < |trace| && trace[i].subject == c
      && ReadSource(c, trace[j].store) == Some(value);
    assert 0 <= i <= j <= m + 1;
  }

  lemma SourceNowRead(trace: seq<World>, c: Subject, value: Bytes, m: int)
    requires 0 <= m < |trace| && SpecRead(trace, c, m) && ReadSource(c, trace[m].store) == Some(value)
    ensures SourceRead(trace, c, value, m)
  {
    var i :| 0 <= i <= m && i < |trace| && trace[i].subject == c;
    assert 0 <= i <= m <= m;
  }

  lemma SnapshotNowTaken(trace: seq<World>, p: Snapshot, m: int)
    requires 0 <= m < |trace| && SourceRead(trace, p.c, p.value, m)
             && Authorized(p.c.spec, trace[m].namespaces) == Ok(p.authorized)
    ensures Taken(trace, p, m)
  {
    var i, j :| 0 <= i <= j <= m && j < |trace| && trace[i].subject == p.c
      && ReadSource(p.c, trace[j].store) == Some(p.value);
    assert TakenAt(trace, p, i, j, m);
  }

  ghost function PassOf(phase: Phase): Option<(Snapshot, set<string>)> {
    match phase
    case Syncing(p, _, synced) => Some((p, synced))
    case Pruning(p, synced, _) => Some((p, synced))
    case Closing(p, synced) => Some((p, synced))
    case _ => None
  }

  /** How phases follow one another. */
  lemma PhaseMoves(a: World, b: World)
    requires Next(a, b)
    ensures b.phase.HaveSpec? ==> a.phase == b.phase || Begin(a, b)
    ensures b.phase.HaveSource? ==> a.phase == b.phase || GetSourceStep(a, b)
    ensures PassOf(b.phase).Some? && PassOf(a.phase).None? ==> SnapshotStep(a, b)
    ensures PassOf(b.phase).Some? && PassOf(a.phase).Some? ==>
              && PassOf(b.phase).value.0 == PassOf(a.phase).value.0
              && (PassOf(b.phase).value.1 == PassOf(a.phase).value.1
                  || (a.phase.Syncing? && PassOf(b.phase).value.1 <= PassOf(a.phase).value.1 + a.phase.todo))
  {
    if Environment(a, b) {
    } else if n, outcome :| SyncStep(a, b, n, outcome) {
      assert PassOf(a.phase).Some? && PassOf(b.phase).Some?;
    } else if id, outcome :| DeleteStep(a, b, id, outcome) {
      assert PassOf(b.phase) == PassOf(a.phase);
    }
  }

  lemma TodoShrinks(a: World, b: World)
    requires Next(a, b) && b.phase.Syncing?
    ensures if a.phase.Syncing? then b.phase.todo <= a.phase.todo else SnapshotStep(a, b)
  {
  }

  lemma PhaseStep(trace: seq<World>, m: int)
    requires 0 <= m < |trace| - 1 && Next(trace[m], trace[m + 1])
    requires PhaseOk(trace, m)
    ensures PhaseOk(trace, m + 1)
  {
    var a, b := trace[m], trace[m + 1];
    PhaseMoves(a, b);
    if b.phase.Syncing? {
      TodoShrinks(a, b);
    }
    if b.phase.HaveSpec? {
      if a.phase == b.phase {
        SpecReadLater(trace, b.phase.c, m);
      } else {
        assert trace[m].subject == b.phase.c && 0 <= m <= m + 1;
      }
    } else if b.phase.HaveSource? {
      if a.phase != b.phase {
        SourceNowRead(trace, b.phase.c, b.phase.value, m);
      }
      SourceReadLater(trace, b.phase.c, b.phase.value, m);
    } else if PassOf(b.phase).Some? {
      var p := PassOf(b.phase).value.0;
      if PassOf(a.phase).None? {
        SnapshotNowTaken(trace, p, m);
      }
      TakenLater(trace, p, m);
    }
  }

  lemma ReportMoves(a: World, b: World)
    requires Next(a, b)
    ensures b.report == a.report || ReportStep(a, b)
  {
  }

  lemma ReportStepOk(trace: seq<World>, m: int)
    requires 0 <= m < |trace| - 1 && Next(trace[m], trace[m + 1])
    requires PhaseOk(trace, m) && ReportOk(trace, m)
    ensures ReportOk(trace, m + 1)
  {
    var a, b := trace[m], trace[m + 1];
    ReportMoves(a, b);
    if a.report.Some? {
      TakenLater(trace, a.report.value.0, m);
    }
    if a.phase.Closing? {
      TakenLater(trace, a.phase.pass, m);
    }
  }

  lemma CopySync(a: World, b: World, n: string, outcome: CallOutcome, id: SecretId)
    requires SyncStep(a, b, n, outcome) && CopyOk(a, id) && a.phase.todo <= a.phase.pass.authorized
    ensures CopyOk(b, id)
    ensures id in b.copies ==> (id in a.copies && b.copies[id] == a.copies[id]) || b.copies[id] == a.phase.pass
  {
    CopyIsGood(Lookup(a.store, a.phase.pass.c.CopyId(n)), a.phase.pass.c, a.phase.pass.value);
  }

  lemma CopyStep(a: World, b: World, id: SecretId)
    requires Next(a, b) && CopyOk(a, id)
    requires a.phase.Syncing? ==> a.phase.todo <= a.phase.pass.authorized
    ensures CopyOk(b, id)
    ensures id in b.copies ==>
            (id in a.copies && b.copies[id] == a.copies[id]) || (a.phase.Syncing? && b.copies[id] == a.phase.pass)
  {
    if n, outcome :| SyncStep(a, b, n, outcome) {
      CopySync(a, b, n, outcome, id);
    } else if d, outcome :| DeleteStep(a, b, d, outcome) {
    } else if Environment(a, b) {
      assert id in b.copies ==> Lookup(b.store, id) == Lookup(a.store, id);
    } else {
      assert b.store == a.store && b.copies == a.copies;
    }
  }

  ghost predicate StateOk(trace: seq<World>, m: int)
    requires 0 <= m < |trace|
  {
    && PhaseOk(trace, m) && ReportOk(trace, m)
    && forall id :: id in trace[m].copies ==> CopyOk(trace[m], id) && Taken(trace, trace[m].copies[id], m)
  }

  /**
   In every state of every run: each Secret a pass wrote and nobody changed lies in a namespace of that
   pass's authorized set, under the copy's name, labelled and owned, holding exactly the value that pass
   read; the pass's spec, source value and authorized set were each true at some earlier moment; and the
   reported namespaces are an ascending subset of the reporting pass's authorized set.
   */
  lemma {:induction false} RunsAreSafe(trace: seq<World>, m: nat)
    requires Run(trace) && m < |trace|
    ensures StateOk(trace, m)
  {
    if m == 0 {
    } else {
      RunsAreSafe(trace, m - 1);
      assert StepAt(trace, m - 1);
      PhaseStep(trace, m - 1);
      ReportStepOk(trace, m - 1);
      forall id | id in trace[m].copies ensures CopyOk(trace[m], id) && Taken(trace, trace[m].copies[id], m) {
        CopyStep(trace[m - 1], trace[m], id);
        TakenLater(trace, trace[m].copies[id], m - 1);
      }
    }
  }

  // ---- Revocation is final ----

  /** From state t on, no spec the run shows authorizes n against any labelling it shows. */
  ghost predicate Revoked(trace: seq<World>, n: string, t: int) {
    forall j, k ::
      0 <= t <= j < |trace| && t <= k < |trace| && Authorized(trace[j].subject.spec, trace[k].namespaces).Ok? ==>
      n !in Authorized(trace[j].subject.spec, trace[k].namespaces).value
  }

  /** The environment does not itself put this credential's label on a Secret in n. */
  ghost predicate NobodyElseLabels(trace: seq<World>, n: string, t: int) {
    forall k :: 0 <= t <= k < |trace| - 1 && EnvironmentAt(trace, k) ==>
      LabelledIn(trace[k + 1], n) <= LabelledIn(trace[k], n)
  }

  ghost function LabelledIn(w: World, n: string): set<SecretId> {
    set id | id in w.store && id.namespace == n && Labelled(w.store[id], w.subject.name)
  }

  /** The pass in flight read its spec at or after t and cannot write to n. */
  ghost predicate Barred(trace: seq<World>, n: string, t: int, m: int)
    requires 0 <= t <= m < |trace|
  {
    var w := trace[m];
    match w.phase
    case Idle => true
    case HaveSpec(c) => c.name == w.subject.name && exists j :: t <= j <= m && trace[j].subject == c
    case HaveSource(c, _) => c.name == w.subject.name && exists j :: t <= j <= m && trace[j].subject == c
    case Syncing(p, todo, _) => p.c.name == w.subject.name && n !in p.authorized && n !in todo
    case Pruning(p, _, doomed) => p.c.name == w.subject.name && n !in p.authorized && LabelledIn(w, n) <= doomed
    case Closing(p, _) => true
  }

  lemma SyncSpares(a: World, b: World, s: string, outcome: CallOutcome, n: string)
    requires SyncStep(a, b, s, outcome) && n !in a.phase.todo
    ensures LabelledIn(b, n) == LabelledIn(a, n)
  {
    assert s != n;
  }

  lemma DeleteOnlyRemoves(a: World, b: World, id: SecretId, outcome: CallOutcome, n: string)
    requires DeleteStep(a, b, id, outcome)
    ensures LabelledIn(b, n) <= LabelledIn(a, n)
    ensures b.phase.Pruning? ==> LabelledIn(b, n) <= LabelledIn(a, n) - {id}
  {
  }

  lemma BarredStep(trace: seq<World>, n: string, t: int, m: int)
    requires 0 <= t <= m < |trace| - 1 && Next(trace[m], trace[m + 1])
    requires Revoked(trace, n, t) && NobodyElseLabels(trace, n, t) && Barred(trace, n, t, m)
    ensures Barred(trace, n, t, m + 1)
    ensures LabelledIn(trace[m + 1], n) <= LabelledIn(trace[m], n)
  {
    var a, b := trace[m], trace[m + 1];
    if Environment(a, b) {
      assert EnvironmentAt(trace, m);
    } else if s, outcome :| SyncStep(a, b, s, outcome) {
      SyncSpares(a, b, s, outcome, n);
    } else if id, outcome :| DeleteStep(a, b, id, outcome) {
      DeleteOnlyRemoves(a, b, id, outcome, n);
    } else if listed :| ListStep(a, b, listed) {
    } else if SnapshotStep(a, b) {
      var j :| t <= j <= m && trace[j].subject == a.phase.c;
    }
  }

  /** n stays free of the credential from state m on, given that it is and no pass can write to it. */
  lemma {:induction false} StaysClean(trace: seq<World>, n: string, t: int, m: int, i: int)
    requires Run(trace) && Revoked(trace, n, t) && NobodyElseLabels(trace, n, t)
    requires 0 <= t <= m <= i < |trace| && Barred(trace, n, t, m)
    ensures Barred(trace, n, t, i) && LabelledIn(trace[i], n) <= LabelledIn(trace[m], n)
    decreases i - m
  {
    if m == i {
    } else {
      assert StepAt(trace, m);
      BarredStep(trace, n, t, m);
      StaysClean(trace, n, t, m + 1, i);
    }
  }

  /**
   Once a namespace is no longer authorized, the first later pass whose pruning completes removes the
   credential from it, and no pass ever brings it back while it stays unauthorized.
   */
  lemma RevocationIsFinal(trace: seq<World>, n: string, t: int, begin: int, done: int, i: int)
    requires Run(trace) && Revoked(trace, n, t) && NobodyElseLabels(trace, n, t)
    requires 0 <= t <= begin < done < i < |trace|
    requires Begin(trace[begin], trace[begin + 1]) && PruneDone(trace[done], trace[done + 1])
    ensures LabelledIn(trace[i], n) == {}
  {
    assert Barred(trace, n, t, begin + 1) by {
      assert t <= begin <= begin + 1 && trace[begin].subject == trace[begin + 1].phase.c;
    }
    StaysClean(trace, n, t, begin + 1, done);
    StaysClean(trace, n, t, done, i);
  }

  // ---- Passes of other credentials ----

  /** One step of a controller at work on another credential, seen as a change of the same store. */
  ghost predicate OthersStep(a: World, b: World) {
    exists x, y :: OthersStepOf(a, b, x, y)
  }

  ghost predicate OthersStepOf(a: World, b: World, x: World, y: World) {
    && Controller(x, y) && x.store == a.store && y.store == b.store && b.subject.name == a.subject.name
    && (PassOf(x.phase).Some? ==> PassOf(x.phase).value.0.c.name != a.subject.name)
  }

  /** It never adds this credential's label: a write puts its own there, a deletion only removes. */
  lemma OthersNeverLabel(a: World, b: World, n: string)
    requires OthersStep(a, b)
    ensures LabelledIn(b, n) <= LabelledIn(a, n)
  {
    var x, y :| OthersStepOf(a, b, x, y);
    if s, outcome :| SyncStep(x, y, s, outcome) {
      OthersWrite(a, b, x, y, s, outcome, n);
    } else if id, outcome :| DeleteStep(x, y, id, outcome) {
    } else {
      assert b.store == a.store;
    }
  }

  lemma OthersWrite(a: World, b: World, x: World, y: World, s: string, outcome: CallOutcome, n: string)
    requires OthersStepOf(a, b, x, y) && SyncStep(x, y, s, outcome)
    ensures LabelledIn(b, n) <= LabelledIn(a, n)
  {
    var c := x.phase.pass.c;
    CopyIsGood(Lookup(x.store, c.CopyId(s)), c, x.phase.pass.value);
    assert !Labelled(Copy(Lookup(x.store, c.CopyId(s)), c, x.phase.pass.value), a.subject.name);
  }

  ghost predicate OthersOnlyAt(trace: seq<World>, k: int)
    requires 0 <= k < |trace| - 1
  {
    trace[k + 1].store == trace[k].store || OthersStep(trace[k], trace[k + 1])
  }

  /** So an environment whose writes to Secrets are passes of other credentials is as RevocationIsFinal asks. */
  lemma OtherCredentialsNeverLabel(trace: seq<World>, n: string, t: int)
    requires forall k :: 0 <= t <= k < |trace| - 1 && EnvironmentAt(trace, k) ==> OthersOnlyAt(trace, k)
    ensures NobodyElseLabels(trace, n, t)
  {
    forall k | 0 <= t <= k < |trace| - 1 && EnvironmentAt(trace, k)
      ensures LabelledIn(trace[k + 1], n) <= LabelledIn(trace[k], n)
    {
      assert OthersOnlyAt(trace, k);
      if OthersStep(trace[k], trace[k + 1]) {
        OthersNeverLabel(trace[k], trace[k + 1], n);
      }
    }
  }

  // ---- A report is truthful ----

  /** States s+1 to u belong to one pass, during which the environment leaves Secrets alone. */
  ghost predicate QuietPass(trace: seq<World>, s: int, u: int) {
    && 0 <= s < u < |trace| && SnapshotStep(trace[s], trace[s + 1])
    && (forall k :: s < k <= u ==> trace[k].phase.Syncing? || trace[k].phase.Pruning?)
    && (forall k :: s < k < u && EnvironmentAt(trace, k) ==> trace[k + 1].store == trace[k].store)
  }

  ghost predicate QuietOk(w: World, p: Snapshot) {
    match w.phase
    case Syncing(q, todo, synced) => q == p && todo !! synced && synced <= p.authorized && AllGood(w, p, synced)
    case Pruning(q, synced, doomed) =>
      && q == p && synced <= p.authorized && AllGood(w, p, synced)
      && (forall id :: id in doomed ==> id.namespace !in p.authorized)
      && (forall id :: id in w.store && Stale(id, w.store[id], p.c.name, p.authorized) ==> id in doomed)
    case _ => false
  }

  ghost predicate AllGood(w: World, p: Snapshot, names: set<string>) {
    forall n :: n in names ==> GoodCopy(p.c, w.store, n, p.value)
  }

  lemma QuietSync(a: World, b: World, s: string, outcome: CallOutcome, p: Snapshot)
    requires SyncStep(a, b, s, outcome) && QuietOk(a, p) && a.phase.todo <= p.authorized
    ensures QuietOk(b, p) && b.phase.todo <= p.authorized
  {
    CopyIsGood(Lookup(a.store, p.c.CopyId(s)), p.c, p.value);
    forall n | n in b.phase.synced ensures GoodCopy(p.c, b.store, n, p.value) {
      assert n == s || GoodCopy(p.c, a.store, n, p.value);
      assert n != s ==> p.c.CopyId(n) != p.c.CopyId(s);
    }
  }

  lemma QuietDelete(a: World, b: World, id: SecretId, outcome: CallOutcome, p: Snapshot)
    requires DeleteStep(a, b, id, outcome) && QuietOk(a, p) && b.phase.Pruning?
    ensures QuietOk(b, p)
  {
    forall n | n in b.phase.synced ensures GoodCopy(p.c, b.store, n, p.value) {
      assert GoodCopy(p.c, a.store, n, p.value) && id != p.c.CopyId(n);
    }
  }

  lemma QuietStep(a: World, b: World, p: Snapshot)
    requires Next(a, b) && QuietOk(a, p) && (b.phase.Syncing? || b.phase.Pruning?)
    requires a.phase.Syncing? ==> a.phase.todo <= p.authorized
    requires Environment(a, b) ==> b.store == a.store
    ensures QuietOk(b, p) && (b.phase.Syncing? ==> b.phase.todo <= p.authorized)
  {
    if Environment(a, b) {
    } else if s, outcome :| SyncStep(a, b, s, outcome) {
      QuietSync(a, b, s, outcome, p);
    } else if id, outcome :| DeleteStep(a, b, id, outcome) {
      QuietDelete(a, b, id, outcome, p);
    }
  }

  lemma QuietStart(a: World, b: World)
    requires SnapshotStep(a, b)
    ensures QuietOk(b, b.phase.pass) && b.phase.todo <= b.phase.pass.authorized
  {
  }

  ghost predicate QuietAt(w: World, p: Snapshot) {
    QuietOk(w, p) && (w.phase.Syncing? ==> w.phase.todo <= p.authorized)
  }

  lemma QuietAdvance(trace: seq<World>, s: int, u: int, j: int, p: Snapshot)
    requires Run(trace) && QuietPass(trace, s, u) && s < j < u && QuietAt(trace[j], p)
    ensures QuietAt(trace[j + 1], p)
  {
    var a, b := trace[j], trace[j + 1];
    assert StepAt(trace, j) && (EnvironmentAt(trace, j) ==> b.store == a.store);
    QuietStep(a, b, p);
  }

  ghost predicate KeptAt(trace: seq<World>, inv: World -> bool, k: int)
    requires 0 <= k < |trace| - 1
  {
    inv(trace[k]) ==> inv(trace[k + 1])
  }

  lemma {:induction false} Invariantly(trace: seq<World>, inv: World -> bool, j: int, u: int)
    requires 0 <= j <= u < |trace| && inv(trace[j])
    requires forall k :: j <= k < u ==> KeptAt(trace, inv, k)
    ensures inv(trace[u])
    decreases u - j
  {
    if j == u {
    } else {
      assert KeptAt(trace, inv, j);
      Invariantly(trace, inv, j + 1, u);
    }
  }

  lemma QuietInvariant(trace: seq<World>, s: int, u: int, p: Snapshot)
    requires Run(trace) && QuietPass(trace, s, u) && QuietAt(trace[s + 1], p)
    ensures QuietAt(trace[u], p)
  {
    var inv := (w: World) => QuietAt(w, p);
    forall k | s + 1 <= k < u ensures KeptAt(trace, inv, k) {
      if inv(trace[k]) {
        QuietAdvance(trace, s, u, k, p);
      }
    }
    Invariantly(trace, inv, s + 1, u);
  }

  /**
   When pruning completes in a pass during which nobody else wrote Secrets, every namespace it counts as
   synced holds a good copy, the label is nowhere outside the snapshot, and if all of the snapshot synced
   the store is exact for the snapshot, however namespaces and spec changed meanwhile.
   */
  lemma ReportIsTruthful(trace: seq<World>, s: int, u: int)
    requires Run(trace) && QuietPass(trace, s, u) && u + 1 < |trace| && PruneDone(trace[u], trace[u + 1])
    ensures var p, w := trace[s + 1].phase.pass, trace[u + 1];
            && w.phase.Closing? && w.phase.pass == p
            && (forall n :: n in w.phase.synced ==> GoodCopy(p.c, w.store, n, p.value))
            && (forall id :: id in w.store ==> !Stale(id, w.store[id], p.c.name, p.authorized))
            && (w.phase.synced == p.authorized ==> Exact(p.c, w.store, p.authorized, p.value))
  {
    QuietStart(trace[s], trace[s + 1]);
    QuietInvariant(trace, s, u, trace[s + 1].phase.pass);
  }

  // ---- The reconcile method is an uninterrupted run ----

  /** One controller step whose calls come out as the network says. */
  ghost predicate StepOf(a: World, b: World, net: Network) {
    || (exists n :: SyncStep(a, b, n, net(WriteSecret(n))))
    || ListStep(a, b, net(ListSecrets) == Done)
    || (exists id :: DeleteStep(a, b, id, net(DeleteSecret(id))))
    || PruneDone(a, b)
  }

  ghost predicate StepOfAt(trace: seq<World>, k: int, net: Network)
    requires 0 <= k < |trace| - 1
  {
    StepOf(trace[k], trace[k + 1], net)
  }

  /** From the snapshot at s to the end of pruning at u, nothing but the pass happens. */
  ghost predicate Uninterrupted(trace: seq<World>, s: int, u: int, net: Network) {
    && 0 <= s < u < |trace| && SnapshotStep(trace[s], trace[s + 1])
    && (forall k :: s < k < u ==> StepOfAt(trace, k, net))
    && trace[u].phase.Closing?
  }

  ghost function SyncedBy(net: Network, pre: Store, p: Snapshot, names: set<string>): set<string> {
    set n | n in names && Syncs(net, pre, p.c, n)
  }

  ghost predicate PartlyPruned(net: Network, mid: Store, store: Store, p: Snapshot, doomed: set<SecretId>) {
    && (forall id :: id in store ==> id in mid && store[id] == mid[id])
    && (forall id :: id in mid && Stale(id, mid[id], p.c.name, p.authorized) && id !in doomed ==>
          id !in store && net(DeleteSecret(id)) == Done)
    && (forall id :: id in mid && id !in store ==>
        Stale(id, mid[id], p.c.name, p.authorized) && net(DeleteSecret(id)) != Refused)
    && (forall id :: id in doomed ==> id in mid && Stale(id, mid[id], p.c.name, p.authorized))
  }

  /** The loop invariants of the reconcile method, read off the machine's state. */
  ghost predicate Mirrors(w: World, net: Network, pre: Store, p: Snapshot) {
    var mid := Written(net, pre, p.c, p.value, p.authorized);
    match w.phase
    case Syncing(q, todo, synced) =>
      && q == p && todo <= p.authorized && synced == SyncedBy(net, pre, p, p.authorized - todo)
      && w.store == Written(net, pre, p.c, p.value, p.authorized - todo)
    case Pruning(q, synced, doomed) =>
      && q == p && net(ListSecrets) == Done && synced == SyncedBy(net, pre, p, p.authorized)
      && PartlyPruned(net, mid, w.store, p, doomed)
    case Closing(q, synced) =>
      && q == p && synced == SyncedBy(net, pre, p, p.authorized)
      && exists ok :: Pruned(net, mid, w.store, p.c.name, p.authorized, ok)
    case _ => false
  }

  lemma MirrorSync(a: World, b: World, n: string, net: Network, pre: Store, p: Snapshot)
    requires SyncStep(a, b, n, net(WriteSecret(n))) && Mirrors(a, net, pre, p)
    ensures Mirrors(b, net, pre, p)
  {
    var done := p.authorized - a.phase.todo;
    OneMoreWrite(net, pre, p.c, p.value, done, n);
    assert Lookup(a.store, p.c.CopyId(n)) == Lookup(pre, p.c.CopyId(n));
    assert b.phase.Syncing? && b.phase.todo == a.phase.todo - {n} && b.phase.pass == p;
    assert p.authorized - b.phase.todo == done + {n};
    assert b.store == Written(net, pre, p.c, p.value, done + {n});
    MoreSynced(net, pre, p, done, n);
    assert b.phase.synced == SyncedBy(net, pre, p, done + {n});
  }

  lemma MoreSynced(net: Network, pre: Store, p: Snapshot, done: set<string>, n: string)
    ensures SyncedBy(net, pre, p, done + {n}) == SyncedBy(net, pre, p, done) + if Syncs(net, pre, p.c, n) then {n}
            else {}
  {
  }

  lemma MirrorList(a: World, b: World, net: Network, pre: Store, p: Snapshot)
    requires ListStep(a, b, net(ListSecrets) == Done) && Mirrors(a, net, pre, p)
    ensures Mirrors(b, net, pre, p)
  {
    assert p.authorized - {} == p.authorized;
    if net(ListSecrets) != Done {
      assert Pruned(net, a.store, b.store, p.c.name, p.authorized, false);
    }
  }

  lemma MirrorDelete(a: World, b: World, id: SecretId, net: Network, pre: Store, p: Snapshot)
    requires DeleteStep(a, b, id, net(DeleteSecret(id))) && Mirrors(a, net, pre, p)
    ensures Mirrors(b, net, pre, p)
  {
    var mid := Written(net, pre, p.c, p.value, p.authorized);
    DeleteOne(net, mid, a.store, b.store, p, a.phase.doomed, id);
    if net(DeleteSecret(id)) != Done {
      assert Pruned(net, mid, b.store, p.c.name, p.authorized, false);
    }
  }

  lemma DeleteOne(net: Network, mid: Store, before: Store, after: Store, p: Snapshot, doomed: set<SecretId>,
                  id: SecretId)
    requires PartlyPruned(net, mid, before, p, doomed) && id in doomed && net(ListSecrets) == Done
    requires after == if net(DeleteSecret(id)) != Refused then before - {id} else before
    ensures if net(DeleteSecret(id)) == Done then PartlyPruned(net, mid, after, p, doomed - {id})
            else Pruned(net, mid, after, p.c.name, p.authorized, false)
  {
  }

  lemma MirrorDone(a: World, b: World, net: Network, pre: Store, p: Snapshot)
    requires PruneDone(a, b) && Mirrors(a, net, pre, p)
    ensures Mirrors(b, net, pre, p)
  {
    var mid := Written(net, pre, p.c, p.value, p.authorized);
    assert Pruned(net, mid, b.store, p.c.name, p.authorized, true);
  }

  lemma MirrorStep(a: World, b: World, net: Network, pre: Store, p: Snapshot)
    requires StepOf(a, b, net) && Mirrors(a, net, pre, p)
    ensures Mirrors(b, net, pre, p)
  {
    if n :| SyncStep(a, b, n, net(WriteSecret(n))) {
      MirrorSync(a, b, n, net, pre, p);
    } else if ListStep(a, b, net(ListSecrets) == Done) {
      MirrorList(a, b, net, pre, p);
    } else if id :| DeleteStep(a, b, id, net(DeleteSecret(id))) {
      MirrorDelete(a, b, id, net, pre, p);
    } else {
      MirrorDone(a, b, net, pre, p);
    }
  }

  lemma MirrorRun(trace: seq<World>, s: int, u: int, net: Network, pre: Store, p: Snapshot)
    requires Uninterrupted(trace, s, u, net) && Mirrors(trace[s + 1], net, pre, p)
    ensures Mirrors(trace[u], net, pre, p)
  {
    var inv := (w: World) => Mirrors(w, net, pre, p);
    forall k | s + 1 <= k < u ensures KeptAt(trace, inv, k) {
      assert StepOfAt(trace, k, net);
      if inv(trace[k]) {
        MirrorStep(trace[k], trace[k + 1], net, pre, p);
      }
    }
    Invariantly(trace, inv, s + 1, u);
  }

  /**
   An uninterrupted run of the call-by-call machine does to the store, and counts as synced, what the
   reconcile method does to it in one go.
   */
  lemma UninterruptedRunIsPass(trace: seq<World>, s: int, u: int, net: Network)
    requires Uninterrupted(trace, s, u, net)
    ensures var p, pre, last := trace[s + 1].phase.pass, trace[s].store, trace[u];
            && last.phase.pass == p && last.phase.synced == SyncedBy(net, pre, p, p.authorized)
            && exists ok ::
                 Pruned(net, Written(net, pre, p.c, p.value, p.authorized), last.store, p.c.name, p.authorized, ok)
  {
    var p, pre := trace[s + 1].phase.pass, trace[s].store;
    assert p.authorized - p.authorized == {};
    assert Written(net, pre, p.c, p.value, {}) == pre;
    assert SyncedBy(net, pre, p, {}) == {};
    MirrorRun(trace, s, u, net, pre, p);
  }
}
