/**
  The other half of crash recovery: where every demand lasts, each boot of a sequential history is a pass
  over the first migration that is not recorded, and the one that gets through leaves what a single
  uninterrupted run leaves.
*/
module MigrationCrashes {
  import opened Wrappers
  import opened Migrations
  import opened MigrationRuns
  import opened MigrationBoots
  import opened MigrationDrops

  /** The list is recoverable: its pending migrations take older things and let their demands last. */
  ghost predicate AllLasting(ms: seq<Migration>, applied: set<int>) {
    forall m :: m in ms && m.id !in applied ==> Lasting(m.stmts)
  }

  ghost predicate AllTakeOlder(ms: seq<Migration>, applied: set<int>) {
    forall m :: m in ms && m.id !in applied ==> TakesOlder(m.stmts)
  }

  // ----- The uninterrupted run, migration by migration -----

  function Base(ms: seq<Migration>, applied: set<int>, schema: Schema, i: nat): Schema
    requires i <= |ms|
  {
    if i == 0 then schema
    else
      var q := Pending(ms[i - 1], applied);
      Chain(q, Base(ms, applied, schema, i - 1), |q|)
  }

  /** Part of a list, run from where the list has come to. */
  lemma {:induction false} ChainPart(flat: seq<Stmt>, schema: Schema, off: nat, q: seq<Stmt>, k: nat)
    requires off + |q| <= |flat| && flat[off..off + |q|] == q && k <= |q|
    ensures Chain(flat, schema, off + k) == Chain(q, Chain(flat, schema, off), k)
  {
    hide Execute;
    if k > 0 {
      ChainPart(flat, schema, off, q, k - 1);
      assert flat[off + (k - 1)] == flat[off..off + |q|][k - 1];
      ChainNext(flat, schema, off + (k - 1));
    }
  }

  lemma {:induction false} FlatPart(ms: seq<Migration>, applied: set<int>, i: nat)
    requires i < |ms|
    ensures var q, off := Pending(ms[i], applied), Off(ms, applied, i);
            off + |q| == Off(ms, applied, i + 1) <= |Flat(ms, applied)| && Flat(ms, applied)[off..off + |q|] == q
  {
    var q, off := Pending(ms[i], applied), Off(ms, applied, i);
    OffNext(ms, applied, i);
    OffMonotone(ms, applied, i + 1, |ms|);
    forall s | 0 <= s < |q|
      ensures Flat(ms, applied)[off + s] == q[s]
    {
      FlatAt(ms, applied, i, s);
    }
  }

  lemma {:induction false} BaseIs(ms: seq<Migration>, applied: set<int>, schema: Schema, i: nat)
    requires i <= |ms|
    ensures Off(ms, applied, i) <= |Flat(ms, applied)|
    ensures Base(ms, applied, schema, i) == Chain(Flat(ms, applied), schema, Off(ms, applied, i))
  {
    hide Chain, Flat;
    if i == 0 {
      OffStart(ms, applied);
      ChainStart(Flat(ms, applied), schema);
    } else {
      BaseIs(ms, applied, schema, i - 1);
      FlatPart(ms, applied, i - 1);
      var q := Pending(ms[i - 1], applied);
      ChainPart(Flat(ms, applied), schema, Off(ms, applied, i - 1), q, |q|);
    }
  }

  lemma {:induction false} ChainStart(flat: seq<Stmt>, schema: Schema)
    ensures Chain(flat, schema, 0) == schema
  {
  }

  lemma {:induction false} BaseSolo(ms: seq<Migration>, applied: set<int>, schema: Schema)
    ensures Base(ms, applied, schema, |ms|) == SoloSchema(ms, applied, schema)
  {
    hide Base, FlatTo, Chain;
    BaseIs(ms, applied, schema, |ms|);
  }

  lemma {:induction false} BaseSound(ms: seq<Migration>, applied: set<int>, schema: Schema, i: nat)
    requires i <= |ms| && Sound(schema)
    ensures Sound(Base(ms, applied, schema, i))
  {
    hide Chain, Sound;
    if i > 0 {
      BaseSound(ms, applied, schema, i - 1);
      var q := Pending(ms[i - 1], applied);
      ChainSound(q, Base(ms, applied, schema, i - 1), |q|);
    }
  }

  lemma {:induction false} BaseRuns(ms: seq<Migration>, applied: set<int>, schema: Schema, i: nat)
    requires i < |ms| && Runs(Flat(ms, applied), schema)
    ensures Runs(Pending(ms[i], applied), Base(ms, applied, schema, i))
  {
    hide Chain, Base, Execute;
    var q, off, flat := Pending(ms[i], applied), Off(ms, applied, i), Flat(ms, applied);
    BaseIs(ms, applied, schema, i);
    FlatPart(ms, applied, i);
    forall k: nat | k < |q|
      ensures StatementRuns(q, Base(ms, applied, schema, i), k)
    {
      assert StatementRuns(flat, schema, off + k);
      ChainPart(flat, schema, off, q, k);
      assert flat[off + k] == flat[off..off + |q|][k];
    }
  }

  // ----- The invariant -----

  /** The schema while migration `i` is the first not yet recorded in this run, before its statement `j`. */
  ghost predicate PassAt(ms: seq<Migration>, applied: set<int>, start: Schema, now: Schema, i: nat, j: nat)
    requires i <= |ms|
  {
    if i == |ms| then now == Base(ms, applied, start, i)
    else Pass(Pending(ms[i], applied), Base(ms, applied, start, i), now, j)
  }

  /** Where process `p` stands while migration `i` is the first not yet recorded. */
  ghost predicate StandsOk(ms: seq<Migration>, applied: set<int>, start: Schema, sys: Sys, i: nat, proc: Proc)
    requires i <= |ms|
  {
    match proc
    case Reading => PassAt(ms, applied, start, sys.schema, i, 0)
    case Applying(snapshot, mi, si) =>
      && applied <= snapshot && mi <= i && RowIds(sys.rows) == snapshot + IdsTo(ms, mi)
      && (forall j :: mi <= j < i ==> ms[j].id in snapshot)
      && (si > 0 ==> mi == i && i < |ms| && ms[i].id !in snapshot && si <= |ms[i].stmts|)
      && PassAt(ms, applied, start, sys.schema, i, si)
    case Booting(k) => k <= 3 && i == |ms| && PassAt(ms, applied, start, sys.schema, i, 0)
    case Finished => i == |ms|
    case Dead => true
    case _ => false
  }

  ghost predicate SeqInv(ms: seq<Migration>, applied: set<int>, start: Schema, sys: Sys, i: nat) {
    && i <= |ms| && RowIds(sys.rows) == applied + IdsTo(ms, i)
    && (forall p :: p in sys.procs ==> StandsOk(ms, applied, start, sys, i, sys.procs[p]))
    && (forall p, q :: p in sys.procs && q in sys.procs && Live(sys.procs[p]) && Live(sys.procs[q]) ==> p == q)
    && (NobodyLive(sys) ==> PassAt(ms, applied, start, sys.schema, i, 0))
  }

  ghost predicate Recoverable(ms: seq<Migration>, applied: set<int>, start: Schema) {
    && DistinctIds(ms) && Sound(start) && Runs(Flat(ms, applied), start)
    && Bootable(SoloSchema(ms, applied, start))
    && AllTakeOlder(ms, applied) && AllLasting(ms, applied)
  }

  lemma {:induction false} AllTame(ms: seq<Migration>, applied: set<int>, i: nat)
    requires AllTakeOlder(ms, applied) && AllLasting(ms, applied) && i < |ms|
    ensures Tame(Pending(ms[i], applied))
  {
    hide TakesOlder, Lasting;
    if ms[i].id !in applied {
      assert ms[i] in ms;
      LastingTame(ms[i].stmts);
    }
  }

  lemma {:induction false} PassAtFirst(ms: seq<Migration>, applied: set<int>, start: Schema, i: nat)
    requires i <= |ms| && Sound(start)
    ensures PassAt(ms, applied, start, Base(ms, applied, start, i), i, 0)
  {
    hide Pass, Base, Sound;
    BaseSound(ms, applied, start, i);
    if i < |ms| {
      PassFirst(Pending(ms[i], applied), Base(ms, applied, start, i));
    }
  }

  lemma {:induction false} PassAtAgain(ms: seq<Migration>, applied: set<int>, start: Schema, now: Schema, i: nat, j: nat)
    requires i <= |ms| && PassAt(ms, applied, start, now, i, j)
    ensures PassAt(ms, applied, start, now, i, 0)
  {
    hide Pass, Base;
    if i < |ms| {
      PassAgain(Pending(ms[i], applied), Base(ms, applied, start, i), now, j);
    }
  }

  /** The end of one migration is the start of the next. */
  lemma {:induction false} PassAtNext(ms: seq<Migration>, applied: set<int>, start: Schema, now: Schema, i: nat)
    requires i < |ms| && Sound(start) && PassAt(ms, applied, start, now, i, |Pending(ms[i], applied)|)
    ensures PassAt(ms, applied, start, now, i + 1, 0)
  {
    hide Pass, Chain, Sound;
    PassEnds(Pending(ms[i], applied), Base(ms, applied, start, i), now);
    PassAtFirst(ms, applied, start, i + 1);
  }

  /** A step of the live process, given where it ends up. */
  lemma {:induction false} LiveStep(ms: seq<Migration>, applied: set<int>, start: Schema, sys: Sys, i: nat, p: Pid,
                                    next: Sys, i': nat)
    requires SeqInv(ms, applied, start, sys, i) && p in sys.procs && Live(sys.procs[p])
    requires i <= i' <= |ms| && RowIds(next.rows) == applied + IdsTo(ms, i')
    requires p in next.procs && next.procs == sys.procs[p := next.procs[p]]
    requires StandsOk(ms, applied, start, next, i', next.procs[p])
    requires !Live(next.procs[p]) ==> PassAt(ms, applied, start, next.schema, i', 0)
    ensures SeqInv(ms, applied, start, next, i')
  {
    hide PassAt;
    forall q | q in next.procs
      ensures StandsOk(ms, applied, start, next, i', next.procs[q])
    {
      if q != p {
        assert !Live(sys.procs[q]);
      }
    }
  }

  lemma {:induction false} StatementGoesOn(ms: seq<Migration>, applied: set<int>, start: Schema, sys: Sys, i: nat, p: Pid, now: int)
    requires Recoverable(ms, applied, start) && SeqInv(ms, applied, start, sys, i) && p in sys.procs && sys.procs[p].Applying?
    requires var pr := sys.procs[p];
             pr.mi == i < |ms| && ms[i].id !in pr.snapshot && pr.si < |ms[i].stmts|
    ensures SeqInv(ms, applied, start, Advance(ms, sys, p, now), i)
  {
    hide Execute, Chain, Base, Pass, FlatTo, Flat, Runs, Bootable, Sound, AllTakeOlder, AllLasting, Tame;
    var pr, q := sys.procs[p], Pending(ms[i], applied);
    assert StandsOk(ms, applied, start, sys, i, pr);
    AllTame(ms, applied, i);
    BaseRuns(ms, applied, start, i);
    BaseSound(ms, applied, start, i);
    PassStep(q, Base(ms, applied, start, i), sys.schema, pr.si);
    LiveStep(ms, applied, start, sys, i, p, Advance(ms, sys, p, now), i);
  }

  lemma {:induction false} RecordGoesOn(ms: seq<Migration>, applied: set<int>, start: Schema, sys: Sys, i: nat, p: Pid, now: int)
    requires Recoverable(ms, applied, start) && SeqInv(ms, applied, start, sys, i) && p in sys.procs && sys.procs[p].Applying?
    requires var pr := sys.procs[p];
             pr.mi == i < |ms| && ms[i].id !in pr.snapshot && pr.si >= |ms[i].stmts|
    ensures SeqInv(ms, applied, start, Advance(ms, sys, p, now), i + 1)
  {
    hide Execute, Chain, Base, Pass, FlatTo, Flat, Runs, Bootable, Sound, AllTakeOlder, AllLasting, PassAt;
    var pr := sys.procs[p];
    assert StandsOk(ms, applied, start, sys, i, pr);
    IdsToBelow(ms, i, i);
    PassAtNext(ms, applied, start, sys.schema, i);
    var next := Advance(ms, sys, p, now);
    assert RowIds(next.rows) == RowIds(sys.rows) + {ms[i].id};
    assert IdsTo(ms, i + 1) == IdsTo(ms, i) + {ms[i].id};
    LiveStep(ms, applied, start, sys, i, p, next, i + 1);
  }

  lemma {:induction false} SkipGoesOn(ms: seq<Migration>, applied: set<int>, start: Schema, sys: Sys, i: nat, p: Pid, now: int)
      returns (i': nat)
    requires Recoverable(ms, applied, start) && SeqInv(ms, applied, start, sys, i) && p in sys.procs && sys.procs[p].Applying?
    requires var pr := sys.procs[p]; pr.mi < |ms| && ms[pr.mi].id in pr.snapshot
    ensures SeqInv(ms, applied, start, Advance(ms, sys, p, now), i')
  {
    hide Execute, Chain, Base, Pass, FlatTo, Flat, Runs, Bootable, Sound, AllTakeOlder, AllLasting, PassAt;
    var pr, next := sys.procs[p], Advance(ms, sys, p, now);
    assert StandsOk(ms, applied, start, sys, i, pr);
    assert IdsTo(ms, pr.mi + 1) == IdsTo(ms, pr.mi) + {ms[pr.mi].id};
    i' := i;
    if pr.mi == i {
      IdsToBelow(ms, i, i);
      PassAtNext(ms, applied, start, sys.schema, i);
      i' := i + 1;
    }
    LiveStep(ms, applied, start, sys, i, p, next, i');
  }

  lemma {:induction false} BootGoesOn(ms: seq<Migration>, applied: set<int>, start: Schema, sys: Sys, i: nat, p: Pid, now: int)
    requires Recoverable(ms, applied, start) && SeqInv(ms, applied, start, sys, i) && p in sys.procs && sys.procs[p].Booting?
    ensures SeqInv(ms, applied, start, Advance(ms, sys, p, now), i)
  {
    hide Execute, Chain, Base, Pass, FlatTo, Flat, Runs, Sound, AllTakeOlder, AllLasting, BootNeeds, BootStep, SoloSchema;
    assert StandsOk(ms, applied, start, sys, i, sys.procs[p]);
    BaseSolo(ms, applied, start);
    LiveStep(ms, applied, start, sys, i, p, Advance(ms, sys, p, now), i);
  }

  lemma {:induction false} StepGoesOn(ms: seq<Migration>, applied: set<int>, start: Schema, sys: Sys, i: nat, p: Pid, now: int)
      returns (i': nat)
    requires Recoverable(ms, applied, start) && SeqInv(ms, applied, start, sys, i) && p in sys.procs
    ensures SeqInv(ms, applied, start, Advance(ms, sys, p, now), i')
  {
    hide Execute, PassAt, Recoverable, RowIds, BootStep, BootNeeds;
    i' := i;
    var pr := sys.procs[p];
    assert StandsOk(ms, applied, start, sys, i, pr);
    if pr.Reading? {
      ReadGoesOn(ms, applied, start, sys, i, p, now);
    } else if pr.Booting? {
      BootGoesOn(ms, applied, start, sys, i, p, now);
    } else if pr.Applying? {
      if pr.mi >= |ms| {
        LiveStep(ms, applied, start, sys, i, p, Advance(ms, sys, p, now), i);
      } else if ms[pr.mi].id in pr.snapshot {
        i' := SkipGoesOn(ms, applied, start, sys, i, p, now);
      } else if pr.si < |ms[pr.mi].stmts| {
        StatementGoesOn(ms, applied, start, sys, i, p, now);
      } else {
        RecordGoesOn(ms, applied, start, sys, i, p, now);
        i' := i + 1;
      }
    }
  }

  lemma {:induction false} ReadGoesOn(ms: seq<Migration>, applied: set<int>, start: Schema, sys: Sys, i: nat, p: Pid, now: int)
    requires SeqInv(ms, applied, start, sys, i) && p in sys.procs && sys.procs[p].Reading?
    ensures SeqInv(ms, applied, start, Advance(ms, sys, p, now), i)
  {
    hide Execute, PassAt, BootStep, BootNeeds;
    assert StandsOk(ms, applied, start, sys, i, sys.procs[p]);
    forall j | 0 <= j < i
      ensures ms[j].id in RowIds(sys.rows)
    {
      IdsToAre(ms, i, j);
    }
    LiveStep(ms, applied, start, sys, i, p, Advance(ms, sys, p, now), i);
  }

  /** A start, step or kill of a sequential history. */
  lemma {:induction false} EventGoesOn(ms: seq<Migration>, applied: set<int>, start: Schema, sys: Sys, i: nat, e: Event)
      returns (i': nat)
    requires Recoverable(ms, applied, start) && SeqInv(ms, applied, start, sys, i)
    requires e.Spawn? ==> NobodyLive(sys)
    ensures SeqInv(ms, applied, start, Happen(ms, sys, e), i')
  {
    hide Advance, PassAt, Recoverable, RowIds;
    i' := i;
    match e
    case Spawn(p) =>
    case Step(p, now) =>
      if p in sys.procs {
        i' := StepGoesOn(ms, applied, start, sys, i, p, now);
      }
    case Kill(p) =>
      if p in sys.procs && Live(sys.procs[p]) {
        assert StandsOk(ms, applied, start, sys, i, sys.procs[p]);
        var j := if sys.procs[p].Applying? then sys.procs[p].si else 0;
        PassAtAgain(ms, applied, start, sys.schema, i, j);
        LiveStep(ms, applied, start, sys, i, p, Happen(ms, sys, e), i);
      }
  }

  lemma {:induction false} RunGoesOn(ms: seq<Migration>, sys: Sys, es: seq<Event>) returns (i: nat)
    requires Initial(sys) && Recoverable(ms, RowIds(sys.rows), sys.schema) && Sequential(ms, sys, es)
    ensures SeqInv(ms, RowIds(sys.rows), sys.schema, Run(ms, sys, es), i)
  {
    hide PassAt, Recoverable, SeqInv, Happen;
    if es == [] {
      i := 0;
      RecoverableIs(ms, RowIds(sys.rows), sys.schema);
      StartOk(ms, sys);
    } else {
      var before := RunGoesOn(ms, sys, es[..|es| - 1]);
      i := EventGoesOn(ms, RowIds(sys.rows), sys.schema, Run(ms, sys, es[..|es| - 1]), before, es[|es| - 1]);
    }
  }

  lemma {:induction false} StartOk(ms: seq<Migration>, sys: Sys)
    requires Initial(sys) && Sound(sys.schema)
    ensures SeqInv(ms, RowIds(sys.rows), sys.schema, sys, 0)
  {
    hide PassAt, RowIds, Sound;
    PassAtFirst(ms, RowIds(sys.rows), sys.schema, 0);
  }

  // ----- What sequential histories promise -----

  lemma {:induction false} IdsToAll(ms: seq<Migration>)
    ensures IdsTo(ms, |ms|) == Ids(ms)
  {
    forall id | id in IdsTo(ms, |ms|)
      ensures id in Ids(ms)
    {
      var j := IdsToFrom(ms, |ms|, id);
      assert ms[j] in ms;
    }
    forall id | id in Ids(ms)
      ensures id in IdsTo(ms, |ms|)
    {
      var m :| m in ms && m.id == id;
      var j :| 0 <= j < |ms| && ms[j] == m;
      IdsToAre(ms, |ms|, j);
    }
  }

  /** Whoever finishes after any crashes leaves the schema and the ids of one uninterrupted run. */
  lemma {:induction false} RecoveredMeansSolo(ms: seq<Migration>, sys: Sys, es: seq<Event>, p: Pid)
    requires Initial(sys) && Recoverable(ms, RowIds(sys.rows), sys.schema) && Sequential(ms, sys, es)
    requires var end := Run(ms, sys, es); p in end.procs && end.procs[p] == Finished
    ensures Run(ms, sys, es).schema == SoloSchema(ms, RowIds(sys.rows), sys.schema)
    ensures RowIds(Run(ms, sys, es).rows) == RowIds(sys.rows) + Ids(ms)
  {
    hide Base, Recoverable, Run, SoloSchema, Initial;
    var i := RunGoesOn(ms, sys, es);
    var end := Run(ms, sys, es);
    assert StandsOk(ms, RowIds(sys.rows), sys.schema, end, i, end.procs[p]);
    if q :| q in end.procs && Live(end.procs[q]) {
      assert StandsOk(ms, RowIds(sys.rows), sys.schema, end, i, end.procs[q]);
    }
    BaseSolo(ms, RowIds(sys.rows), sys.schema);
    IdsToAll(ms);
  }

  /** A live process that is left alone finishes. */
  lemma {:induction false} AloneFinishes(ms: seq<Migration>, applied: set<int>, start: Schema, sys: Sys, i: nat, p: Pid, now: int)
      returns (n: nat)
    requires Recoverable(ms, applied, start) && SeqInv(ms, applied, start, sys, i) && p in sys.procs
    requires Live(sys.procs[p]) || sys.procs[p] == Finished
    ensures var end := Run(ms, sys, Alone(p, now, n)); p in end.procs && end.procs[p] == Finished
    decreases sys.procs[p] != Finished, Left(ms, sys.procs[p]), LeftHere(ms, sys.procs[p])
  {
    hide PassAt, Advance, Recoverable, Run, RowIds, Left, LeftHere;
    if sys.procs[p] == Finished {
      n := 0;
      NoSteps(ms, sys, p, now);
    } else {
      var next := Advance(ms, sys, p, now);
      var i' := StepGoesOn(ms, applied, start, sys, i, p, now);
      assert StandsOk(ms, applied, start, sys, i, sys.procs[p]);
      AdvanceOwn(ms, sys, p, now);
      assert StandsOk(ms, applied, start, next, i', next.procs[p]);
      RecoverableIs(ms, applied, start);
      SoleStep(ms, sys, p, now);
      var m := AloneFinishes(ms, applied, start, next, i', p, now);
      n := m + 1;
      FirstStep(ms, sys, p, now, m);
    }
  }

  lemma {:induction false} RecoverableIs(ms: seq<Migration>, applied: set<int>, start: Schema)
    requires Recoverable(ms, applied, start)
    ensures DistinctIds(ms) && Sound(start)
  {
  }

  /** A step does not kill. */
  lemma {:induction false} AdvanceOwn(ms: seq<Migration>, sys: Sys, p: Pid, now: int)
    requires p in sys.procs && Live(sys.procs[p])
    ensures p in Advance(ms, sys, p, now).procs && !Advance(ms, sys, p, now).procs[p].Dead?
  {
    hide Execute, RowIds, BootNeeds, BootStep;
  }

  /**
    Exactly when the runner recovers from crashes, for lists whose pending migrations, up to their first bare
    drop or rename, take away nothing they made themselves: after every history of one process at a time,
    each killed anywhere, the next boot finishes if and only if in no pending migration a statement asks for
    something that it or a later one takes away.  A bare drop or a rename always does.
  */
  lemma {:induction false} RecoversIff(ms: seq<Migration>, sys: Sys)
    requires Initial(sys) && DistinctIds(ms) && Sound(sys.schema) && Runs(Flat(ms, RowIds(sys.rows)), sys.schema)
    requires Bootable(SoloSchema(ms, RowIds(sys.rows), sys.schema))
    requires AllTakeOlder(ms, RowIds(sys.rows))
    ensures Recovers(ms, sys) <==> AllLasting(ms, RowIds(sys.rows))
  {
    hide Run, Lasting, TakesOlder, Runs, Chain, Flat, Sound, Bootable, SeqInv, Sequential, NextFinishes;
    if AllLasting(ms, RowIds(sys.rows)) {
      forall es: seq<Event>, p: Pid, now: int |
        Sequential(ms, sys, es) && NobodyLive(Run(ms, sys, es)) && p !in Run(ms, sys, es).procs
        ensures NextFinishes(ms, Run(ms, sys, es), p, now)
      {
        NextBoot(ms, sys, es, p, now);
      }
    } else {
      var m :| m in ms && m.id !in RowIds(sys.rows) && !Lasting(m.stmts);
      var i :| 0 <= i < |ms| && ms[i] == m;
      DropStrands(ms, sys, i);
    }
  }

  lemma {:induction false} NextBoot(ms: seq<Migration>, sys: Sys, es: seq<Event>, p: Pid, now: int)
    requires Initial(sys) && Recoverable(ms, RowIds(sys.rows), sys.schema) && Sequential(ms, sys, es)
    requires NobodyLive(Run(ms, sys, es)) && p !in Run(ms, sys, es).procs
    ensures NextFinishes(ms, Run(ms, sys, es), p, now)
  {
    hide Run, Recoverable, SeqInv, Sequential, NobodyLive, Initial;
    var crashed, applied := Run(ms, sys, es), RowIds(sys.rows);
    var i := RunGoesOn(ms, sys, es);
    var started := Happen(ms, crashed, Spawn(p));
    var i' := EventGoesOn(ms, applied, sys.schema, crashed, i, Spawn(p));
    var n := AloneFinishes(ms, applied, sys.schema, started, i', p, now);
    SpawnFirst(ms, crashed, p, now, n);
    assert FinishedAfter(ms, crashed, p, now, n);
  }

  lemma {:induction false} SpawnFirst(ms: seq<Migration>, sys: Sys, p: Pid, now: int, n: nat)
    ensures Booted(ms, sys, p, now, n) == Run(ms, Happen(ms, sys, Spawn(p)), Alone(p, now, n))
  {
    hide Happen;
    RunAppend(ms, sys, [Spawn(p)], Alone(p, now, n));
    assert [Spawn(p)][..0] == [];
    assert Run(ms, sys, []) == sys;
    assert Run(ms, sys, [Spawn(p)]) == Happen(ms, Run(ms, sys, []), Spawn(p));
  }

  // ----- Any history at all -----

  /** After every history, of overlapping processes too, a boot that is then left alone finishes. */
  ghost predicate RecoversAnyhow(ms: seq<Migration>, sys: Sys) {
    forall es: seq<Event>, p: Pid, now: int ::
      p !in Run(ms, sys, es).procs ==> NextFinishes(ms, Run(ms, sys, es), p, now)
  }

  lemma {:induction false} SteadyRecovers(ms: seq<Migration>, sys: Sys)
    requires Initial(sys) && Deployable(ms, RowIds(sys.rows), sys.schema)
    ensures RecoversAnyhow(ms, sys)
  {
    hide Run, Deployable, Initial;
    forall es: seq<Event>, p: Pid, now: int | p !in Run(ms, sys, es).procs
      ensures NextFinishes(ms, Run(ms, sys, es), p, now)
    {
      var n := NextBootFinishes(ms, sys, es, p, now);
      assert es + [Spawn(p)] + Alone(p, now, n) == es + ([Spawn(p)] + Alone(p, now, n));
      RunAppend(ms, sys, es, [Spawn(p)] + Alone(p, now, n));
      assert FinishedAfter(ms, Run(ms, sys, es), p, now, n);
    }
  }

  /**
    Where the pending statements add, or take something older away without IF EXISTS: the next boot finishes
    after every history if and only if nothing pending is a drop or a rename.
  */
  lemma {:induction false} RecoversIffNoDrop(ms: seq<Migration>, sys: Sys)
    requires Initial(sys) && DistinctIds(ms) && Sound(sys.schema) && Runs(Flat(ms, RowIds(sys.rows)), sys.schema)
    requires Bootable(SoloSchema(ms, RowIds(sys.rows), sys.schema))
    requires AllTakeOlder(ms, RowIds(sys.rows))
    requires forall st :: st in Flat(ms, RowIds(sys.rows)) ==> !Clears(st)
    ensures RecoversAnyhow(ms, sys) <==> AddOnly(Flat(ms, RowIds(sys.rows)))
  {
    hide Run, Runs, Chain, FlatTo, Sound, Bootable, TakesOlder, Lasting, NextFinishes;
    var applied, flat := RowIds(sys.rows), Flat(ms, RowIds(sys.rows));
    if AddOnly(flat) {
      AddOnlySteady(flat, sys.schema);
      SteadyRecovers(ms, sys);
    } else {
      var k :| 0 <= k < |flat| && !Adds(flat[k]);
      var i, s := FlatFrom(ms, applied, |ms|, k);
      assert flat[k] in flat;
      BareNeverLasts(ms[i].stmts, s);
      assert ms[i] in ms;
      RecoversIff(ms, sys);
    }
  }

  lemma {:induction false} BareNeverLasts(stmts: seq<Stmt>, b: nat)
    requires b < |stmts| && Bare(stmts[b])
    ensures !Lasting(stmts)
  {
    assert !Leaves(stmts[b], stmts[b]);
  }

  // ----- The shipped drops and renames -----

  const RENAME_0024 := [
    Rename("chat_threads", "chat_sessions"),
    AddColumn("chat_sessions", "engine_id"),
    CreateIndex("chat_sessions", "idx_chat_sessions_engine_id", {"engine_id"}, false)]

  const VIEW_0040 := [
    DropTable("latest_account_balances", true),
    CreateTable("latest_account_balances", {}, false)]

  const DROP_0060 := [
    DropIndex("chat_sessions", "idx_chat_sessions_engine_id", true),
    DropIndex("chat_user_turns", "idx_chat_user_turns_thread", true),
    DropTable("chat_user_turns", true),
    DropTable("chat_sessions", true)]

  const COLUMN_0068 := [AddColumn("chi_cache", "pid"), DropColumn("chi_cache", "terminal_session_id")]

  /** The schema statements of the rebuild; its copying of rows is not modelled. */
  const REBUILD_0071 := [
    CreateTable("artifact_comments_new", {"id", "artifact_path", "status", "created_at"}, false),
    DropTable("artifact_comments", false),
    Rename("artifact_comments_new", "artifact_comments"),
    CreateIndex("artifact_comments", "idx_artifact_comments_path_status", {"artifact_path", "status"}, true),
    CreateIndex("artifact_comments", "idx_artifact_comments_status_created", {"status", "created_at"}, true)]

  /** The guarded ones recover from every crash. */
  lemma {:induction false} GuardedDropsLast()
    ensures TakesOlder(VIEW_0040) && Lasting(VIEW_0040)
    ensures TakesOlder(DROP_0060) && Lasting(DROP_0060)
  {
    NothingAsked(VIEW_0040);
    NothingAsked(DROP_0060);
  }

  lemma {:induction false} NothingAsked(stmts: seq<Stmt>)
    requires forall st :: st in stmts ==> Demand(st).None?
    ensures Lasting(stmts)
  {
  }

  /** Of the other three, some crash strands the database. */
  lemma {:induction false} BareDropsStrand()
    ensures TakesOlder(RENAME_0024) && !Lasting(RENAME_0024)
    ensures TakesOlder(COLUMN_0068) && !Lasting(COLUMN_0068)
    ensures TakesOlder(REBUILD_0071) && !Lasting(REBUILD_0071)
  {
    FirstBareOlder(RENAME_0024, 0);
    FirstBareOlder(COLUMN_0068, 1);
    FirstBareOlder(REBUILD_0071, 1);
  }

  /** A bare drop or rename behind adding statements that do not make what it takes. */
  lemma {:induction false} FirstBareOlder(stmts: seq<Stmt>, b: nat)
    requires b < |stmts| && Bare(stmts[b])
    requires forall u :: 0 <= u < b ==> Adds(stmts[u]) && !Makes(stmts[u], Gone(stmts[b]))
    ensures TakesOlder(stmts) && !Lasting(stmts)
  {
    hide Makes, Bare;
    BareNeverLasts(stmts, b);
    forall t, d | 0 <= t < d < |stmts| && !Adds(stmts[d]) && NoBare(stmts[..d])
      ensures !Makes(stmts[t], Gone(stmts[d]))
    {
    }
  }
}
