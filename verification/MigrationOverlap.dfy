/**
  Overlapping processes, exactly.  A process that read the ids before another recorded them still holds
  statements the other has run, and can stand before any one of them until the other has finished.  So
  overlapping runs are safe if and only if every statement still to be applied replays over what the whole
  list leaves: that is what `Steady` says, and one check of the list decides it.
*/
module MigrationOverlap {
  import opened Wrappers
  import opened Migrations
  import opened MigrationRuns
  import opened MigrationBoots

  /** Nobody has failed but on the insert of an id, and whoever has finished sees the schema of a solo run. */
  ghost predicate Fine(ms: seq<Migration>, sys: Sys, end: Sys) {
    forall p :: p in end.procs ==> ProcFine(ms, sys, end, end.procs[p])
  }

  ghost predicate ProcFine(ms: seq<Migration>, sys: Sys, end: Sys, proc: Proc) {
    && !proc.StatementFailed? && !proc.BootFailed?
    && (proc.Finished? ==> end.schema == SoloSchema(ms, RowIds(sys.rows), sys.schema))
  }

  ghost predicate OverlapSafe(ms: seq<Migration>, sys: Sys) {
    forall es: seq<Event> :: Fine(ms, sys, Run(ms, sys, es))
  }

  // ----- Two processes in step -----

  /** Processes 0 and 1 both stand before statement `s` of migration `i`; 1 has read what 0 recorded so far. */
  ghost predicate InStep(ms: seq<Migration>, sys: Sys, end: Sys, i: nat, s: nat) {
    && FirstBootAt(ms, sys, end, 0, i, s)
    && end.procs.Keys == {0, 1} && end.procs[1] == Applying(RowIds(sys.rows) + IdsTo(ms, i), i, s)
  }

  lemma {:induction false} BothStart(ms: seq<Migration>, sys: Sys, i: nat) returns (es: seq<Event>)
    requires Initial(sys) && DistinctIds(ms) && Runs(Flat(ms, RowIds(sys.rows)), sys.schema) && i <= |ms|
    ensures InStep(ms, sys, Run(ms, sys, es), i, 0)
  {
    hide Runs, Chain, Happen;
    var k := FirstBootReaches(ms, sys, 0, 0, i, 0);
    var one := Booted(ms, sys, 0, 0, k);
    OnlySpawned(ms, sys, 0, 0, k);
    RecordedTo(ms, one.rows, RowIds(sys.rows), i);
    var n := RetryReaches(ms, one, 1, 0, i);
    es := [Spawn(0)] + Alone(0, 0, k) + ([Spawn(1)] + Alone(1, 0, n));
    RunAppend(ms, sys, [Spawn(0)] + Alone(0, 0, k), [Spawn(1)] + Alone(1, 0, n));
  }

  /** A statement that is neither a bare drop nor a rename can be run twice in a row. */
  lemma {:induction false} TwiceInARow(st: Stmt, schema: Schema)
    requires !Bare(st) && Execute(st, schema).outcome != Failed
    ensures Replays(st, Execute(st, schema).schema)
  {
    ReplaysIff(st, Execute(st, schema).schema);
    TookEffect(st, schema);
  }

  lemma {:induction false} BothStep(ms: seq<Migration>, sys: Sys, end: Sys, i: nat, s: nat)
    requires DistinctIds(ms) && Runs(Flat(ms, RowIds(sys.rows)), sys.schema)
    requires i < |ms| && ms[i].id !in RowIds(sys.rows) && s < |ms[i].stmts| && !Bare(ms[i].stmts[s])
    requires InStep(ms, sys, end, i, s)
    ensures InStep(ms, sys, Happen(ms, Happen(ms, end, Step(0, 0)), Step(1, 0)), i, s + 1)
  {
    hide Execute, Chain, FlatTo;
    var applied, flat := RowIds(sys.rows), Flat(ms, RowIds(sys.rows));
    FirstBootStatement(ms, sys, end, 0, 0, i, s);
    IdsToBelow(ms, i, i);
    FlatAt(ms, applied, i, s);
    var at := Off(ms, applied, i) + s;
    assert StatementRuns(flat, sys.schema, at);
    TwiceInARow(ms[i].stmts[s], end.schema);
    ChainNext(flat, sys.schema, at);
  }

  lemma {:induction false} BothReach(ms: seq<Migration>, sys: Sys, i: nat, s: nat) returns (es: seq<Event>)
    requires Initial(sys) && DistinctIds(ms) && Runs(Flat(ms, RowIds(sys.rows)), sys.schema)
    requires i < |ms| && ms[i].id !in RowIds(sys.rows) && s <= |ms[i].stmts|
    requires forall u :: 0 <= u < s ==> !Bare(ms[i].stmts[u])
    ensures InStep(ms, sys, Run(ms, sys, es), i, s)
  {
    hide Runs, Chain, Happen, Bare, InStep;
    if s == 0 {
      es := BothStart(ms, sys, i);
    } else {
      var before := BothReach(ms, sys, i, s - 1);
      BothStep(ms, sys, Run(ms, sys, before), i, s - 1);
      es := before + [Step(0, 0)] + [Step(1, 0)];
      OneMore(ms, sys, before, Step(0, 0));
      OneMore(ms, sys, before + [Step(0, 0)], Step(1, 0));
    }
  }

  lemma {:induction false} OneMore(ms: seq<Migration>, sys: Sys, es: seq<Event>, e: Event)
    ensures Run(ms, sys, es + [e]) == Happen(ms, Run(ms, sys, es), e)
  {
    assert (es + [e])[..|es|] == es;
  }

  /**
    Any statement with no bare drop or rename before it in its migration can be the first thing to happen
    after another process has finished.
  */
  lemma {:induction false} StaleStatement(ms: seq<Migration>, sys: Sys, i: nat, s: nat) returns (es: seq<Event>)
    requires Initial(sys) && DistinctIds(ms) && Runs(Flat(ms, RowIds(sys.rows)), sys.schema)
    requires Bootable(SoloSchema(ms, RowIds(sys.rows), sys.schema))
    requires i < |ms| && ms[i].id !in RowIds(sys.rows) && s < |ms[i].stmts|
    requires forall u :: 0 <= u < s ==> !Bare(ms[i].stmts[u])
    ensures var end, r := Run(ms, sys, es), Execute(ms[i].stmts[s], SoloSchema(ms, RowIds(sys.rows), sys.schema));
            && 0 in end.procs && end.procs[0] == Finished && RowIds(end.rows) == RowIds(sys.rows) + IdsTo(ms, |ms|)
            && end.schema == r.schema
            && 1 in end.procs && (r.outcome == Failed ==> end.procs[1] == StatementFailed(i, s))
  {
    hide Run, Runs, Chain, Execute, Bare, FlatTo, Bootable;
    var both := BothReach(ms, sys, i, s);
    var n := Onward(ms, sys, Run(ms, sys, both), 0, 0, i, s);
    RunAppend(ms, sys, both, Alone(0, 0, n));
    IdsToBelow(ms, i, i);
    OneMore(ms, sys, both + Alone(0, 0, n), Step(1, 0));
    es := both + Alone(0, 0, n) + [Step(1, 0)];
  }

  // ----- The condition -----

  /** Within its migration, the first statement that does not replay has no bare drop or rename before it. */
  lemma {:induction false} FirstUnsteady(stmts: seq<Stmt>, end: Schema, s: nat) returns (first: nat)
    requires s < |stmts| && !Replays(stmts[s], end)
    ensures first <= s && !Replays(stmts[first], end) && forall u :: 0 <= u < first ==> !Bare(stmts[u])
  {
    hide Replays, Bare;
    first := 0;
    while Replays(stmts[first], end)
      invariant first <= s && forall u :: 0 <= u < first ==> Replays(stmts[u], end)
      decreases s - first
    {
      first := first + 1;
    }
    forall u | 0 <= u < first
      ensures !Bare(stmts[u])
    {
      ReplaysIff(stmts[u], end);
    }
  }

  /**
    Exactly when overlapping processes are safe: for any list with distinct ids whose solo run completes,
    in every run of any number of processes, killed anywhere, only the insert of an id fails and everyone
    who has finished sees the schema of a solo run, if and only if each statement still to be applied
    changes nothing and does not fail when it is run once more at the end.
  */
  lemma {:induction false} OverlapSafeIff(ms: seq<Migration>, sys: Sys)
    requires Initial(sys) && DistinctIds(ms) && Sound(sys.schema) && Runs(Flat(ms, RowIds(sys.rows)), sys.schema)
    requires Bootable(SoloSchema(ms, RowIds(sys.rows), sys.schema))
    ensures OverlapSafe(ms, sys) <==> Steady(Flat(ms, RowIds(sys.rows)), sys.schema)
  {
    hide Run, Runs, Chain, Execute, Bare, FlatTo, Bootable, Initial, Sound;
    var applied, flat := RowIds(sys.rows), Flat(ms, RowIds(sys.rows));
    if Steady(flat, sys.schema) {
      forall es: seq<Event>
        ensures Fine(ms, sys, Run(ms, sys, es))
      {
        forall p | p in Run(ms, sys, es).procs
          ensures ProcFine(ms, sys, Run(ms, sys, es), Run(ms, sys, es).procs[p])
        {
          OnlyLosersFail(ms, sys, es, p);
          if Run(ms, sys, es).procs[p] == Finished {
            FinishedMeansSolo(ms, sys, es, p);
          }
        }
      }
    } else {
      var k: nat :| k < |flat| && !SteadyAt(flat, sys.schema, k);
      var i, s := FlatFrom(ms, applied, |ms|, k);
      var solo := SoloSchema(ms, applied, sys.schema);
      var first := FirstUnsteady(ms[i].stmts, solo, s);
      var es := StaleStatement(ms, sys, i, first);
      var end := Run(ms, sys, es);
      assert !ProcFine(ms, sys, end, end.procs[0]) || !ProcFine(ms, sys, end, end.procs[1]);
      assert !Fine(ms, sys, end);
    }
  }

  // ----- A table that comes back -----

  /** A migration that makes a table, and a later one that drops it, as 0006 and 0009 do. */
  const MAKE_AND_DROP := [
    Migration(6, [CreateTable("storyboards", {"id"}, true)]),
    Migration(9, [DropTable("storyboards", true)])]

  const FRESH: Sys := Sys(BootNeeds(0) + BootNeeds(1) + BootNeeds(2), [], BootRows(None, [], []), map[], 0)

  lemma {:induction false} FreshFile()
    ensures Bootable(FRESH.schema) && Sound(FRESH.schema) && Table("storyboards") !in FRESH.schema
    ensures Initial(FRESH) && RowIds(FRESH.rows) == {}
  {
    BootTables(0);
    BootTables(1);
    BootTables(2);
  }

  lemma {:induction false} BootTables(k: nat)
    requires k < 3
    ensures Sound(BootNeeds(k)) && Table("storyboards") !in BootNeeds(k)
  {
  }

  lemma {:induction false} CreateThenDrop(name: string, columns: set<string>, schema: Schema)
    requires Sound(schema) && Table(name) !in schema
    ensures var r := Execute(CreateTable(name, columns, true), schema);
            r.outcome == Done && Table(name) in r.schema && Execute(DropTable(name, true), r.schema) == Executed(schema, Done)
  {
  }

  lemma {:induction false} MakeAndDropFlat()
    ensures Flat(MAKE_AND_DROP, {}) == [CreateTable("storyboards", {"id"}, true), DropTable("storyboards", true)]
    ensures DistinctIds(MAKE_AND_DROP) && IdsTo(MAKE_AND_DROP, 2) == {6, 9}
  {
    hide Execute;
    var create, drop := CreateTable("storyboards", {"id"}, true), DropTable("storyboards", true);
    assert FlatTo(MAKE_AND_DROP, {}, 0) == [];
    assert FlatTo(MAKE_AND_DROP, {}, 1) == [create];
    assert FlatTo(MAKE_AND_DROP, {}, 2) == [create, drop];
    assert IdsTo(MAKE_AND_DROP, 1) == {6};
  }

  lemma {:induction false} MakeAndDropRuns(schema: Schema)
    requires Sound(schema) && Table("storyboards") !in schema
    ensures Runs(Flat(MAKE_AND_DROP, {}), schema) && SoloSchema(MAKE_AND_DROP, {}, schema) == schema
  {
    hide Execute, Flat;
    MakeAndDropFlat();
    var flat := Flat(MAKE_AND_DROP, {});
    CreateThenDrop("storyboards", {"id"}, schema);
    ChainNext(flat, schema, 0);
    ChainNext(flat, schema, 1);
    forall k: nat | k < |flat|
      ensures StatementRuns(flat, schema, k)
    {
      assert k == 0 || k == 1;
    }
  }

  /**
    On a fresh file, two processes over that list: one finishes, with both ids recorded, and then the other,
    which had read the ids before, makes the dropped table again, for good.
  */
  lemma {:induction false} DroppedTableReturns() returns (es: seq<Event>)
    ensures var end := Run(MAKE_AND_DROP, FRESH, es);
            && 0 in end.procs && end.procs[0] == Finished && RowIds(end.rows) == {6, 9}
            && Table("storyboards") in end.schema
            && Table("storyboards") !in SoloSchema(MAKE_AND_DROP, RowIds(FRESH.rows), FRESH.schema)
    ensures !OverlapSafe(MAKE_AND_DROP, FRESH)
  {
    hide Run, Chain, Execute, Flat, FlatTo, Runs, Bootable, Sound, Initial, BootNeeds, SoloSchema, IdsTo, DistinctIds;
    FreshFile();
    MakeAndDropFlat();
    MakeAndDropRuns(FRESH.schema);
    es := StaleStatement(MAKE_AND_DROP, FRESH, 0, 0);
    CreateThenDrop("storyboards", {"id"}, FRESH.schema);
    NotFine(MAKE_AND_DROP, FRESH, es, 0);
  }

  lemma {:induction false} NotFine(ms: seq<Migration>, sys: Sys, es: seq<Event>, p: Pid)
    requires var end := Run(ms, sys, es);
             p in end.procs && end.procs[p] == Finished && end.schema != SoloSchema(ms, RowIds(sys.rows), sys.schema)
    ensures !OverlapSafe(ms, sys)
  {
    hide Run, SoloSchema;
    assert !ProcFine(ms, sys, Run(ms, sys, es), Finished);
    assert !Fine(ms, sys, Run(ms, sys, es));
  }
}
