/**
  How single boots of the migration runner proceed: the first one over a database, and a later one that
  skips what it finds recorded.
*/
module MigrationBoots {
  import opened Wrappers
  import opened Migrations
  import opened MigrationRuns

  /** The system after `p` was started and took `n` steps alone. */
  function Booted(ms: seq<Migration>, sys: Sys, p: Pid, now: int, n: nat): Sys {
    Run(ms, sys, [Spawn(p)] + Alone(p, now, n))
  }

  lemma {:induction false} BootedNext(ms: seq<Migration>, sys: Sys, p: Pid, now: int, n: nat)
    ensures Booted(ms, sys, p, now, 0) == Happen(ms, sys, Spawn(p))
    ensures Booted(ms, sys, p, now, n + 1) == Happen(ms, Booted(ms, sys, p, now, n), Step(p, now))
  {
    var start := [Spawn(p)] + Alone(p, now, 0);
    assert start == [Spawn(p)] && start[..0] == [];
    assert Run(ms, sys, start[..0]) == sys;
    var longer := [Spawn(p)] + Alone(p, now, n + 1);
    assert longer[..|longer| - 1] == [Spawn(p)] + Alone(p, now, n);
    assert longer[|longer| - 1] == Step(p, now);
  }

  lemma {:induction false} OnlySpawned(ms: seq<Migration>, sys: Sys, p: Pid, now: int, n: nat)
    ensures Booted(ms, sys, p, now, n).procs.Keys == sys.procs.Keys + {p}
    ensures forall q :: q in sys.procs && q != p ==> Booted(ms, sys, p, now, n).procs[q] == sys.procs[q]
  {
    hide Execute, BootNeeds, BootStep, Run, RowIds;
    BootedNext(ms, sys, p, now, 0);
    if n > 0 {
      OnlySpawned(ms, sys, p, now, n - 1);
      BootedNext(ms, sys, p, now, n - 1);
    }
  }

  /** A process that ended in one way never ends in another. */
  lemma {:induction false} EndsOnce(ms: seq<Migration>, sys: Sys, p: Pid, now: int, n: nat, m: nat)
    requires n <= m && p in Booted(ms, sys, p, now, n).procs && !Live(Booted(ms, sys, p, now, n).procs[p])
    ensures p in Booted(ms, sys, p, now, m).procs
    ensures Booted(ms, sys, p, now, m).procs[p] == Booted(ms, sys, p, now, n).procs[p]
    decreases m - n
  {
    if n < m {
      EndsOnce(ms, sys, p, now, n, m - 1);
      BootedNext(ms, sys, p, now, m - 1);
    }
  }

  // ----- The first boot -----

  /** `p` is the first boot over `sys` and stands before statement `s` of migration `i`. */
  ghost predicate FirstBootAt(ms: seq<Migration>, sys: Sys, end: Sys, p: Pid, i: nat, s: nat) {
    var applied, flat := RowIds(sys.rows), Flat(ms, RowIds(sys.rows));
    && i <= |ms| && (s > 0 ==> i < |ms| && s <= |Pending(ms[i], applied)|)
    && p in end.procs && end.procs[p] == Applying(applied, i, s)
    && Off(ms, applied, i) + s <= |flat|
    && end.schema == Chain(flat, sys.schema, Off(ms, applied, i) + s)
    && RowIds(end.rows) == applied + IdsTo(ms, i)
  }

  lemma {:induction false} FirstBootStatement(ms: seq<Migration>, sys: Sys, end: Sys, p: Pid, now: int, i: nat, s: nat)
    requires Runs(Flat(ms, RowIds(sys.rows)), sys.schema)
    requires FirstBootAt(ms, sys, end, p, i, s) && i < |ms| && s < |Pending(ms[i], RowIds(sys.rows))|
    ensures var next := Happen(ms, end, Step(p, now));
            && FirstBootAt(ms, sys, next, p, i, s + 1)
            && next.procs == end.procs[p := Applying(RowIds(sys.rows), i, s + 1)] && next.rows == end.rows
  {
    hide Execute, Chain;
    var applied, flat := RowIds(sys.rows), Flat(ms, RowIds(sys.rows));
    FlatAt(ms, applied, i, s);
    var at := Off(ms, applied, i) + s;
    assert StatementRuns(flat, sys.schema, at);
    ChainNext(flat, sys.schema, at);
  }

  lemma {:induction false} RowAdded(rows: seq<Row>, row: Row)
    ensures RowIds(rows + [row]) == RowIds(rows) + {row.id}
  {
  }

  lemma {:induction false} FirstBootRecord(ms: seq<Migration>, sys: Sys, end: Sys, p: Pid, now: int, i: nat)
    requires DistinctIds(ms) && i < |ms|
    requires FirstBootAt(ms, sys, end, p, i, |Pending(ms[i], RowIds(sys.rows))|)
    ensures var next := Happen(ms, end, Step(p, now));
            && FirstBootAt(ms, sys, next, p, i + 1, 0)
            && next.procs == end.procs[p := Applying(RowIds(sys.rows), i + 1, 0)]
  {
    hide Chain, Execute, FlatTo, RowIds, Runs, BootNeeds, BootStep;
    var applied := RowIds(sys.rows);
    IdsToBelow(ms, i, i);
    RowAdded(end.rows, Row(ms[i].id, Some(p)));
    OffNext(ms, applied, i);
    OffMonotone(ms, applied, i + 1, |ms|);
    assert IdsTo(ms, i + 1) == IdsTo(ms, i) + {ms[i].id};
  }

  lemma {:induction false} FirstBootStarts(ms: seq<Migration>, sys: Sys, p: Pid, now: int)
    requires Initial(sys)
    ensures FirstBootAt(ms, sys, Booted(ms, sys, p, now, 1), p, 0, 0)
  {
    BootedNext(ms, sys, p, now, 0);
  }

  /** An uninterrupted first boot passes every position of its program. */
  lemma {:induction false} FirstBootReaches(ms: seq<Migration>, sys: Sys, p: Pid, now: int, i: nat, s: nat) returns (n: nat)
    requires Initial(sys) && DistinctIds(ms) && Runs(Flat(ms, RowIds(sys.rows)), sys.schema)
    requires i <= |ms| && (s > 0 ==> i < |ms| && s <= |Pending(ms[i], RowIds(sys.rows))|)
    ensures FirstBootAt(ms, sys, Booted(ms, sys, p, now, n), p, i, s)
    decreases i, s
  {
    hide FirstBootAt, Booted, Happen, Chain, Runs;
    if s > 0 {
      var m := FirstBootReaches(ms, sys, p, now, i, s - 1);
      BootedNext(ms, sys, p, now, m);
      FirstBootStatement(ms, sys, Booted(ms, sys, p, now, m), p, now, i, s - 1);
      n := m + 1;
    } else if i > 0 {
      var m := FirstBootReaches(ms, sys, p, now, i - 1, |Pending(ms[i - 1], RowIds(sys.rows))|);
      BootedNext(ms, sys, p, now, m);
      FirstBootRecord(ms, sys, Booted(ms, sys, p, now, m), p, now, i - 1);
      n := m + 1;
    } else {
      n := 1;
      FirstBootStarts(ms, sys, p, now);
    }
  }

  /** From any position on, left alone, the first boot finishes, whoever else stands still. */
  lemma {:induction false} Onward(ms: seq<Migration>, sys: Sys, end: Sys, p: Pid, now: int, i: nat, s: nat) returns (n: nat)
    requires DistinctIds(ms) && Runs(Flat(ms, RowIds(sys.rows)), sys.schema)
    requires Bootable(SoloSchema(ms, RowIds(sys.rows), sys.schema))
    requires FirstBootAt(ms, sys, end, p, i, s)
    ensures var done := Run(ms, end, Alone(p, now, n));
            && done.procs == end.procs[p := Finished]
            && done.schema == SoloSchema(ms, RowIds(sys.rows), sys.schema)
            && RowIds(done.rows) == RowIds(sys.rows) + IdsTo(ms, |ms|)
    decreases |ms| - i, if i < |ms| then |Pending(ms[i], RowIds(sys.rows))| - s else 0
  {
    hide Run, Chain, Runs, Execute, Bootable, BootNeeds, FlatTo, DistinctIds, IdsTo, BootStep;
    var next := Happen(ms, end, Step(p, now));
    var m: nat;
    if i == |ms| {
      m := BootFinishes(ms, next, p, now, 0);
    } else if s < |Pending(ms[i], RowIds(sys.rows))| {
      FirstBootStatement(ms, sys, end, p, now, i, s);
      m := Onward(ms, sys, next, p, now, i, s + 1);
    } else {
      FirstBootRecord(ms, sys, end, p, now, i);
      m := Onward(ms, sys, next, p, now, i + 1, 0);
    }
    FirstStep(ms, end, p, now, m);
    n := m + 1;
  }

  /** The bootstrap, left alone on a schema that has its tables. */
  lemma {:induction false} BootFinishes(ms: seq<Migration>, sys: Sys, p: Pid, now: int, k: nat) returns (n: nat)
    requires p in sys.procs && sys.procs[p] == Booting(k) && k <= 3 && Bootable(sys.schema)
    ensures var done := Run(ms, sys, Alone(p, now, n));
            done.procs == sys.procs[p := Finished] && done.schema == sys.schema && done.rows == sys.rows
    decreases 3 - k
  {
    hide Run, BootNeeds, BootStep;
    var next := Advance(ms, sys, p, now);
    if k == 3 {
      n := 1;
      FirstStep(ms, sys, p, now, 0);
      NoSteps(ms, next, p, now);
    } else {
      var m := BootFinishes(ms, next, p, now, k + 1);
      FirstStep(ms, sys, p, now, m);
      n := m + 1;
    }
  }

  lemma {:induction false} NoSteps(ms: seq<Migration>, sys: Sys, p: Pid, now: int)
    ensures Run(ms, sys, Alone(p, now, 0)) == sys
  {
  }

  // ----- A later boot -----

  /** A later boot skips everything its snapshot holds. */
  lemma {:induction false} RetryReaches(ms: seq<Migration>, sys: Sys, p: Pid, now: int, i: nat) returns (n: nat)
    requires p !in sys.procs && i <= |ms| && AllRecorded(ms, sys.rows, i)
    ensures Booted(ms, sys, p, now, n) == sys.(procs := sys.procs[p := Applying(RowIds(sys.rows), i, 0)])
  {
    hide Execute, BootNeeds, BootStep;
    BootedNext(ms, sys, p, now, 0);
    if i == 0 {
      n := 1;
    } else {
      var m := RetryReaches(ms, sys, p, now, i - 1);
      BootedNext(ms, sys, p, now, m);
      n := m + 1;
    }
  }

  /** After the first boot has come to migration `i`, the ones before it are recorded and `i` is recorded only if it was. */
  lemma {:induction false} RecordedTo(ms: seq<Migration>, rows: seq<Row>, applied: set<int>, i: nat)
    requires i <= |ms| && RowIds(rows) == applied + IdsTo(ms, i)
    ensures AllRecorded(ms, rows, i)
    ensures DistinctIds(ms) && i < |ms| && ms[i].id !in applied ==> ms[i].id !in RowIds(rows)
  {
    forall j | 0 <= j < i
      ensures ms[j].id in IdsTo(ms, i)
    {
      IdsToAre(ms, i, j);
    }
    if DistinctIds(ms) && i < |ms| {
      IdsToBelow(ms, i, i);
    }
  }

  /** Every statement still to be applied belongs to a migration that is. */
  lemma {:induction false} FlatFrom(ms: seq<Migration>, applied: set<int>, i: nat, at: nat) returns (j: nat, s: nat)
    requires i <= |ms| && at < Off(ms, applied, i)
    ensures j < i && s < |Pending(ms[j], applied)| && FlatTo(ms, applied, i)[at] == Pending(ms[j], applied)[s]
    ensures Off(ms, applied, j) + s == at
  {
    if at < Off(ms, applied, i - 1) {
      j, s := FlatFrom(ms, applied, i - 1, at);
    } else {
      j, s := i - 1, at - Off(ms, applied, i - 1);
    }
  }
}
