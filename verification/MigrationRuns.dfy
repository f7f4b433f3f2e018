/**
  Runs of the migration runner: any number of processes over one database file, interleaved between
  any two statements and killed at any point.

  The invariant is a high-water mark.  However the processes interleave, the schema is the one an
  uninterrupted run reaches after some number `hw` of statements: whoever executes statement `hw`
  moves the mark, and everybody else only replays statements below it.
*/
module MigrationRuns {
  import opened Wrappers
  import opened Migrations

  type Pid = nat

  /** A row of `_pa_migrations`, with the process that inserted it (none if it was there before). */
  datatype Row = Row(id: int, owner: Option<Pid>)

  datatype Proc =
    | Reading                                            // before SELECT id FROM _pa_migrations
    | Applying(snapshot: set<int>, mi: nat, si: nat)     // next: statement si of migration mi, or its record
    | Booting(k: nat)                                    // next: bootstrap statement k
    | Finished
    | StatementFailed(mi: nat, si: nat)
    | RecordFailed(mi: nat)                              // INSERT of the id hit the primary key
    | BootFailed
    | Dead

  datatype Event = Spawn(p: Pid) | Step(p: Pid, now: int) | Kill(p: Pid)

  /** The database file, the processes, and how many migration statements were executed so far. */
  datatype Sys = Sys(schema: Schema, rows: seq<Row>, data: BootRows, procs: map<Pid, Proc>, executed: nat)

  function RowIds(rows: seq<Row>): set<int> {
    set r | r in rows :: r.id
  }

  /** One step of process `p`: at most one statement reaches the database. */
  function Advance(ms: seq<Migration>, sys: Sys, p: Pid, now: int): Sys
    requires p in sys.procs
  {
    match sys.procs[p]
    case Reading => sys.(procs := sys.procs[p := Applying(RowIds(sys.rows), 0, 0)])
    case Applying(snapshot, mi, si) =>
      if mi >= |ms| then sys.(procs := sys.procs[p := Booting(0)])
      else if ms[mi].id in snapshot then sys.(procs := sys.procs[p := Applying(snapshot, mi + 1, 0)])
      else if si < |ms[mi].stmts| then
        var r := Execute(ms[mi].stmts[si], sys.schema);
        var next := if r.outcome == Failed then StatementFailed(mi, si) else Applying(snapshot, mi, si + 1);
        sys.(schema := r.schema, procs := sys.procs[p := next], executed := sys.executed + 1)
      else if ms[mi].id in RowIds(sys.rows) then sys.(procs := sys.procs[p := RecordFailed(mi)])
      else sys.(rows := sys.rows + [Row(ms[mi].id, Some(p))], procs := sys.procs[p := Applying(snapshot, mi + 1, 0)])
    case Booting(k) =>
      if k >= 3 then sys.(procs := sys.procs[p := Finished])
      else if !(BootNeeds(k) <= sys.schema) then sys.(procs := sys.procs[p := BootFailed])
      else sys.(data := BootStep(sys.data, k, now), procs := sys.procs[p := Booting(k + 1)])
    case _ => sys
  }

  predicate Live(proc: Proc) {
    proc.Reading? || proc.Applying? || proc.Booting?
  }

  /** A process id is used once; an event that does not apply changes nothing. */
  function Happen(ms: seq<Migration>, sys: Sys, e: Event): Sys {
    match e
    case Spawn(p) => if p in sys.procs then sys else sys.(procs := sys.procs[p := Reading])
    case Step(p, now) => if p in sys.procs then Advance(ms, sys, p, now) else sys
    case Kill(p) => if p in sys.procs && Live(sys.procs[p]) then sys.(procs := sys.procs[p := Dead]) else sys
  }

  function Run(ms: seq<Migration>, sys: Sys, es: seq<Event>): Sys {
    if es == [] then sys else Happen(ms, Run(ms, sys, es[..|es| - 1]), es[|es| - 1])
  }

  // ----- What the runs start from -----

  /**
    The deployment the claims are about: distinct ids, one uninterrupted run over the starting schema
    completes, and what is still to be applied is steady: it only adds, say (`AddOnlySteady`), or clears
    away older objects that it does not bring back.  `MigrationOverlap` shows that nothing less will do.
  */
  ghost predicate Deployable(ms: seq<Migration>, applied: set<int>, schema: Schema) {
    var flat := Flat(ms, applied);
    && DistinctIds(ms)
    && Sound(schema)
    && Runs(flat, schema)
    && Steady(flat, schema)
    && Bootable(Chain(flat, schema, |flat|))
  }

  ghost predicate DistinctRows(rows: seq<Row>) {
    forall i, j :: 0 <= i < j < |rows| ==> rows[i].id != rows[j].id
  }

  /** A database no process has open. */
  ghost predicate Initial(sys: Sys) {
    && sys.procs == map[]
    && DistinctRows(sys.rows)
    && forall r :: r in sys.rows ==> r.owner.None?
  }

  // ----- The invariant -----

  ghost predicate AllRecorded(ms: seq<Migration>, rows: seq<Row>, upTo: nat)
    requires upTo <= |ms|
  {
    forall j :: 0 <= j < upTo ==> ms[j].id in RowIds(rows)
  }

  /** Process `p` has inserted no id at or after position `mi`. */
  ghost predicate RecordedBelow(ms: seq<Migration>, rows: seq<Row>, p: Pid, mi: nat) {
    forall j :: mi <= j < |ms| ==> Row(ms[j].id, Some(p)) !in rows
  }

  ghost predicate ProcOk(ms: seq<Migration>, applied: set<int>, rows: seq<Row>, data: BootRows, hw: nat, p: Pid, proc: Proc) {
    match proc
    case Reading => RecordedBelow(ms, rows, p, 0)
    case Applying(snapshot, mi, si) =>
      && applied <= snapshot <= RowIds(rows)
      && mi <= |ms|
      && AllRecorded(ms, rows, mi)
      && RecordedBelow(ms, rows, p, mi)
      && Off(ms, applied, mi) + si <= hw
      && (si > 0 ==> mi < |ms| && ms[mi].id !in snapshot && si <= |ms[mi].stmts|)
    case Booting(k) => AllRecorded(ms, rows, |ms|) && k <= 3 && BootedTo(data, k)
    case Finished => AllRecorded(ms, rows, |ms|) && BootedTo(data, 3)
    case RecordFailed(mi) =>
      && mi < |ms|
      && RecordedBelow(ms, rows, p, mi)
      && exists q :: q != p && Row(ms[mi].id, Some(q)) in rows
    case Dead => true
    case StatementFailed(_, _) => false
    case BootFailed => false
  }

  /** If a run recorded migration `j`, its statements lie below the mark. */
  ghost predicate RecordCovered(ms: seq<Migration>, applied: set<int>, rows: seq<Row>, hw: nat, j: nat)
    requires j < |ms|
  {
    ms[j].id in RowIds(rows) && ms[j].id !in applied ==> Off(ms, applied, j + 1) <= hw
  }

  ghost predicate RowsOk(ms: seq<Migration>, applied: set<int>, rows: seq<Row>, procs: set<Pid>, hw: nat) {
    && DistinctRows(rows)
    && applied <= RowIds(rows)
    && (forall r :: r in rows && r.owner.None? ==> r.id in applied)
    && (forall r :: r in rows && r.owner.Some? ==> r.id !in applied && r.id in Ids(ms) && r.owner.value in procs)
    && (forall j {:trigger RecordCovered(ms, applied, rows, hw, j)} :: 0 <= j < |ms| ==> RecordCovered(ms, applied, rows, hw, j))
  }

  ghost predicate Inv(ms: seq<Migration>, applied: set<int>, schema: Schema, sys: Sys, hw: nat) {
    && hw <= |Flat(ms, applied)|
    && sys.schema == Chain(Flat(ms, applied), schema, hw)
    && RowsOk(ms, applied, sys.rows, sys.procs.Keys, hw)
    && forall p :: p in sys.procs ==> ProcOk(ms, applied, sys.rows, sys.data, hw, p, sys.procs[p])
  }

  /** Everything recorded means every statement of the uninterrupted run was executed. */
  lemma {:induction false} RecordedMeansExecuted(ms: seq<Migration>, applied: set<int>, rows: seq<Row>, procs: set<Pid>, hw: nat, i: nat)
    requires RowsOk(ms, applied, rows, procs, hw) && i <= |ms| && AllRecorded(ms, rows, i)
    ensures Off(ms, applied, i) <= hw
  {
    if i > 0 {
      RecordedMeansExecuted(ms, applied, rows, procs, hw, i - 1);
      assert RecordCovered(ms, applied, rows, hw, i - 1);
    }
  }

  /** What the invariant says of a process survives a statement, an insert or a bootstrap of another. */
  lemma {:induction false} OthersKeepStatement(ms: seq<Migration>, applied: set<int>, rows: seq<Row>, data: BootRows, hw: nat, hw': nat,
                                               p: Pid, proc: Proc)
    requires ProcOk(ms, applied, rows, data, hw, p, proc) && hw <= hw'
    ensures ProcOk(ms, applied, rows, data, hw', p, proc)
  {
  }

  lemma {:induction false} OthersKeepInsert(ms: seq<Migration>, applied: set<int>, rows: seq<Row>, data: BootRows, hw: nat,
                                            p: Pid, proc: Proc, q: Pid, id: int)
    requires ProcOk(ms, applied, rows, data, hw, p, proc) && p != q
    ensures ProcOk(ms, applied, rows + [Row(id, Some(q))], data, hw, p, proc)
  {
    assert RowIds(rows) <= RowIds(rows + [Row(id, Some(q))]);
  }

  lemma {:induction false} OthersKeepBoot(ms: seq<Migration>, applied: set<int>, rows: seq<Row>, data: BootRows, hw: nat,
                                          p: Pid, proc: Proc, k: nat, now: int)
    requires ProcOk(ms, applied, rows, data, hw, p, proc) && k < 3
    ensures ProcOk(ms, applied, rows, BootStep(data, k, now), hw, p, proc)
  {
    if proc.Booting? {
      BootStepKeeps(data, proc.k, k, now);
    } else if proc.Finished? {
      BootStepKeeps(data, 3, k, now);
    }
  }

  lemma {:induction false} StatementKeeps(ms: seq<Migration>, applied: set<int>, schema: Schema, sys: Sys, hw: nat, p: Pid, now: int)
    returns (hw': nat)
    requires Deployable(ms, applied, schema) && Inv(ms, applied, schema, sys, hw)
    requires p in sys.procs && sys.procs[p].Applying? && sys.procs[p].mi < |ms|
    requires var pr := sys.procs[p]; ms[pr.mi].id !in pr.snapshot && pr.si < |ms[pr.mi].stmts|
    ensures hw <= hw' <= hw + 1 && Inv(ms, applied, schema, Advance(ms, sys, p, now), hw')
  {
    hide Execute, Chain, FlatTo, Steady, Sound, BootNeeds;
    var flat := Flat(ms, applied);
    var pr := sys.procs[p];
    var at := Off(ms, applied, pr.mi) + pr.si;
    var next := Advance(ms, sys, p, now);
    FlatAt(ms, applied, pr.mi, pr.si);
    assert flat[at] == ms[pr.mi].stmts[pr.si];
    if at < hw {
      hw' := hw;
      Replay(flat, schema, at, hw);
    } else {
      hw' := hw + 1;
      assert StatementRuns(flat, schema, hw);
      ChainNext(flat, schema, hw);
    }
    assert next.schema == Chain(flat, schema, hw');
    forall j: nat | j < |ms|
      ensures RecordCovered(ms, applied, next.rows, hw', j)
    {
      assert RecordCovered(ms, applied, sys.rows, hw, j);
    }
    forall q | q in next.procs
      ensures ProcOk(ms, applied, next.rows, next.data, hw', q, next.procs[q])
    {
      if q != p {
        OthersKeepStatement(ms, applied, sys.rows, sys.data, hw, hw', q, sys.procs[q]);
      }
    }
  }

  lemma {:induction false} InsertKeepsRows(ms: seq<Migration>, applied: set<int>, rows: seq<Row>, procs: set<Pid>, hw: nat, p: Pid, mi: nat)
    requires DistinctIds(ms) && RowsOk(ms, applied, rows, procs, hw) && p in procs
    requires mi < |ms| && ms[mi].id !in RowIds(rows) && Off(ms, applied, mi + 1) <= hw
    ensures RowsOk(ms, applied, rows + [Row(ms[mi].id, Some(p))], procs, hw)
    ensures RowIds(rows + [Row(ms[mi].id, Some(p))]) == RowIds(rows) + {ms[mi].id}
  {
    var next := rows + [Row(ms[mi].id, Some(p))];
    assert RowIds(next) == RowIds(rows) + {ms[mi].id};
    assert ms[mi] in ms;
    forall i | 0 <= i < |rows|
      ensures rows[i].id in RowIds(rows)
    {
      assert rows[i] in rows;
    }
    forall j: nat | j < |ms|
      ensures RecordCovered(ms, applied, next, hw, j)
    {
      assert RecordCovered(ms, applied, rows, hw, j);
    }
  }

  lemma {:induction false} InsertKeeps(ms: seq<Migration>, applied: set<int>, schema: Schema, sys: Sys, hw: nat, p: Pid, mi: nat,
                                       proc: Proc)
    requires DistinctIds(ms) && Inv(ms, applied, schema, sys, hw) && p in sys.procs
    requires mi < |ms| && ms[mi].id !in RowIds(sys.rows) && Off(ms, applied, mi + 1) <= hw
    requires ProcOk(ms, applied, sys.rows + [Row(ms[mi].id, Some(p))], sys.data, hw, p, proc)
    ensures Inv(ms, applied, schema, sys.(rows := sys.rows + [Row(ms[mi].id, Some(p))], procs := sys.procs[p := proc]), hw)
  {
    var next := sys.(rows := sys.rows + [Row(ms[mi].id, Some(p))], procs := sys.procs[p := proc]);
    InsertKeepsRows(ms, applied, sys.rows, sys.procs.Keys, hw, p, mi);
    assert next.procs.Keys == sys.procs.Keys;
    forall q | q in next.procs
      ensures ProcOk(ms, applied, next.rows, next.data, hw, q, next.procs[q])
    {
      if q != p {
        OthersKeepInsert(ms, applied, sys.rows, sys.data, hw, q, sys.procs[q], p, ms[mi].id);
      }
    }
  }

  /** After its insert a process stands before the next migration, with everything below recorded. */
  lemma {:induction false} InserterOk(ms: seq<Migration>, applied: set<int>, rows: seq<Row>, data: BootRows, hw: nat, p: Pid,
                                      snapshot: set<int>, mi: nat, si: nat)
    requires DistinctIds(ms) && ProcOk(ms, applied, rows, data, hw, p, Applying(snapshot, mi, si)) && mi < |ms|
    requires Off(ms, applied, mi + 1) <= hw
    ensures ProcOk(ms, applied, rows + [Row(ms[mi].id, Some(p))], data, hw, p, Applying(snapshot, mi + 1, 0))
  {
    var next := rows + [Row(ms[mi].id, Some(p))];
    assert RowIds(next) == RowIds(rows) + {ms[mi].id};
    assert AllRecorded(ms, next, mi + 1);
    assert RecordedBelow(ms, next, p, mi + 1);
  }

  /** An id that is in the table but not in `p`'s snapshot was inserted by somebody else since. */
  lemma {:induction false} LoserOk(ms: seq<Migration>, applied: set<int>, rows: seq<Row>, data: BootRows, procs: set<Pid>, hw: nat,
                                   p: Pid, snapshot: set<int>, mi: nat, si: nat)
    requires RowsOk(ms, applied, rows, procs, hw) && ProcOk(ms, applied, rows, data, hw, p, Applying(snapshot, mi, si))
    requires mi < |ms| && ms[mi].id !in snapshot && ms[mi].id in RowIds(rows)
    ensures ProcOk(ms, applied, rows, data, hw, p, RecordFailed(mi))
  {
    var r :| r in rows && r.id == ms[mi].id;
    assert r.owner.Some? && r == Row(ms[mi].id, Some(r.owner.value));
  }

  /** Standing behind its last statement, a process has the whole migration below the mark. */
  lemma {:induction false} MigrationBelowMark(ms: seq<Migration>, applied: set<int>, rows: seq<Row>, data: BootRows, hw: nat, p: Pid,
                                              snapshot: set<int>, mi: nat, si: nat)
    requires ProcOk(ms, applied, rows, data, hw, p, Applying(snapshot, mi, si))
    requires mi < |ms| && si >= |ms[mi].stmts|
    ensures Off(ms, applied, mi + 1) <= hw
  {
    OffNext(ms, applied, mi);
  }

  lemma {:induction false} RecordKeeps(ms: seq<Migration>, applied: set<int>, schema: Schema, sys: Sys, hw: nat, p: Pid, now: int)
    requires DistinctIds(ms) && Inv(ms, applied, schema, sys, hw)
    requires p in sys.procs && sys.procs[p].Applying? && sys.procs[p].mi < |ms|
    requires var pr := sys.procs[p]; ms[pr.mi].id !in pr.snapshot && pr.si >= |ms[pr.mi].stmts|
    ensures Inv(ms, applied, schema, Advance(ms, sys, p, now), hw)
  {
    hide Off, FlatTo, Chain, RowsOk, ProcOk;
    var Applying(snapshot, mi, si) := sys.procs[p];
    if ms[mi].id in RowIds(sys.rows) {
      LoserOk(ms, applied, sys.rows, sys.data, sys.procs.Keys, hw, p, snapshot, mi, si);
      MoveKeeps(ms, applied, schema, sys, hw, p, RecordFailed(mi));
    } else {
      MigrationBelowMark(ms, applied, sys.rows, sys.data, hw, p, snapshot, mi, si);
      InserterOk(ms, applied, sys.rows, sys.data, hw, p, snapshot, mi, si);
      InsertKeeps(ms, applied, schema, sys, hw, p, mi, Applying(snapshot, mi + 1, 0));
    }
  }

  lemma {:induction false} BootKeeps(ms: seq<Migration>, applied: set<int>, schema: Schema, sys: Sys, hw: nat, p: Pid, now: int)
    requires Deployable(ms, applied, schema) && Inv(ms, applied, schema, sys, hw)
    requires p in sys.procs && sys.procs[p].Booting?
    ensures Inv(ms, applied, schema, Advance(ms, sys, p, now), hw)
  {
    hide FlatTo, Chain, Execute, Steady, Runs, Sound, BootNeeds, Backfill;
    var k := sys.procs[p].k;
    var next := Advance(ms, sys, p, now);
    RecordedMeansExecuted(ms, applied, sys.rows, sys.procs.Keys, hw, |ms|);
    assert next.procs.Keys == sys.procs.Keys;
    if k < 3 {
      BootStepKeeps(sys.data, k, k, now);
      forall q | q in next.procs
        ensures ProcOk(ms, applied, next.rows, next.data, hw, q, next.procs[q])
      {
        if q != p {
          OthersKeepBoot(ms, applied, sys.rows, sys.data, hw, q, sys.procs[q], k, now);
        }
      }
    } else {
      MoveKeeps(ms, applied, schema, sys, hw, p, Finished);
    }
  }

  /** A step that touches no table only has to justify the new position of its own process. */
  lemma {:induction false} MoveKeeps(ms: seq<Migration>, applied: set<int>, schema: Schema, sys: Sys, hw: nat, p: Pid, proc: Proc)
    requires Inv(ms, applied, schema, sys, hw)
    requires ProcOk(ms, applied, sys.rows, sys.data, hw, p, proc)
    ensures Inv(ms, applied, schema, sys.(procs := sys.procs[p := proc]), hw)
  {
  }

  /** Every event keeps the invariant, and the mark never goes back. */
  lemma {:induction false} EventKeeps(ms: seq<Migration>, applied: set<int>, schema: Schema, sys: Sys, hw: nat, e: Event)
    returns (hw': nat)
    requires Deployable(ms, applied, schema) && Inv(ms, applied, schema, sys, hw)
    ensures hw <= hw' && Inv(ms, applied, schema, Happen(ms, sys, e), hw')
  {
    hw' := hw;
    match e
    case Spawn(p) =>
      if p !in sys.procs {
        MoveKeeps(ms, applied, schema, sys, hw, p, Reading);
      }
    case Kill(p) =>
      MoveKeeps(ms, applied, schema, sys, hw, p, Dead);
    case Step(p, now) =>
      if p in sys.procs {
        hw' := AdvanceKeeps(ms, applied, schema, sys, hw, p, now);
      }
  }

  lemma {:induction false} SkipKeeps(ms: seq<Migration>, applied: set<int>, schema: Schema, sys: Sys, hw: nat, p: Pid, now: int)
    requires Inv(ms, applied, schema, sys, hw) && p in sys.procs && sys.procs[p].Applying?
    requires var pr := sys.procs[p]; pr.mi < |ms| && ms[pr.mi].id in pr.snapshot
    ensures Inv(ms, applied, schema, Advance(ms, sys, p, now), hw)
  {
    hide FlatTo, Chain;
    var Applying(snapshot, mi, _) := sys.procs[p];
    assert AllRecorded(ms, sys.rows, mi + 1);
    RecordedMeansExecuted(ms, applied, sys.rows, sys.procs.Keys, hw, mi + 1);
    MoveKeeps(ms, applied, schema, sys, hw, p, Applying(snapshot, mi + 1, 0));
  }

  lemma {:induction false} AdvanceKeeps(ms: seq<Migration>, applied: set<int>, schema: Schema, sys: Sys, hw: nat, p: Pid, now: int)
    returns (hw': nat)
    requires Deployable(ms, applied, schema) && Inv(ms, applied, schema, sys, hw) && p in sys.procs
    ensures hw <= hw' && Inv(ms, applied, schema, Advance(ms, sys, p, now), hw')
  {
    hw' := hw;
    var pr := sys.procs[p];
    if pr.Reading? {
      MoveKeeps(ms, applied, schema, sys, hw, p, Applying(RowIds(sys.rows), 0, 0));
    } else if pr.Booting? {
      BootKeeps(ms, applied, schema, sys, hw, p, now);
    } else if pr.Applying? {
      if pr.mi >= |ms| {
        MoveKeeps(ms, applied, schema, sys, hw, p, Booting(0));
      } else if ms[pr.mi].id in pr.snapshot {
        SkipKeeps(ms, applied, schema, sys, hw, p, now);
      } else if pr.si < |ms[pr.mi].stmts| {
        hw' := StatementKeeps(ms, applied, schema, sys, hw, p, now);
      } else {
        RecordKeeps(ms, applied, schema, sys, hw, p, now);
      }
    }
  }

  lemma {:induction false} RunKeeps(ms: seq<Migration>, sys: Sys, es: seq<Event>) returns (hw: nat)
    requires Initial(sys) && Deployable(ms, RowIds(sys.rows), sys.schema)
    ensures Inv(ms, RowIds(sys.rows), sys.schema, Run(ms, sys, es), hw)
  {
    if es == [] {
      hw := 0;
    } else {
      var before := RunKeeps(ms, sys, es[..|es| - 1]);
      hw := EventKeeps(ms, RowIds(sys.rows), sys.schema, Run(ms, sys, es[..|es| - 1]), before, es[|es| - 1]);
    }
  }

  // ----- What every run promises -----

  /** The schema one uninterrupted run reaches. */
  function SoloSchema(ms: seq<Migration>, applied: set<int>, schema: Schema): Schema {
    Chain(Flat(ms, applied), schema, |Flat(ms, applied)|)
  }

  /** Whoever finishes, after any crashes and in any company, leaves what a solo run leaves. */
  lemma {:induction false} FinishedMeansSolo(ms: seq<Migration>, sys: Sys, es: seq<Event>, p: Pid)
    requires Initial(sys) && Deployable(ms, RowIds(sys.rows), sys.schema)
    requires var end := Run(ms, sys, es); p in end.procs && end.procs[p] == Finished
    ensures var end := Run(ms, sys, es);
            && end.schema == SoloSchema(ms, RowIds(sys.rows), sys.schema)
            && RowIds(end.rows) == RowIds(sys.rows) + Ids(ms)
            && DistinctRows(end.rows)
            && BootedTo(end.data, 3)
  {
    hide FlatTo, Chain, Run, Deployable, BootNeeds, Execute;
    var end, applied := Run(ms, sys, es), RowIds(sys.rows);
    var hw := RunKeeps(ms, sys, es);
    RecordedMeansExecuted(ms, applied, end.rows, end.procs.Keys, hw, |ms|);
    assert forall id :: id in Ids(ms) ==> id in RowIds(end.rows);
  }

  /** What a statement of a steady list leaves for good. */
  ghost predicate InEffect(st: Stmt, schema: Schema) {
    (Adds(st) && Key(st) in schema) || (Clears(st) && Gone(st) !in schema)
  }

  /** At any moment of any run: one row per id, and a recorded id's statements have all taken effect. */
  lemma {:induction false} RecordedMeansInSchema(ms: seq<Migration>, sys: Sys, es: seq<Event>, j: nat, s: nat)
    requires Initial(sys) && Deployable(ms, RowIds(sys.rows), sys.schema)
    requires j < |ms| && s < |ms[j].stmts|
    requires ms[j].id in RowIds(Run(ms, sys, es).rows) && ms[j].id !in RowIds(sys.rows)
    ensures InEffect(ms[j].stmts[s], Run(ms, sys, es).schema)
    ensures DistinctRows(Run(ms, sys, es).rows)
  {
    var applied := RowIds(sys.rows);
    var hw := RunKeeps(ms, sys, es);
    assert RecordCovered(ms, applied, Run(ms, sys, es).rows, hw, j);
    FlatAt(ms, applied, j, s);
    Replay(Flat(ms, applied), sys.schema, Off(ms, applied, j) + s, hw);
    ReplaysIff(ms[j].stmts[s], Run(ms, sys, es).schema);
  }

  /** A process fails only on inserting an id that another process of the run inserted before it. */
  lemma {:induction false} OnlyLosersFail(ms: seq<Migration>, sys: Sys, es: seq<Event>, p: Pid)
    requires Initial(sys) && Deployable(ms, RowIds(sys.rows), sys.schema)
    requires p in Run(ms, sys, es).procs
    ensures var end := Run(ms, sys, es);
            var proc := end.procs[p];
            && !proc.StatementFailed? && !proc.BootFailed?
            && (proc.RecordFailed? ==>
                  && proc.mi < |ms|
                  && exists q :: q != p && q in end.procs && Row(ms[proc.mi].id, Some(q)) in end.rows)
  {
    var hw := RunKeeps(ms, sys, es);
    var end := Run(ms, sys, es);
    if end.procs[p].RecordFailed? {
      var mi := end.procs[p].mi;
      var q :| q != p && Row(ms[mi].id, Some(q)) in end.rows;
    }
  }

  /** A process about to insert an id it did not find at its start. */
  ghost predicate AtInsert(ms: seq<Migration>, proc: Proc) {
    proc.Applying? && proc.mi < |ms| && proc.si == |ms[proc.mi].stmts| && ms[proc.mi].id !in proc.snapshot
  }

  /** And there it does fail: the insert succeeds exactly if no other process has inserted the id meanwhile. */
  lemma {:induction false} InsertFailsIff(ms: seq<Migration>, sys: Sys, es: seq<Event>, p: Pid, now: int)
    requires Initial(sys) && Deployable(ms, RowIds(sys.rows), sys.schema)
    requires p in Run(ms, sys, es).procs && AtInsert(ms, Run(ms, sys, es).procs[p])
    ensures var before, after := Run(ms, sys, es), Run(ms, sys, es + [Step(p, now)]);
            var id := ms[before.procs[p].mi].id;
            && p in after.procs
            && (after.procs[p].RecordFailed? <==> exists q :: q != p && Row(id, Some(q)) in before.rows)
            && after.rows == if after.procs[p].RecordFailed? then before.rows else before.rows + [Row(id, Some(p))]
  {
    hide FlatTo, Chain, Deployable, Execute;
    var hw := RunKeeps(ms, sys, es);
    var before, after := Run(ms, sys, es), Run(ms, sys, es + [Step(p, now)]);
    assert (es + [Step(p, now)])[..|es|] == es;
    var proc := before.procs[p];
    assert ProcOk(ms, RowIds(sys.rows), before.rows, before.data, hw, p, proc);
    if ms[proc.mi].id in RowIds(before.rows) {
      var r :| r in before.rows && r.id == ms[proc.mi].id;
      assert r == Row(ms[proc.mi].id, r.owner);
    }
  }

  // ----- Counting statements -----

  /** How many statements of its list a process has behind it. */
  function Position(ms: seq<Migration>, proc: Proc): nat
    requires proc.Applying? && proc.mi <= |ms|
  {
    Off(ms, proc.snapshot, proc.mi) + proc.si
  }

  /** A step executes as many statements as the process moves on in the list its snapshot left it; none beside that. */
  lemma {:induction false} StepExecutes(ms: seq<Migration>, sys: Sys, p: Pid, now: int)
    requires p in sys.procs
    requires var proc := sys.procs[p];
             proc.Applying? ==> proc.mi <= |ms| && proc.si <= if proc.mi < |ms| then |Pending(ms[proc.mi], proc.snapshot)| else 0
    ensures var next := Advance(ms, sys, p, now);
            && p in next.procs
            && next.executed
               == (if sys.procs[p].Applying? && next.procs[p].Applying? && next.procs[p].mi <= |ms|
                   then sys.executed + Position(ms, next.procs[p]) - Position(ms, sys.procs[p])
                   else if next.procs[p].StatementFailed? && sys.procs[p].Applying? then sys.executed + 1
                   else sys.executed)
            && (next.procs[p].Applying? ==> next.procs[p].mi <= |ms|)
  {
    hide Execute, BootNeeds;
    var proc := sys.procs[p];
    if proc.Applying? && proc.mi < |ms| {
      OffNext(ms, proc.snapshot, proc.mi);
    }
  }

  // ----- The rows of the projects -----

  /** Nothing that was set is changed. */
  ghost predicate KeepsSet(ids: seq<Option<string>>, later: seq<Option<string>>) {
    |later| == |ids| && forall i :: 0 <= i < |ids| && ids[i].Some? ==> later[i] == ids[i]
  }

  /** No run changes the Default project's creation time or a project id that a row already has. */
  lemma {:induction false} ProjectIdsKept(ms: seq<Migration>, sys: Sys, es: seq<Event>)
    ensures var a, b := sys.data, Run(ms, sys, es).data;
            && (a.defaultCreated.Some? ==> b.defaultCreated == a.defaultCreated)
            && KeepsSet(a.layout, b.layout) && KeepsSet(a.browser, b.browser)
  {
    hide Execute, BootNeeds;
    if es != [] {
      ProjectIdsKept(ms, sys, es[..|es| - 1]);
    }
  }

  /** The one who got furthest is never among the failed. */
  lemma {:induction false} SomeoneSurvives(ms: seq<Migration>, sys: Sys, es: seq<Event>, p: Pid) returns (q: Pid)
    requires Initial(sys) && Deployable(ms, RowIds(sys.rows), sys.schema)
    requires p in Run(ms, sys, es).procs && Run(ms, sys, es).procs[p].RecordFailed?
    ensures q in Run(ms, sys, es).procs && !Run(ms, sys, es).procs[q].RecordFailed?
    decreases |ms| - Run(ms, sys, es).procs[p].mi
  {
    hide FlatTo, Chain, Run, Deployable, Execute;
    var hw := RunKeeps(ms, sys, es);
    var end := Run(ms, sys, es);
    var mi := end.procs[p].mi;
    q :| q != p && Row(ms[mi].id, Some(q)) in end.rows;
    if end.procs[q].RecordFailed? {
      q := SomeoneSurvives(ms, sys, es, q);
    }
  }

  /** Of two processes on one file at most one fails. */
  lemma {:induction false} AtMostOneOfTwoFails(ms: seq<Migration>, sys: Sys, es: seq<Event>, p: Pid, q: Pid)
    requires Initial(sys) && Deployable(ms, RowIds(sys.rows), sys.schema)
    requires p != q && Run(ms, sys, es).procs.Keys == {p, q}
    ensures var procs := Run(ms, sys, es).procs; !(procs[p].RecordFailed? && procs[q].RecordFailed?)
  {
    if Run(ms, sys, es).procs[p].RecordFailed? {
      var r := SomeoneSurvives(ms, sys, es, p);
    }
  }

  lemma {:induction false} RunAppend(ms: seq<Migration>, sys: Sys, es: seq<Event>, more: seq<Event>)
    ensures Run(ms, sys, es + more) == Run(ms, Run(ms, sys, es), more)
  {
    if more == [] {
      assert es + more == es;
    } else {
      var init := more[..|more| - 1];
      RunAppend(ms, sys, es, init);
      assert (es + more)[..|es + more| - 1] == es + init;
    }
  }

  /** Recorded ids only grow, whatever happens next. */
  lemma {:induction false} RecordsGrow(ms: seq<Migration>, sys: Sys, es: seq<Event>)
    ensures sys.rows <= Run(ms, sys, es).rows
  {
    if es != [] {
      RecordsGrow(ms, sys, es[..|es| - 1]);
    }
  }

  // ----- After a completed run -----

  /** Everything is recorded and booted, and nobody is working from an older snapshot. */
  ghost predicate Settled(ms: seq<Migration>, sys: Sys) {
    && Ids(ms) <= RowIds(sys.rows)
    && BootedTo(sys.data, 3)
    && forall p :: p in sys.procs && sys.procs[p].Applying? ==> Ids(ms) <= sys.procs[p].snapshot
  }

  lemma {:induction false} SettledStep(ms: seq<Migration>, sys: Sys, e: Event)
    requires Settled(ms, sys)
    ensures var next := Happen(ms, sys, e);
            && Settled(ms, next)
            && next.schema == sys.schema && next.rows == sys.rows && next.data == sys.data && next.executed == sys.executed
  {
    if e.Step? && e.p in sys.procs {
      var pr := sys.procs[e.p];
      if pr.Applying? && pr.mi < |ms| {
        assert ms[pr.mi] in ms;
      } else if pr.Booting? && pr.k < 3 {
        BootStepFixed(sys.data, 3, pr.k, e.now);
      }
    }
  }

  /** From then on no boot executes a migration statement or changes a row. */
  lemma {:induction false} SettledStays(ms: seq<Migration>, sys: Sys, es: seq<Event>)
    requires Settled(ms, sys)
    ensures var end := Run(ms, sys, es);
            && Settled(ms, end)
            && end.schema == sys.schema && end.rows == sys.rows && end.data == sys.data && end.executed == sys.executed
  {
    if es != [] {
      SettledStays(ms, sys, es[..|es| - 1]);
      SettledStep(ms, Run(ms, sys, es[..|es| - 1]), es[|es| - 1]);
    }
  }

  ghost predicate NobodyHalfWay(sys: Sys) {
    forall q :: q in sys.procs ==> !sys.procs[q].Applying?
  }

  /** Once a run has completed and no other process is half way, later boots leave the file alone. */
  lemma {:induction false} LaterBootsDoNothing(ms: seq<Migration>, sys: Sys, es: seq<Event>, p: Pid, more: seq<Event>)
    requires Initial(sys) && Deployable(ms, RowIds(sys.rows), sys.schema)
    requires p in Run(ms, sys, es).procs && Run(ms, sys, es).procs[p] == Finished && NobodyHalfWay(Run(ms, sys, es))
    ensures var end, later := Run(ms, sys, es), Run(ms, sys, es + more);
            later.schema == end.schema && later.rows == end.rows && later.data == end.data && later.executed == end.executed
  {
    FinishedMeansSolo(ms, sys, es, p);
    RunAppend(ms, sys, es, more);
    SettledStays(ms, Run(ms, sys, es), more);
  }

  // ----- Recovery -----

  /** `n` steps of process `p` alone. */
  function Alone(p: Pid, now: int, n: nat): (es: seq<Event>)
    ensures |es| == n && forall i :: 0 <= i < n ==> es[i] == Step(p, now)
  {
    seq(n, i => Step(p, now))
  }

  function IdsTo(ms: seq<Migration>, i: nat): set<int>
    requires i <= |ms|
  {
    if i == 0 then {} else IdsTo(ms, i - 1) + {ms[i - 1].id}
  }

  lemma {:induction false} IdsToBelow(ms: seq<Migration>, i: nat, k: nat)
    requires i <= k < |ms| && DistinctIds(ms)
    ensures ms[k].id !in IdsTo(ms, i)
  {
    if i > 0 {
      IdsToBelow(ms, i - 1, k);
    }
  }

  /** Everything in the file is what `p` read at its start or recorded itself. */
  ghost predicate Sole(ms: seq<Migration>, rows: seq<Row>, proc: Proc) {
    match proc
    case Applying(snapshot, mi, _) => mi <= |ms| && RowIds(rows) == snapshot + IdsTo(ms, mi)
    case Reading => true
    case Booting(_) => true
    case Finished => true
    case _ => false
  }

  /** How much of its program a process has left: migrations, then statements. */
  function Left(ms: seq<Migration>, proc: Proc): nat {
    match proc
    case Reading => |ms| + 2
    case Applying(_, mi, _) => if mi >= |ms| then 1 else |ms| - mi + 1
    case _ => 0
  }

  function LeftHere(ms: seq<Migration>, proc: Proc): nat {
    match proc
    case Applying(_, mi, si) => if mi < |ms| && si <= |ms[mi].stmts| then |ms[mi].stmts| - si else 0
    case Booting(k) => if k <= 3 then 4 - k else 0
    case _ => 0
  }

  /** A step of a process left alone follows its program, unless a statement fails for real. */
  lemma {:induction false} SoleStep(ms: seq<Migration>, sys: Sys, p: Pid, now: int)
    requires DistinctIds(ms) && p in sys.procs
    requires Sole(ms, sys.rows, sys.procs[p]) && sys.procs[p] != Finished
    requires sys.procs[p].Booting? ==> sys.procs[p].k <= 3
    ensures var next := Advance(ms, sys, p, now).procs[p];
            && (next.StatementFailed? || next.BootFailed? || Sole(ms, Advance(ms, sys, p, now).rows, next))
            && (next.StatementFailed? || next.BootFailed? || next == Finished
                || Left(ms, next) < Left(ms, sys.procs[p])
                || (Left(ms, next) == Left(ms, sys.procs[p]) && LeftHere(ms, next) < LeftHere(ms, sys.procs[p])))
  {
    if sys.procs[p].Applying? && sys.procs[p].mi < |ms| {
      var Applying(snapshot, mi, si) := sys.procs[p];
      var id := ms[mi].id;
      IdsToBelow(ms, mi, mi);
      assert IdsTo(ms, mi + 1) == IdsTo(ms, mi) + {id};
      assert RowIds(sys.rows + [Row(id, Some(p))]) == RowIds(sys.rows) + {id};
    }
  }

  lemma {:induction false} SoleFinishes(ms: seq<Migration>, applied: set<int>, schema: Schema, sys: Sys, hw: nat, p: Pid, now: int)
    returns (n: nat)
    requires Deployable(ms, applied, schema) && Inv(ms, applied, schema, sys, hw) && p in sys.procs
    requires Sole(ms, sys.rows, sys.procs[p])
    ensures var end := Run(ms, sys, Alone(p, now, n)); p in end.procs && end.procs[p] == Finished
    decreases sys.procs[p] != Finished, Left(ms, sys.procs[p]), LeftHere(ms, sys.procs[p])
  {
    hide FlatTo, Chain, Off, Execute, Steady, Runs, Sound, BootNeeds;
    if sys.procs[p] == Finished {
      n := 0;
    } else {
      var next := Advance(ms, sys, p, now);
      var hw' := AdvanceKeeps(ms, applied, schema, sys, hw, p, now);
      assert ProcOk(ms, applied, next.rows, next.data, hw', p, next.procs[p]);
      assert ProcOk(ms, applied, sys.rows, sys.data, hw, p, sys.procs[p]);
      SoleStep(ms, sys, p, now);
      var m := SoleFinishes(ms, applied, schema, next, hw', p, now);
      n := m + 1;
      FirstStep(ms, sys, p, now, m);
    }
  }

  lemma {:induction false} FirstStep(ms: seq<Migration>, sys: Sys, p: Pid, now: int, m: nat)
    requires p in sys.procs
    ensures Run(ms, sys, Alone(p, now, m + 1)) == Run(ms, Advance(ms, sys, p, now), Alone(p, now, m))
  {
    var one := [Step(p, now)];
    assert Alone(p, now, m + 1) == one + Alone(p, now, m);
    assert one[..0] == [];
    assert Run(ms, sys, one) == Happen(ms, Run(ms, sys, []), one[0]);
    RunAppend(ms, sys, one, Alone(p, now, m));
  }

  /**
    Crash recovery: after any history that leaves no process running, a boot that is left alone
    finishes, and so (FinishedMeansSolo) brings the file to what one uninterrupted run leaves.
  */
  lemma {:induction false} NextBootFinishes(ms: seq<Migration>, sys: Sys, es: seq<Event>, p: Pid, now: int) returns (n: nat)
    requires Initial(sys) && Deployable(ms, RowIds(sys.rows), sys.schema)
    requires p !in Run(ms, sys, es).procs
    ensures var end := Run(ms, sys, es + [Spawn(p)] + Alone(p, now, n));
            && p in end.procs && end.procs[p] == Finished
            && end.schema == SoloSchema(ms, RowIds(sys.rows), sys.schema)
            && RowIds(end.rows) == RowIds(sys.rows) + Ids(ms)
  {
    var started := es + [Spawn(p)];
    assert started[..|started| - 1] == es;
    var hw := RunKeeps(ms, sys, started);
    n := SoleFinishes(ms, RowIds(sys.rows), sys.schema, Run(ms, sys, started), hw, p, now);
    RunAppend(ms, sys, started, Alone(p, now, n));
    FinishedMeansSolo(ms, sys, started + Alone(p, now, n), p);
  }

  /** Where one of two processes has lost, the other's list holds all that is recorded. */
  lemma {:induction false} WinnerSole(ms: seq<Migration>, applied: set<int>, schema: Schema, sys: Sys, hw: nat, p: Pid, q: Pid)
    requires Inv(ms, applied, schema, sys, hw)
    requires p != q && sys.procs.Keys == {p, q} && sys.procs[p].RecordFailed? && Live(sys.procs[q])
    ensures Sole(ms, sys.rows, sys.procs[q])
  {
    hide FlatTo, Chain, Off;
    var lost := sys.procs[p].mi;
    assert ProcOk(ms, applied, sys.rows, sys.data, hw, p, sys.procs[p]);
    assert ProcOk(ms, applied, sys.rows, sys.data, hw, q, sys.procs[q]);
    assert Row(ms[lost].id, Some(q)) in sys.rows;
    if sys.procs[q].Applying? {
      var Applying(snapshot, mi, _) := sys.procs[q];
      assert lost < mi;
      forall r | r in sys.rows
        ensures r.id in snapshot + IdsTo(ms, mi)
      {
        if r.owner.Some? {
          var m :| m in ms && m.id == r.id;
          var j :| 0 <= j < |ms| && ms[j] == m;
          assert r == Row(ms[j].id, Some(r.owner.value));
          IdsToAre(ms, mi, j);
        }
      }
      forall id | id in IdsTo(ms, mi)
        ensures id in RowIds(sys.rows)
      {
        var j := IdsToFrom(ms, mi, id);
      }
    }
  }

  lemma {:induction false} IdsToAre(ms: seq<Migration>, i: nat, j: nat)
    requires i <= |ms|
    ensures j < i ==> ms[j].id in IdsTo(ms, i)
  {
    if j < i {
      IdsToAre(ms, i - 1, j);
    }
  }

  lemma {:induction false} IdsToFrom(ms: seq<Migration>, i: nat, id: int) returns (j: nat)
    requires i <= |ms| && id in IdsTo(ms, i)
    ensures j < i && ms[j].id == id
  {
    if ms[i - 1].id == id {
      j := i - 1;
    } else {
      j := IdsToFrom(ms, i - 1, id);
    }
  }

  /** Of two overlapping processes of which one has lost, the other, left alone, finishes. */
  lemma {:induction false} WinnerFinishes(ms: seq<Migration>, sys: Sys, es: seq<Event>, p: Pid, q: Pid, now: int) returns (n: nat)
    requires Initial(sys) && Deployable(ms, RowIds(sys.rows), sys.schema)
    requires var procs := Run(ms, sys, es).procs;
             p != q && procs.Keys == {p, q} && procs[p].RecordFailed? && Live(procs[q])
    ensures var end := Run(ms, sys, es + Alone(q, now, n));
            && q in end.procs && end.procs[q] == Finished
            && end.schema == SoloSchema(ms, RowIds(sys.rows), sys.schema)
            && RowIds(end.rows) == RowIds(sys.rows) + Ids(ms)
  {
    hide Run, Inv, Deployable, Initial, Sole;
    var hw := RunKeeps(ms, sys, es);
    var applied, halfway := RowIds(sys.rows), Run(ms, sys, es);
    WinnerSole(ms, applied, sys.schema, halfway, hw, p, q);
    n := SoleFinishes(ms, applied, sys.schema, halfway, hw, q, now);
    RunAppend(ms, sys, es, Alone(q, now, n));
    FinishedMeansSolo(ms, sys, es + Alone(q, now, n), q);
  }
}
