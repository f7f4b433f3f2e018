/**
  `ensure_schema` and `bootstrap_default_project` of src-tauri/src/db.rs as they run in one process,
  on a database nobody else has open.
*/
module MigrationRunner {
  import opened Wrappers
  import opened Migrations

  /** The ids one run inserts for the first `i` migrations, in order. */
  function NewIds(ms: seq<Migration>, applied: set<int>, i: nat): seq<int>
    requires i <= |ms|
  {
    if i == 0 then []
    else NewIds(ms, applied, i - 1) + if ms[i - 1].id in applied then [] else [ms[i - 1].id]
  }

  function Recorded(ids: seq<int>): set<int> {
    set id | id in ids
  }

  /** No id that is still to be applied occurs twice in the list. */
  ghost predicate NewIdsDistinct(ms: seq<Migration>, applied: set<int>) {
    forall i, j :: 0 <= i < j < |ms| && ms[i].id !in applied ==> ms[i].id != ms[j].id
  }

  lemma {:induction false} NewIdsAre(ms: seq<Migration>, applied: set<int>, i: nat, id: int)
    requires i <= |ms|
    ensures id in NewIds(ms, applied, i) <==> id !in applied && exists j :: 0 <= j < i && ms[j].id == id
  {
    if i > 0 {
      NewIdsAre(ms, applied, i - 1, id);
    }
  }

  /** The first `n` statements of the uninterrupted run do not fail for real. */
  ghost predicate RunsTo(flat: seq<Stmt>, start: Schema, n: nat)
    requires n <= |flat|
  {
    forall k {:trigger StatementRuns(flat, start, k)} :: 0 <= k < n ==> StatementRuns(flat, start, k)
  }

  /** The ids of the first `i` migrations are recorded, and the schema is at least that far along. */
  ghost predicate StoppedAt(ms: seq<Migration>, applied: set<int>, start: Schema, before: seq<int>,
                            schema: Schema, ids: seq<int>, i: nat, k: nat)
  {
    && i <= |ms| && Off(ms, applied, i) <= k <= |Flat(ms, applied)|
    && schema == Chain(Flat(ms, applied), start, k) && ids == before + NewIds(ms, applied, i)
  }

  lemma {:induction false} RunsNone(flat: seq<Stmt>, start: Schema)
    ensures Chain(flat, start, 0) == start && RunsTo(flat, start, 0)
  {
  }

  lemma {:induction false} RunsAll(flat: seq<Stmt>, start: Schema)
    ensures RunsTo(flat, start, |flat|) <==> Runs(flat, start)
  {
  }

  /** The first `n` bootstrap statements. */
  function BootFirst(rows: BootRows, n: nat, now: int): BootRows
    requires n <= 3
  {
    if n == 0 then rows else BootStep(BootFirst(rows, n - 1, now), n - 1, now)
  }

  /** How many bootstrap statements run before one misses a table or column. */
  function BootReach(schema: Schema): (n: nat)
    ensures n <= 3 && (n == 3 <==> Bootable(schema))
    ensures forall k :: 0 <= k < n ==> BootNeeds(k) <= schema
    ensures n < 3 ==> !(BootNeeds(n) <= schema)
  {
    if !(BootNeeds(0) <= schema) then 0
    else if !(BootNeeds(1) <= schema) then 1
    else if !(BootNeeds(2) <= schema) then 2
    else 3
  }

  /**
    What the bootstrap does to the rows: the Default project keeps its creation time, and every row that names
    a project goes on naming it; only what was missing is filled in, as far as the bootstrap got.
  */
  lemma {:induction false} BootFirstIs(rows: BootRows, n: nat, now: int)
    requires n <= 3
    ensures var r := BootFirst(rows, n, now);
            && r.defaultCreated == (if rows.defaultCreated.None? && n > 0 then Some(now) else rows.defaultCreated)
            && |r.layout| == |rows.layout| && |r.browser| == |rows.browser|
            && (forall i :: 0 <= i < |rows.layout| ==>
                  r.layout[i] == if rows.layout[i].None? && n > 1 then Some("default") else rows.layout[i])
            && (forall i :: 0 <= i < |rows.browser| ==>
                  r.browser[i] == if rows.browser[i].None? && n > 2 then Some("default") else rows.browser[i])
  {
    if n > 0 {
      BootFirstIs(rows, n - 1, now);
    }
  }

  lemma {:induction false} ColumnsIn(table: string, names: set<string>, schema: Schema)
    ensures Columns(table, names) <= schema <==> forall c :: c in names ==> Column(table, c) in schema
  {
    forall c | c in names
      ensures Column(table, c) in Columns(table, names)
    {
    }
  }

  /** The nine columns the first bootstrap statement fills. */
  ghost predicate HasProjects(schema: Schema) {
    && Table("projects") in schema && Column("projects", "id") in schema
    && Column("projects", "display_name") in schema && Column("projects", "root_path") in schema
    && Column("projects", "icon") in schema && Column("projects", "color") in schema
    && Column("projects", "description") in schema && Column("projects", "position") in schema
    && Column("projects", "is_default") in schema && Column("projects", "created_at") in schema
  }

  ghost predicate HasProjectId(schema: Schema, table: string) {
    Table(table) in schema && Column(table, "project_id") in schema
  }

  /** How far the bootstrap gets, by what the schema has. */
  lemma {:induction false} BootReachIff(schema: Schema)
    ensures BootReach(schema) >= 1 <==> HasProjects(schema)
    ensures BootReach(schema) >= 2 <==> HasProjects(schema) && HasProjectId(schema, "layout_state")
    ensures BootReach(schema) == 3
       <==> HasProjects(schema) && HasProjectId(schema, "layout_state") && HasProjectId(schema, "browser_sessions")
  {
    hide Columns;
    var cs := {"id", "display_name", "root_path", "icon", "color", "description", "position", "is_default", "created_at"};
    ColumnsIn("projects", cs, schema);
  }

  /** Whatever ran stays done: the rows of the statements that ran are in place. */
  lemma {:induction false} BootFirstHolds(rows: BootRows, n: nat, now: int)
    requires n <= 3
    ensures BootedTo(BootFirst(rows, n, now), n)
  {
    if n > 0 {
      BootFirstHolds(rows, n - 1, now);
      BootStepKeeps(BootFirst(rows, n - 1, now), n - 1, n - 1, now);
    }
  }

  class Database {
    var schema: Schema
    var ids: seq<int>      // the id column of _pa_migrations
    var data: BootRows

    constructor (schema: Schema, data: BootRows)
      ensures this.schema == schema && this.ids == [] && this.data == data
    {
      this.schema, this.ids, this.data := schema, [], data;
    }

    method Query(st: Stmt) returns (outcome: Outcome)
      modifies this`schema
      ensures Executed(schema, outcome) == Execute(st, old(schema))
    {
      var r := Execute(st, schema);
      schema, outcome := r.schema, r.outcome;
    }

    /** INSERT against the primary key. */
    method InsertId(id: int) returns (ok: bool)
      modifies this`ids
      ensures ok == (id !in old(ids))
      ensures ids == if ok then old(ids) + [id] else old(ids)
    {
      ok := id !in ids;
      if ok {
        ids := ids + [id];
      }
    }

    /** Three statements outside any transaction: an error keeps what the ones before it did. */
    method Bootstrap(now: int) returns (ok: bool)
      modifies this`data
      ensures ok == Bootable(schema)
      ensures data == BootFirst(old(data), BootReach(schema), now)
    {
      hide BootStep, BootNeeds;
      for k := 0 to 3
        invariant k <= BootReach(schema) && data == BootFirst(old(data), k, now)
      {
        if !(BootNeeds(k) <= schema) {
          return false;
        }
        data := BootStep(data, k, now);
      }
      return true;
    }

    /** All statements of one migration; stops at the first error that is not swallowed. */
    method ApplyOne(ms: seq<Migration>, i: nat, ghost applied: set<int>, ghost start: Schema) returns (ok: bool)
      requires i < |ms| && ms[i].id !in applied
      requires Off(ms, applied, i) <= |Flat(ms, applied)| && schema == Chain(Flat(ms, applied), start, Off(ms, applied, i))
      requires RunsTo(Flat(ms, applied), start, Off(ms, applied, i))
      modifies this`schema
      ensures !ok ==> !Runs(Flat(ms, applied), start)
                      && exists k :: Off(ms, applied, i) <= k < |Flat(ms, applied)| && schema == Chain(Flat(ms, applied), start, k)
      ensures ok ==> Off(ms, applied, i + 1) <= |Flat(ms, applied)|
                     && schema == Chain(Flat(ms, applied), start, Off(ms, applied, i + 1))
                     && RunsTo(Flat(ms, applied), start, Off(ms, applied, i + 1))
    {
      hide FlatTo, Execute, Chain;
      ghost var flat, off := Flat(ms, applied), Off(ms, applied, i);
      OffNext(ms, applied, i);
      OffMonotone(ms, applied, i + 1, |ms|);
      for s := 0 to |ms[i].stmts|
        invariant off + s <= |flat| && schema == Chain(flat, start, off + s)
        invariant RunsTo(flat, start, off + s)
      {
        FlatAt(ms, applied, i, s);
        ChainNext(flat, start, off + s);
        var outcome := Query(ms[i].stmts[s]);
        if outcome == Failed {
          assert !StatementRuns(flat, start, off + s);
          NotDoneKeeps(ms[i].stmts[s], Chain(flat, start, off + s));
          return false;
        }
      }
      return true;
    }

    /**
      The migrations all run exactly when no statement of the uninterrupted run fails for real and no new
      id is listed twice.  They then leave the schema of the whole list and one row for every new id in
      list order, and the bootstrap statements run up to the first that misses its table; the call
      succeeds if none does.  Otherwise the run stops somewhere along the way: a first part of the list is
      recorded, the schema is at least that far along, and the bootstrap has not begun.
    */
    method EnsureSchema(ms: seq<Migration>, now: int) returns (ok: bool)
      modifies this
      ensures var applied := Recorded(old(ids));
              var flat := Flat(ms, applied);
              var through := Runs(flat, old(schema)) && NewIdsDistinct(ms, applied);
              && (ok <==> through && Bootable(Chain(flat, old(schema), |flat|)))
              && (through ==> && schema == Chain(flat, old(schema), |flat|)
                              && ids == old(ids) + NewIds(ms, applied, |ms|)
                              && data == BootFirst(old(data), BootReach(schema), now))
              && (!through ==> && data == old(data)
                               && exists i, k :: StoppedAt(ms, applied, old(schema), old(ids), schema, ids, i, k))
    {
      hide FlatTo, Chain, RunsTo, Runs, Execute, BootNeeds, BootStep, BootFirst, BootReach;
      var applied := Recorded(ids);
      ghost var flat := Flat(ms, applied);
      OffStart(ms, applied);
      RunsNone(flat, schema);
      for i := 0 to |ms|
        invariant Off(ms, applied, i) <= |flat| && schema == Chain(flat, old(schema), Off(ms, applied, i))
        invariant RunsTo(flat, old(schema), Off(ms, applied, i))
        invariant ids == old(ids) + NewIds(ms, applied, i)
        invariant forall j, k :: 0 <= j < k < i && ms[j].id !in applied ==> ms[j].id != ms[k].id
        invariant data == old(data)
      {
        NewIdsAre(ms, applied, i, ms[i].id);
        OffNext(ms, applied, i);
        OffMonotone(ms, applied, i + 1, |ms|);
        if ms[i].id !in applied {
          var applies := ApplyOne(ms, i, applied, old(schema));
          if !applies {
            ghost var k :| Off(ms, applied, i) <= k < |flat| && schema == Chain(flat, old(schema), k);
            assert StoppedAt(ms, applied, old(schema), old(ids), schema, ids, i, k);
            return false;
          }
          var inserted := InsertId(ms[i].id);
          if !inserted {
            assert StoppedAt(ms, applied, old(schema), old(ids), schema, ids, i, Off(ms, applied, i + 1));
            return false;
          }
        }
      }
      RunsAll(flat, old(schema));
      ok := Bootstrap(now);
    }
  }
}
