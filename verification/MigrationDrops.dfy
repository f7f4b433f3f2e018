/**
  Crash recovery with drops and renames, exactly: one process at a time, each killed anywhere, then one boot
  that is left alone.  A migration whose id is not recorded yet is replayed from its first statement, over
  whatever the crashes left.  It gets through if and only if none of its statements asks for anything that
  it, or a later statement of the same migration, takes away.
*/
module MigrationDrops {
  import opened Wrappers
  import opened Migrations
  import opened MigrationRuns
  import opened MigrationBoots

  // ----- What a statement asks for, makes and takes away -----

  /** The table or other object whose absence is an error. */
  function Demand(st: Stmt): Option<Obj> {
    if st.AddColumn? || st.CreateIndex? then Some(Table(st.table))
    else if Bare(st) then Some(Gone(st))
    else None
  }

  predicate Takes(st: Stmt, o: Obj) {
    !Adds(st) && Within(o, Gone(st))
  }

  predicate Makes(st: Stmt, o: Obj) {
    match st
    case CreateTable(name, columns, _) => o == Table(name) || o in Columns(name, columns)
    case AddColumn(table, column) => o == Column(table, column)
    case CreateIndex(table, index, _, _) => o == Index(table, index)
    case Rename(_, to) => Within(o, Table(to))
    case _ => false
  }

  /** `later` leaves what `st` asks for. */
  predicate Leaves(later: Stmt, st: Stmt) {
    Demand(st).None? || !Takes(later, Demand(st).value)
  }

  /** Nothing that a statement asks for is taken away by it or by a later one. */
  ghost predicate Lasting(stmts: seq<Stmt>) {
    forall a, d :: 0 <= a <= d < |stmts| ==> Leaves(stmts[d], stmts[a])
  }

  /** Up to its first bare drop or rename, a migration takes away nothing that it has made itself. */
  ghost predicate TakesOlder(stmts: seq<Stmt>) {
    forall t, d :: 0 <= t < d < |stmts| && !Adds(stmts[d]) && NoBare(stmts[..d]) ==> !Makes(stmts[t], Gone(stmts[d]))
  }

  predicate NoBare(stmts: seq<Stmt>) {
    forall u :: 0 <= u < |stmts| ==> !Bare(stmts[u])
  }

  // ----- Histories of one process at a time -----

  ghost predicate NobodyLive(sys: Sys) {
    forall p :: p in sys.procs ==> !Live(sys.procs[p])
  }

  /** A process starts only when the one before it has ended or died. */
  ghost predicate Sequential(ms: seq<Migration>, sys: Sys, es: seq<Event>) {
    || es == []
    || (&& Sequential(ms, sys, es[..|es| - 1])
        && (es[|es| - 1].Spawn? ==> NobodyLive(Run(ms, sys, es[..|es| - 1]))))
  }

  /** After every such history a boot that is left alone finishes. */
  ghost predicate Recovers(ms: seq<Migration>, sys: Sys) {
    forall es: seq<Event>, p: Pid, now: int ::
      Sequential(ms, sys, es) && NobodyLive(Run(ms, sys, es)) && p !in Run(ms, sys, es).procs
      ==> NextFinishes(ms, Run(ms, sys, es), p, now)
  }

  ghost predicate NextFinishes(ms: seq<Migration>, sys: Sys, p: Pid, now: int) {
    exists n: nat :: FinishedAfter(ms, sys, p, now, n)
  }

  predicate FinishedAfter(ms: seq<Migration>, sys: Sys, p: Pid, now: int, n: nat) {
    var end := Booted(ms, sys, p, now, n);
    p in end.procs && end.procs[p] == Finished
  }

  // ----- Stranded -----

  lemma {:induction false} DemandFails(st: Stmt, schema: Schema)
    requires Demand(st).Some? && Demand(st).value !in schema
    ensures Execute(st, schema).outcome == Failed
  {
  }

  lemma {:induction false} StaysAway(st: Stmt, schema: Schema, o: Obj)
    requires o !in schema && !Makes(st, o)
    ensures o !in Execute(st, schema).schema
  {
  }

  lemma {:induction false} StaysThere(st: Stmt, schema: Schema, o: Obj)
    requires o in schema && !Takes(st, o)
    ensures o in Execute(st, schema).schema
  {
    if st.Rename? {
      assert Moved(o, st.from, st.to) == o;
    }
  }

  lemma {:induction false} TakenAway(st: Stmt, schema: Schema)
    requires !Adds(st) && Gone(st) in schema && Execute(st, schema).outcome != Failed
    ensures Gone(st) !in Execute(st, schema).schema
  {
  }

  lemma {:induction false} SequentialBoot(ms: seq<Migration>, sys: Sys, n: nat)
    requires sys.procs == map[]
    ensures Sequential(ms, sys, [Spawn(0)] + Alone(0, 0, n))
  {
    var es := [Spawn(0)] + Alone(0, 0, n);
    if n == 0 {
      assert es == [Spawn(0)] && es[..0] == [];
      assert Run(ms, sys, es[..0]) == sys;
      assert Sequential(ms, sys, es[..0]);
    } else {
      SequentialBoot(ms, sys, n - 1);
      assert es[..|es| - 1] == [Spawn(0)] + Alone(0, 0, n - 1);
    }
  }

  lemma {:induction false} SequentialMore(ms: seq<Migration>, sys: Sys, es: seq<Event>, e: Event)
    requires Sequential(ms, sys, es) && !e.Spawn?
    ensures Sequential(ms, sys, es + [e]) && Run(ms, sys, es + [e]) == Happen(ms, Run(ms, sys, es), e)
  {
    hide Happen;
    assert (es + [e])[..|es|] == es;
  }

  /** The first boot, killed before statement `s` of migration `i`. */
  lemma {:induction false} CrashAt(ms: seq<Migration>, sys: Sys, i: nat, s: nat) returns (es: seq<Event>)
    requires Initial(sys) && DistinctIds(ms) && Runs(Flat(ms, RowIds(sys.rows)), sys.schema)
    requires i < |ms| && s <= |Pending(ms[i], RowIds(sys.rows))|
    ensures Sequential(ms, sys, es)
    ensures var end := Run(ms, sys, es);
            && end.procs.Keys == {0} && NobodyLive(end)
            && RowIds(end.rows) == RowIds(sys.rows) + IdsTo(ms, i)
            && Off(ms, RowIds(sys.rows), i) + s <= |Flat(ms, RowIds(sys.rows))|
            && end.schema == Chain(Flat(ms, RowIds(sys.rows)), sys.schema, Off(ms, RowIds(sys.rows), i) + s)
  {
    hide FlatTo, Chain, Runs, Execute, RowIds, BootNeeds, BootStep, Run, Sequential, DistinctIds;
    var k := FirstBootReaches(ms, sys, 0, 0, i, s);
    OnlySpawned(ms, sys, 0, 0, k);
    SequentialBoot(ms, sys, k);
    var boot := [Spawn(0)] + Alone(0, 0, k);
    es := boot + [Kill(0)];
    SequentialMore(ms, sys, boot, Kill(0));
  }

  /** Replaying up to a statement cannot bring back what it asks for, so the boot ends in an error. */
  lemma {:induction false} RetryFails(ms: seq<Migration>, sys: Sys, i: nat, a: nat, o: Obj, t: nat) returns (n: nat)
    requires 1 !in sys.procs && i < |ms| && AllRecorded(ms, sys.rows, i) && ms[i].id !in RowIds(sys.rows)
    requires a < |ms[i].stmts| && Demand(ms[i].stmts[a]) == Some(o) && o !in sys.schema
    requires forall u :: 0 <= u < a ==> !Makes(ms[i].stmts[u], o)
    requires t <= a
    ensures var end := Booted(ms, sys, 1, 0, n);
            && 1 in end.procs
            && (end.procs[1].StatementFailed?
                || (end.procs[1] == Applying(RowIds(sys.rows), i, t) && o !in end.schema))
  {
    hide Execute, Makes, Demand, Booted, BootNeeds, BootStep;
    if t == 0 {
      n := RetryReaches(ms, sys, 1, 0, i);
    } else {
      var m := RetryFails(ms, sys, i, a, o, t - 1);
      BootedNext(ms, sys, 1, 0, m);
      var before := Booted(ms, sys, 1, 0, m);
      if o !in before.schema {
        StaysAway(ms[i].stmts[t - 1], before.schema, o);
      }
      n := m + 1;
    }
  }

  /** Nothing is left of `o`, statement `a` asks for it, and no statement before `a` makes it. */
  lemma {:induction false} RetryStrands(ms: seq<Migration>, sys: Sys, i: nat, a: nat, o: Obj)
    requires 1 !in sys.procs && i < |ms| && AllRecorded(ms, sys.rows, i) && ms[i].id !in RowIds(sys.rows)
    requires a < |ms[i].stmts| && Demand(ms[i].stmts[a]) == Some(o) && o !in sys.schema
    requires forall u :: 0 <= u < a ==> !Makes(ms[i].stmts[u], o)
    ensures !NextFinishes(ms, sys, 1, 0)
  {
    hide Execute, Makes, Demand, Booted, BootNeeds, BootStep;
    var m := RetryFails(ms, sys, i, a, o, a);
    var before := Booted(ms, sys, 1, 0, m);
    BootedNext(ms, sys, 1, 0, m);
    if o !in before.schema {
      DemandFails(ms[i].stmts[a], before.schema);
    }
    var failed := m + 1;
    assert Booted(ms, sys, 1, 0, failed).procs[1].StatementFailed?;
    if NextFinishes(ms, sys, 1, 0) {
      var n: nat :| FinishedAfter(ms, sys, 1, 0, n);
      if n <= failed {
        EndsOnce(ms, sys, 1, 0, n, failed);
      } else {
        EndsOnce(ms, sys, 1, 0, failed, n);
      }
    }
  }

  lemma {:induction false} FirstBare(stmts: seq<Stmt>, b: nat) returns (first: nat)
    requires b < |stmts| && Bare(stmts[b])
    ensures first <= b && Bare(stmts[first]) && NoBare(stmts[..first])
  {
    first := 0;
    while !Bare(stmts[first])
      invariant first <= b && NoBare(stmts[..first])
      decreases b - first
    {
      first := first + 1;
    }
  }

  lemma {:induction false} FirstTaker(stmts: seq<Stmt>, a: nat, d: nat, o: Obj) returns (first: nat)
    requires a <= d < |stmts| && Takes(stmts[d], o)
    ensures a <= first <= d && Takes(stmts[first], o) && forall u :: a <= u < first ==> !Takes(stmts[u], o)
  {
    first := a;
    while !Takes(stmts[first], o)
      invariant a <= first <= d && forall u :: a <= u < first ==> !Takes(stmts[u], o)
      decreases d - first
    {
      first := first + 1;
    }
  }

  /**
    Where a demand does not last, one can be chosen so that nothing before it brings the object back: the
    first bare drop or rename if there is one, else the table of an added column or index, and its first drop.
  */
  lemma {:induction false} Culprit(stmts: seq<Stmt>) returns (a: nat, d: nat, o: Obj)
    requires TakesOlder(stmts) && !Lasting(stmts)
    ensures a <= d < |stmts| && Demand(stmts[a]) == Some(o) && !Adds(stmts[d]) && o == Gone(stmts[d])
    ensures forall u :: 0 <= u < d ==> !Makes(stmts[u], o)
    ensures forall u :: a <= u < d ==> !Takes(stmts[u], o)
  {
    hide Makes;
    a, d :| 0 <= a <= d < |stmts| && !Leaves(stmts[d], stmts[a]);
    if b :| 0 <= b < |stmts| && Bare(stmts[b]) {
      d := FirstBare(stmts, b);
      a, o := d, Gone(stmts[d]);
    } else {
      o := Demand(stmts[a]).value;
      d := FirstTaker(stmts, a, d, o);
    }
  }

  /** What a statement asked for is there until the first that takes it away, and then it is not. */
  lemma {:induction false} ThereUntil(flat: seq<Stmt>, schema: Schema, a: nat, d: nat, o: Obj)
    requires a <= d < |flat| && Runs(flat, schema) && Demand(flat[a]) == Some(o)
    requires !Adds(flat[d]) && o == Gone(flat[d]) && forall u :: a <= u < d ==> !Takes(flat[u], o)
    ensures o !in Chain(flat, schema, d + 1)
  {
    hide Execute, Demand, Takes, Chain;
    assert StatementRuns(flat, schema, a);
    if o !in Chain(flat, schema, a) {
      DemandFails(flat[a], Chain(flat, schema, a));
    }
    for k := a to d
      invariant o in Chain(flat, schema, k)
    {
      ChainNext(flat, schema, k);
      StaysThere(flat[k], Chain(flat, schema, k), o);
    }
    assert StatementRuns(flat, schema, d);
    ChainNext(flat, schema, d);
    TakenAway(flat[d], Chain(flat, schema, d));
  }

  /** Killed right behind the statement that takes it away, the database never opens again. */
  lemma {:induction false} DropStrands(ms: seq<Migration>, sys: Sys, i: nat)
    requires Initial(sys) && DistinctIds(ms) && Runs(Flat(ms, RowIds(sys.rows)), sys.schema)
    requires i < |ms| && ms[i].id !in RowIds(sys.rows) && TakesOlder(ms[i].stmts) && !Lasting(ms[i].stmts)
    ensures !Recovers(ms, sys)
  {
    hide Execute, Demand, Takes, Makes, Chain, Runs, FlatTo, Lasting, TakesOlder, NextFinishes;
    var applied, flat := RowIds(sys.rows), Flat(ms, RowIds(sys.rows));
    var stmts, off := ms[i].stmts, Off(ms, RowIds(sys.rows), i);
    var a, d, o := Culprit(stmts);
    forall u | 0 <= u < |stmts|
      ensures off + u < |flat| && flat[off + u] == stmts[u]
    {
      FlatAt(ms, applied, i, u);
    }
    forall u | off + a <= u < off + d
      ensures !Takes(flat[u], o)
    {
      assert flat[off + (u - off)] == stmts[u - off];
    }
    ThereUntil(flat, sys.schema, off + a, off + d, o);
    var es := CrashAt(ms, sys, i, d + 1);
    var crashed := Run(ms, sys, es);
    RecordedTo(ms, crashed.rows, applied, i);
    RetryStrands(ms, crashed, i, a, o);
  }

  // ----- One migration, replayed over what crashes left of it -----

  /** Adds and IF EXISTS drops, none of which takes away what an earlier one makes or asks for. */
  ghost predicate Tame(q: seq<Stmt>) {
    && NoBare(q)
    && forall a, d :: 0 <= a < d < |q| ==> Leaves(q[d], q[a]) && KeepsMade(q[d], q[a])
  }

  ghost predicate KeepsMade(later: Stmt, st: Stmt) {
    forall o :: Makes(st, o) ==> !Takes(later, o)
  }

  lemma {:induction false} LastingTame(q: seq<Stmt>)
    requires TakesOlder(q) && Lasting(q)
    ensures Tame(q)
  {
    forall b | 0 <= b < |q|
      ensures !Bare(q[b])
    {
      assert Leaves(q[b], q[b]);
    }
    forall a, d | 0 <= a < d < |q|
      ensures KeepsMade(q[d], q[a])
    {
      assert Leaves(q[d], q[a]);
      assert NoBare(q[..d]);
      if !Adds(q[d]) {
        assert !Makes(q[a], Gone(q[d]));
      }
    }
  }

  ghost predicate TakenIn(q: seq<Stmt>, o: Obj, lo: nat, hi: nat) {
    exists d :: lo <= d < hi && d < |q| && Takes(q[d], o)
  }

  ghost predicate Seen(q: seq<Stmt>, start: Schema, o: Obj) {
    exists k: nat {:trigger SeenAt(q, start, o, k)} :: k <= |q| && SeenAt(q, start, o, k)
  }

  ghost predicate SeenAt(q: seq<Stmt>, start: Schema, o: Obj, k: nat)
    requires k <= |q|
  {
    o in Chain(q, start, k)
  }

  /** A table that statement `a` creates in the uninterrupted run is there with its columns or not at all. */
  ghost predicate Whole(q: seq<Stmt>, start: Schema, now: Schema, a: nat)
    requires a < |q|
  {
    (q[a].CreateTable? && Table(q[a].name) !in Chain(q, start, a) && !TakenIn(q, Table(q[a].name), 0, a)
     && Table(q[a].name) in now)
    ==> Columns(q[a].name, q[a].columns) <= now
  }

  /**
    The schema in a pass over the migration that stands before statement `j`, after any number of passes cut
    short; `start` is what the uninterrupted run began with.
  */
  ghost predicate Pass(q: seq<Stmt>, start: Schema, now: Schema, j: nat) {
    && j <= |q| && Sound(now)
    && (forall o :: o in Chain(q, start, j) && !TakenIn(q, o, j, |q|) ==> o in now)
    && (forall o :: o in now ==> Seen(q, start, o))
    && (forall o :: o in now && TakenIn(q, o, 0, j) ==> o in Chain(q, start, j))
    && (forall a: nat {:trigger Whole(q, start, now, a)} :: a < |q| ==> Whole(q, start, now, a))
  }

  lemma {:induction false} PassFirst(q: seq<Stmt>, start: Schema)
    requires Sound(start)
    ensures Pass(q, start, start, 0)
  {
    assert Chain(q, start, 0) == start;
    forall o | o in start
      ensures Seen(q, start, o)
    {
      assert SeenAt(q, start, o, 0);
    }
    forall a: nat | a < |q|
      ensures Whole(q, start, start, a)
    {
      if q[a].CreateTable? && !TakenIn(q, Table(q[a].name), 0, a) {
        NotTaken(q, start, 0, a, Table(q[a].name));
      }
    }
  }

  /** What no statement takes stays. */
  lemma {:induction false} NotTaken(q: seq<Stmt>, start: Schema, j: nat, k: nat, o: Obj)
    requires j <= k <= |q| && !TakenIn(q, o, j, k)
    ensures o in Chain(q, start, j) ==> o in Chain(q, start, k)
    decreases k - j
  {
    hide Execute, Takes;
    if j < k {
      NotTaken(q, start, j, k - 1, o);
      ChainNext(q, start, k - 1);
      if o in Chain(q, start, k - 1) {
        StaysThere(q[k - 1], Chain(q, start, k - 1), o);
      }
    }
  }

  /** What a statement of a tame migration makes is not taken again. */
  lemma {:induction false} MadeStays(q: seq<Stmt>, a: nat, o: Obj)
    requires Tame(q) && a < |q| && Makes(q[a], o)
    ensures !TakenIn(q, o, a, |q|)
  {
    hide Makes;
    MakesAdds(q[a], o);
    forall d | a < d < |q|
      ensures !Takes(q[d], o)
    {
      assert KeepsMade(q[d], q[a]);
    }
  }

  lemma {:induction false} MakesAdds(st: Stmt, o: Obj)
    requires Makes(st, o) && !Bare(st)
    ensures Adds(st)
  {
  }

  /** A pass cut short is where the next one starts. */
  lemma {:induction false} PassAgain(q: seq<Stmt>, start: Schema, now: Schema, j: nat)
    requires Pass(q, start, now, j)
    ensures Pass(q, start, now, 0)
  {
    hide Takes, Chain, Seen, Whole;
    forall o | o in Chain(q, start, 0) && !TakenIn(q, o, 0, |q|)
      ensures o in now
    {
      NotTaken(q, start, 0, j, o);
    }
  }

  /** A pass that comes to the end leaves what the uninterrupted run leaves. */
  lemma {:induction false} PassEnds(q: seq<Stmt>, start: Schema, now: Schema)
    requires Pass(q, start, now, |q|)
    ensures now == Chain(q, start, |q|)
  {
    hide Takes, Chain, Whole;
    forall o | o in now
      ensures o in Chain(q, start, |q|)
    {
      if !TakenIn(q, o, 0, |q|) {
        var k: nat :| k <= |q| && SeenAt(q, start, o, k);
        NotTaken(q, start, k, |q|, o);
      }
    }
  }

  // ----- A step of a pass -----

  lemma {:induction false} ClearIs(st: Stmt, schema: Schema)
    requires Clears(st) && Sound(schema)
    ensures Execute(st, schema) == Executed(Without(schema, Gone(st)), Done)
  {
  }

  lemma {:induction false} PassClear(q: seq<Stmt>, start: Schema, now: Schema, j: nat)
    requires Pass(q, start, now, j) && Sound(start) && j < |q| && Clears(q[j])
    ensures Pass(q, start, Without(now, Gone(q[j])), j + 1)
  {
    hide Execute, Chain, Seen, TakenIn;
    var gone := Gone(q[j]);
    var next := Without(now, gone);
    ChainNext(q, start, j);
    ChainSound(q, start, j);
    ClearIs(q[j], Chain(q, start, j));
    forall o
      ensures TakenIn(q, o, j, |q|) <==> Within(o, gone) || TakenIn(q, o, j + 1, |q|)
      ensures TakenIn(q, o, 0, j + 1) <==> Within(o, gone) || TakenIn(q, o, 0, j)
    {
      TakenSplit(q, o, j);
    }
    forall a: nat | a < |q|
      ensures Whole(q, start, next, a)
    {
      assert Whole(q, start, now, a);
    }
  }

  lemma {:induction false} TakenSplit(q: seq<Stmt>, o: Obj, j: nat)
    requires j < |q|
    ensures TakenIn(q, o, j, |q|) <==> Takes(q[j], o) || TakenIn(q, o, j + 1, |q|)
    ensures TakenIn(q, o, 0, j + 1) <==> Takes(q[j], o) || TakenIn(q, o, 0, j)
  {
    hide Takes;
    if d :| j <= d < |q| && Takes(q[d], o) {
      assert d == j || j + 1 <= d;
    }
  }

  /** What an adding statement puts there when its key is missing. */
  function Put(st: Stmt): set<Obj>
    requires Adds(st)
  {
    if st.CreateTable? then {Table(st.name)} + Columns(st.name, st.columns) else {Key(st)}
  }

  lemma {:induction false} PutIs(st: Stmt, schema: Schema)
    requires Adds(st)
    ensures Key(st) in Put(st) && forall o :: o in Put(st) <==> Makes(st, o)
    ensures forall o :: !Takes(st, o)
    ensures var r := Execute(st, schema);
            && (Key(st) in schema ==> r.schema == schema)
            && (Key(st) !in schema && r.outcome != Failed ==> r.schema == schema + Put(st))
    ensures Execute(st, schema).outcome == Failed <==>
              !st.CreateTable? && (Table(st.table) !in schema ||
                (Key(st) !in schema && st.CreateIndex? && !(Columns(st.table, st.columns) <= schema)))
  {
  }

  /** In a pass, an object that the uninterrupted run has at this point and that nothing later takes is there. */
  lemma {:induction false} KeyAgrees(q: seq<Stmt>, start: Schema, now: Schema, j: nat)
    requires Tame(q) && Pass(q, start, now, j) && j < |q| && Adds(q[j])
    ensures Key(q[j]) in Chain(q, start, j) ==> Key(q[j]) in now
  {
    hide Execute, Chain, Takes, Whole, Seen;
    PutIs(q[j], now);
    MadeStays(q, j, Key(q[j]));
  }

  /** An adding statement finds what it asks for in every pass. */
  lemma {:induction false} PassAddRuns(q: seq<Stmt>, start: Schema, now: Schema, j: nat)
    requires Tame(q) && Runs(q, start) && Pass(q, start, now, j) && j < |q| && Adds(q[j])
    ensures Execute(q[j], now).outcome != Failed
  {
    hide Execute, Chain, Whole, Seen, Within;
    assert StatementRuns(q, start, j);
    PutIs(q[j], now);
    PutIs(q[j], Chain(q, start, j));
    KeyAgrees(q, start, now, j);
    if !q[j].CreateTable? {
      var table := Table(q[j].table);
      TableLasts(q, j);
      if q[j].CreateIndex? && Key(q[j]) !in now {
        forall c | c in q[j].columns
          ensures Column(q[j].table, c) in now
        {
          ColumnLasts(q, j, c);
          assert Column(q[j].table, c) in Columns(q[j].table, q[j].columns);
        }
      }
    }
  }

  lemma {:induction false} TableLasts(q: seq<Stmt>, j: nat)
    requires Tame(q) && j < |q| && (q[j].AddColumn? || q[j].CreateIndex?)
    ensures !TakenIn(q, Table(q[j].table), j, |q|)
  {
    forall d | j < d < |q|
      ensures !Takes(q[d], Table(q[j].table))
    {
      assert Leaves(q[d], q[j]);
    }
  }

  /** Only a drop of its table clears a column away. */
  lemma {:induction false} ColumnLasts(q: seq<Stmt>, j: nat, c: string)
    requires Tame(q) && j < |q| && (q[j].AddColumn? || q[j].CreateIndex?)
    ensures !TakenIn(q, Column(q[j].table, c), j, |q|)
  {
    TableLasts(q, j);
    forall d | j < d < |q|
      ensures !Takes(q[d], Column(q[j].table, c))
    {
      assert !Bare(q[d]);
    }
  }

  /** A table that this statement creates in the uninterrupted run, if it is there already, has its columns. */
  lemma {:induction false} PutAgrees(q: seq<Stmt>, start: Schema, now: Schema, j: nat)
    requires Tame(q) && Pass(q, start, now, j) && j < |q| && Adds(q[j])
    requires Key(q[j]) !in Chain(q, start, j) && Key(q[j]) in now
    ensures Put(q[j]) <= now
  {
    hide Execute, Chain, Takes, Seen;
    assert Whole(q, start, now, j);
  }

  lemma {:induction false} PassAdd(q: seq<Stmt>, start: Schema, now: Schema, j: nat)
    requires Tame(q) && Runs(q, start) && Pass(q, start, now, j) && j < |q| && Adds(q[j])
    ensures Pass(q, start, Execute(q[j], now).schema, j + 1)
  {
    hide Execute, Chain, Takes, Tame, TakenIn, Runs, Makes, Put, Within, Sound, Columns;
    var next, solo := Execute(q[j], now).schema, Chain(q, start, j);
    assert StatementRuns(q, start, j) by { RunsAt(q, start, j); }
    ChainNext(q, start, j);
    PutIs(q[j], now);
    PutIs(q[j], solo);
    PassAddRuns(q, start, now, j);
    KeyAgrees(q, start, now, j);
    ExecuteSound(q[j], now);
    forall o
      ensures TakenIn(q, o, j, |q|) <==> TakenIn(q, o, j + 1, |q|)
      ensures TakenIn(q, o, 0, j + 1) <==> TakenIn(q, o, 0, j)
    {
      TakenSplit(q, o, j);
    }
    if Key(q[j]) in now {
      if Key(q[j]) !in solo {
        PutAgrees(q, start, now, j);
      }
    } else {
      forall o | o in Put(q[j])
        ensures Seen(q, start, o)
      {
        assert SeenAt(q, start, o, j + 1);
      }
    }
    forall a: nat | a < |q|
      ensures Whole(q, start, next, a)
    {
      WholeKeeps(q, start, now, j, a);
    }
  }

  lemma {:induction false} RunsAt(q: seq<Stmt>, start: Schema, j: nat)
    requires Runs(q, start) && j < |q|
    ensures StatementRuns(q, start, j)
  {
  }

  /** The table of a `CREATE TABLE` comes back by that statement alone. */
  lemma {:induction false} WholeKeeps(q: seq<Stmt>, start: Schema, now: Schema, j: nat, a: nat)
    requires Tame(q) && Pass(q, start, now, j) && j < |q| && Adds(q[j]) && a < |q|
    requires Execute(q[j], now).outcome != Failed
    ensures Whole(q, start, Execute(q[j], now).schema, a)
  {
    hide Execute, Chain, Takes, Runs, Within, Sound, Seen;
    assert Whole(q, start, now, a);
    PutIs(q[j], now);
    if q[a].CreateTable? && q[j].CreateTable? && q[a].name == q[j].name {
      var table := Table(q[a].name);
      if j < a {
        MadeStays(q, j, table);
        CreatedAt(q, start, j);
        NotTaken(q, start, j + 1, a, table);
      } else if a < j {
        MadeStays(q, a, table);
        CreatedAt(q, start, a);
        NotTaken(q, start, a + 1, j, table);
      }
    }
  }

  lemma {:induction false} CreatedAt(q: seq<Stmt>, start: Schema, j: nat)
    requires j < |q| && q[j].CreateTable?
    ensures Table(q[j].name) in Chain(q, start, j + 1)
  {
  }

  /** Every statement of a pass runs, and the pass goes on. */
  lemma {:induction false} PassStep(q: seq<Stmt>, start: Schema, now: Schema, j: nat)
    requires Tame(q) && Runs(q, start) && Sound(start) && Pass(q, start, now, j) && j < |q|
    ensures Execute(q[j], now).outcome != Failed && Pass(q, start, Execute(q[j], now).schema, j + 1)
  {
    hide Execute, Chain, Runs, Leaves, KeepsMade, Whole;
    if Adds(q[j]) {
      PassAddRuns(q, start, now, j);
      PassAdd(q, start, now, j);
    } else {
      assert !Bare(q[j]);
      ClearIs(q[j], now);
      PassClear(q, start, now, j);
    }
  }
}
