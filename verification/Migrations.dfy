/**
  The embedded migration runner of src-tauri/src/db.rs.

  Each process reads the set of recorded ids once, then walks the migration list: it executes the
  statements of every id it did not find, one at a time and outside any transaction, swallows
  "already exists" and "duplicate column name", and inserts the id last.  The model runs any number
  of such processes on one database file, interleaved statement by statement, each of which may die
  between any two statements.
*/
module Migrations {
  import opened Wrappers

  /** A table or view, and what belongs to a table and goes with it. */
  datatype Obj = Table(name: string) | Column(table: string, name: string) | Index(table: string, name: string)

  type Schema = set<Obj>

  /** The statements of schema migrations; `guarded` is IF NOT EXISTS or IF EXISTS. */
  datatype Stmt =
    | CreateTable(name: string, columns: set<string>, guarded: bool)
    | AddColumn(table: string, column: string)
    | CreateIndex(table: string, index: string, columns: set<string>, guarded: bool)
    | DropTable(name: string, guarded: bool)
    | DropIndex(table: string, index: string, guarded: bool)
    | DropColumn(table: string, column: string)
    | Rename(from: string, to: string)

  /** `Swallowed` is one of the two messages the loop continues on, `Failed` is any other error. */
  datatype Outcome = Done | Swallowed | Failed

  datatype Executed = Executed(schema: Schema, outcome: Outcome)

  datatype Migration = Migration(id: int, stmts: seq<Stmt>)

  /** `o` is `whole` or belongs to it. */
  predicate Within(o: Obj, whole: Obj) {
    o == whole || (whole.Table? && !o.Table? && o.table == whole.name)
  }

  function Columns(table: string, names: set<string>): set<Obj> {
    set c | c in names :: Column(table, c)
  }

  function Without(schema: Schema, whole: Obj): Schema {
    set o | o in schema && !Within(o, whole)
  }

  /** Where an object is after a table was renamed. */
  function Moved(o: Obj, from: string, to: string): Obj {
    match o
    case Table(n) => if n == from then Table(to) else o
    case Column(t, n) => if t == from then Column(to, n) else o
    case Index(t, n) => if t == from then Index(to, n) else o
  }

  function Execute(st: Stmt, schema: Schema): Executed {
    match st
    case CreateTable(name, columns, guarded) =>
      if Table(name) in schema then Executed(schema, if guarded then Done else Swallowed)
      else Executed(schema + {Table(name)} + Columns(name, columns), Done)
    case AddColumn(table, column) =>
      if Table(table) !in schema then Executed(schema, Failed)
      else if Column(table, column) in schema then Executed(schema, Swallowed)
      else Executed(schema + {Column(table, column)}, Done)
    case CreateIndex(table, index, columns, guarded) =>
      if Table(table) !in schema then Executed(schema, Failed)
      else if Index(table, index) in schema then Executed(schema, if guarded then Done else Swallowed)
      else if !(Columns(table, columns) <= schema) then Executed(schema, Failed)
      else Executed(schema + {Index(table, index)}, Done)
    case DropTable(name, guarded) =>
      if Table(name) in schema then Executed(Without(schema, Table(name)), Done)
      else Executed(schema, if guarded then Done else Failed)
    case DropIndex(table, index, guarded) =>
      if Index(table, index) in schema then Executed(Without(schema, Index(table, index)), Done)
      else Executed(schema, if guarded then Done else Failed)
    case DropColumn(table, column) =>
      if Column(table, column) in schema then Executed(Without(schema, Column(table, column)), Done)
      else Executed(schema, Failed)
    case Rename(from, to) =>
      if Table(from) !in schema || Table(to) in schema then Executed(schema, Failed)
      else Executed(set o | o in schema :: Moved(o, from, to), Done)
  }

  /** Only a statement that is done changes anything. */
  lemma {:induction false} NotDoneKeeps(st: Stmt, schema: Schema)
    requires Execute(st, schema).outcome != Done
    ensures Execute(st, schema).schema == schema
  {
  }

  /** Columns and indexes have their table. */
  ghost predicate Sound(schema: Schema) {
    forall o :: o in schema && !o.Table? ==> Table(o.table) in schema
  }

  lemma {:induction false} ExecuteSound(st: Stmt, schema: Schema)
    requires Sound(schema)
    ensures Sound(Execute(st, schema).schema)
  {
    var next := Execute(st, schema).schema;
    if st.Rename? && Table(st.from) in schema && Table(st.to) !in schema {
      forall o | o in schema && !o.Table?
        ensures Table(Moved(o, st.from, st.to).table) in next
      {
        assert Moved(Table(o.table), st.from, st.to) in next;
      }
    }
  }

  /** The table a statement is about; a rename is about two. */
  predicate Concerns(st: Stmt, table: string) {
    match st
    case CreateTable(name, _, _) => table == name
    case AddColumn(t, _) => table == t
    case CreateIndex(t, _, _, _) => table == t
    case DropTable(name, _) => table == name
    case DropIndex(t, _, _) => table == t
    case DropColumn(t, _) => table == t
    case Rename(from, to) => table == from || table == to
  }

  function TableOf(o: Obj): string {
    if o.Table? then o.name else o.table
  }

  /** What a statement that is done leaves of the tables it is about, and that it leaves all others alone. */
  lemma {:induction false} ExecuteFrame(st: Stmt, schema: Schema, o: Obj)
    requires Sound(schema) && Execute(st, schema).outcome == Done
    ensures !Concerns(st, TableOf(o)) ==> (o in Execute(st, schema).schema <==> o in schema)
    ensures st.DropTable? ==> (o in Execute(st, schema).schema <==> o in schema && TableOf(o) != st.name)
    ensures st.CreateTable? && Table(st.name) !in schema ==>
              (o in Execute(st, schema).schema <==>
                 o in schema || o == Table(st.name) || (o.Column? && o.table == st.name && o.name in st.columns))
    ensures st.AddColumn? ==> (o in Execute(st, schema).schema <==> o in schema || o == Column(st.table, st.column))
    ensures st.CreateIndex? ==> (o in Execute(st, schema).schema <==> o in schema || o == Index(st.table, st.index))
    ensures st.DropIndex? ==> (o in Execute(st, schema).schema <==> o in schema && o != Index(st.table, st.index))
    ensures st.DropColumn? ==> (o in Execute(st, schema).schema <==> o in schema && o != Column(st.table, st.column))
  {
    if st.Rename? && !Concerns(st, TableOf(o)) {
      assert Moved(o, st.from, st.to) == o;
    }
  }

  /** A rename takes the table along with everything that belongs to it, and nothing else. */
  lemma {:induction false} RenameMoves(from: string, to: string, schema: Schema)
    requires Sound(schema) && Execute(Rename(from, to), schema).outcome == Done
    ensures var next := Execute(Rename(from, to), schema).schema;
            && (Table(to) in next && forall o :: o in next ==> TableOf(o) != from)
            && (forall c :: Column(to, c) in next <==> Column(from, c) in schema)
            && (forall i :: Index(to, i) in next <==> Index(from, i) in schema)
    ensures from != to
  {
    var next := Execute(Rename(from, to), schema).schema;
    assert Moved(Table(from), from, to) == Table(to);
    forall c
      ensures Column(to, c) in next <==> Column(from, c) in schema
    {
      assert Moved(Column(from, c), from, to) == Column(to, c);
    }
    forall i
      ensures Index(to, i) in next <==> Index(from, i) in schema
    {
      assert Moved(Index(from, i), from, to) == Index(to, i);
    }
  }

  // ----- Kinds of statements -----

  predicate Adds(st: Stmt) {
    st.CreateTable? || st.AddColumn? || st.CreateIndex?
  }

  /** What an adding statement is about. */
  function Key(st: Stmt): Obj
    requires Adds(st)
  {
    match st
    case CreateTable(name, _, _) => Table(name)
    case AddColumn(table, column) => Column(table, column)
    case CreateIndex(table, index, _, _) => Index(table, index)
  }

  /** A drop with IF EXISTS. */
  predicate Clears(st: Stmt) {
    (st.DropTable? || st.DropIndex?) && st.guarded
  }

  /** A drop without IF EXISTS, or a rename: an error if what it takes away is not there. */
  predicate Bare(st: Stmt) {
    !Adds(st) && !Clears(st)
  }

  /** What a drop or a rename takes away. */
  function Gone(st: Stmt): Obj
    requires !Adds(st)
  {
    match st
    case DropTable(name, _) => Table(name)
    case DropIndex(table, index, _) => Index(table, index)
    case DropColumn(table, column) => Column(table, column)
    case Rename(from, _) => Table(from)
  }

  /** The statement finds everything as it would leave it. */
  ghost predicate Replays(st: Stmt, schema: Schema) {
    Execute(st, schema).schema == schema && Execute(st, schema).outcome != Failed
  }

  /** That is so when what it adds is there, or what it clears is not; a bare drop or rename always changes or fails. */
  lemma {:induction false} ReplaysIff(st: Stmt, schema: Schema)
    ensures Adds(st) ==>
              (Replays(st, schema) <==> Key(st) in schema && (!st.CreateTable? ==> Table(st.table) in schema))
    ensures Clears(st) ==> (Replays(st, schema) <==> Gone(st) !in schema)
    ensures Bare(st) ==> !Replays(st, schema)
  {
    if st.Rename? && Table(st.from) in schema && Table(st.to) !in schema {
      assert Table(st.to) == Moved(Table(st.from), st.from, st.to);
      assert Table(st.to) in Execute(st, schema).schema;
    } else if !Adds(st) && !st.Rename? && Gone(st) in schema {
      assert Gone(st) !in Execute(st, schema).schema;
    }
  }

  // ----- The rows bootstrap_default_project keeps -----

  /** The Default project's creation time, and the project_id columns the boot backfills. */
  datatype BootRows = BootRows(defaultCreated: Option<int>, layout: seq<Option<string>>, browser: seq<Option<string>>)

  const DEFAULT_PROJECT := "default"

  /** The schema objects bootstrap statement `k` names. */
  function BootNeeds(k: nat): set<Obj>
    requires k < 3
  {
    if k == 0 then
      {Table("projects")} + Columns("projects", {"id", "display_name", "root_path", "icon", "color", "description",
                                                 "position", "is_default", "created_at"})
    else if k == 1 then {Table("layout_state"), Column("layout_state", "project_id")}
    else {Table("browser_sessions"), Column("browser_sessions", "project_id")}
  }

  ghost predicate Bootable(schema: Schema) {
    BootNeeds(0) <= schema && BootNeeds(1) <= schema && BootNeeds(2) <= schema
  }

  function Backfill(ids: seq<Option<string>>): (r: seq<Option<string>>)
    ensures |r| == |ids|
    ensures forall i :: 0 <= i < |ids| ==> r[i] == if ids[i].None? then Some(DEFAULT_PROJECT) else ids[i]
  {
    seq(|ids|, i requires 0 <= i < |ids| => if ids[i].None? then Some(DEFAULT_PROJECT) else ids[i])
  }

  /** Statement `k` of the bootstrap: INSERT OR IGNORE, then one UPDATE per table. */
  function BootStep(rows: BootRows, k: nat, now: int): BootRows
    requires k < 3
  {
    if k == 0 then (if rows.defaultCreated.None? then rows.(defaultCreated := Some(now)) else rows)
    else if k == 1 then rows.(layout := Backfill(rows.layout))
    else rows.(browser := Backfill(rows.browser))
  }

  /** What bootstrap statements before `k` have established. */
  ghost predicate BootedTo(rows: BootRows, k: nat) {
    && (k > 0 ==> rows.defaultCreated.Some?)
    && (k > 1 ==> forall i :: 0 <= i < |rows.layout| ==> rows.layout[i].Some?)
    && (k > 2 ==> forall i :: 0 <= i < |rows.browser| ==> rows.browser[i].Some?)
  }

  /** Replaying a bootstrap statement at any later time changes no row. */
  lemma {:induction false} BootStepFixed(rows: BootRows, done: nat, k: nat, now: int)
    requires k < done <= 3 && BootedTo(rows, done)
    ensures BootStep(rows, k, now) == rows
  {
    assert k == 1 ==> Backfill(rows.layout) == rows.layout;
    assert k == 2 ==> Backfill(rows.browser) == rows.browser;
  }

  /** The bootstrap never takes back what it established, whoever runs it. */
  lemma {:induction false} BootStepKeeps(rows: BootRows, done: nat, k: nat, now: int)
    requires done <= 3 && k < 3 && BootedTo(rows, done)
    ensures BootedTo(BootStep(rows, k, now), done)
    ensures done == k ==> BootedTo(BootStep(rows, k, now), done + 1)
  {
  }

  // ----- One uninterrupted run -----

  function Ids(ms: seq<Migration>): set<int> {
    set m | m in ms :: m.id
  }

  ghost predicate DistinctIds(ms: seq<Migration>) {
    forall i, j :: 0 <= i < j < |ms| ==> ms[i].id != ms[j].id
  }

  /** The statements a run executes for `m` when `applied` was already recorded. */
  function Pending(m: Migration, applied: set<int>): seq<Stmt> {
    if m.id in applied then [] else m.stmts
  }

  /** The statements an uninterrupted run executes for the first `i` migrations, in order. */
  function FlatTo(ms: seq<Migration>, applied: set<int>, i: nat): seq<Stmt>
    requires i <= |ms|
  {
    if i == 0 then [] else FlatTo(ms, applied, i - 1) + Pending(ms[i - 1], applied)
  }

  function Flat(ms: seq<Migration>, applied: set<int>): seq<Stmt> {
    FlatTo(ms, applied, |ms|)
  }

  /** The schema after the first `k` statements of `flat`. */
  function Chain(flat: seq<Stmt>, schema: Schema, k: nat): Schema
    requires k <= |flat|
  {
    if k == 0 then schema else Execute(flat[k - 1], Chain(flat, schema, k - 1)).schema
  }

  ghost predicate StatementRuns(flat: seq<Stmt>, schema: Schema, k: nat)
    requires k < |flat|
  {
    Execute(flat[k], Chain(flat, schema, k)).outcome != Failed
  }

  /** No statement of the uninterrupted run fails with an error the loop does not swallow. */
  ghost predicate Runs(flat: seq<Stmt>, schema: Schema) {
    forall k {:trigger StatementRuns(flat, schema, k)} :: 0 <= k < |flat| ==> StatementRuns(flat, schema, k)
  }

  ghost predicate AddOnly(flat: seq<Stmt>) {
    forall k :: 0 <= k < |flat| ==> Adds(flat[k])
  }

  /** Running any statement again over what the whole run leaves changes nothing and fails nowhere. */
  ghost predicate Steady(flat: seq<Stmt>, schema: Schema) {
    forall k {:trigger SteadyAt(flat, schema, k)} :: 0 <= k < |flat| ==> SteadyAt(flat, schema, k)
  }

  ghost predicate SteadyAt(flat: seq<Stmt>, schema: Schema, k: nat)
    requires k < |flat|
  {
    Replays(flat[k], Chain(flat, schema, |flat|))
  }

  /** Where the statements of migration `i` start in `Flat`. */
  function Off(ms: seq<Migration>, applied: set<int>, i: nat): nat
    requires i <= |ms|
  {
    |FlatTo(ms, applied, i)|
  }

  lemma {:induction false} OffStart(ms: seq<Migration>, applied: set<int>)
    ensures Off(ms, applied, 0) == 0
  {
  }

  lemma {:induction false} OffNext(ms: seq<Migration>, applied: set<int>, i: nat)
    requires i < |ms|
    ensures Off(ms, applied, i + 1) == Off(ms, applied, i) + |Pending(ms[i], applied)|
  {
  }

  lemma {:induction false} OffMonotone(ms: seq<Migration>, applied: set<int>, i: nat, j: nat)
    requires i <= j <= |ms|
    ensures Off(ms, applied, i) <= Off(ms, applied, j)
    ensures FlatTo(ms, applied, i) <= FlatTo(ms, applied, j)
    decreases j - i
  {
    if i < j {
      OffMonotone(ms, applied, i, j - 1);
    }
  }

  /** Statement `s` of migration `i` sits at `Off(i) + s`. */
  lemma {:induction false} FlatAt(ms: seq<Migration>, applied: set<int>, i: nat, s: nat)
    requires i < |ms| && s < |Pending(ms[i], applied)|
    ensures Off(ms, applied, i) + s < Off(ms, applied, i + 1) <= |Flat(ms, applied)|
    ensures Flat(ms, applied)[Off(ms, applied, i) + s] == Pending(ms[i], applied)[s]
  {
    var upTo := FlatTo(ms, applied, i + 1);
    assert upTo[Off(ms, applied, i) + s] == Pending(ms[i], applied)[s];
    OffMonotone(ms, applied, i + 1, |ms|);
  }

  lemma {:induction false} ChainNext(flat: seq<Stmt>, schema: Schema, at: nat)
    requires at < |flat|
    ensures Chain(flat, schema, at + 1) == Execute(flat[at], Chain(flat, schema, at)).schema
  {
  }

  lemma {:induction false} ChainSound(flat: seq<Stmt>, schema: Schema, k: nat)
    requires k <= |flat| && Sound(schema)
    ensures Sound(Chain(flat, schema, k))
  {
    if k > 0 {
      ChainSound(flat, schema, k - 1);
      ExecuteSound(flat[k - 1], Chain(flat, schema, k - 1));
    }
  }

  /** One statement that replays on `end` neither takes from it nor brings in a table or index that is not in it. */
  lemma {:induction false} SteadyStep(st: Stmt, end: Schema, now: Schema, o: Obj)
    requires Replays(st, end) && Sound(end)
    ensures o in end && o in now ==> o in Execute(st, now).schema
    ensures o !in end && o !in now && !o.Column? ==> o !in Execute(st, now).schema
  {
    ReplaysIff(st, end);
  }

  lemma {:induction false} SteadyKeeps(flat: seq<Stmt>, schema: Schema, j: nat, k: nat, o: Obj)
    requires j <= k <= |flat| && Sound(schema) && Steady(flat, schema)
    ensures o in Chain(flat, schema, |flat|) && o in Chain(flat, schema, j) ==> o in Chain(flat, schema, k)
    ensures o !in Chain(flat, schema, |flat|) && o !in Chain(flat, schema, j) && !o.Column? ==> o !in Chain(flat, schema, k)
    decreases k - j
  {
    hide Execute, Replays;
    if j < k {
      SteadyKeeps(flat, schema, j, k - 1, o);
      ChainNext(flat, schema, k - 1);
      ChainSound(flat, schema, |flat|);
      assert SteadyAt(flat, schema, k - 1);
      SteadyStep(flat[k - 1], Chain(flat, schema, |flat|), Chain(flat, schema, k - 1), o);
    }
  }

  /** What a statement that ran has seen to. */
  lemma {:induction false} TookEffect(st: Stmt, schema: Schema)
    requires Execute(st, schema).outcome != Failed
    ensures Adds(st) ==> Key(st) in Execute(st, schema).schema && (!st.CreateTable? ==> Table(st.table) in schema)
    ensures Clears(st) ==> Gone(st) !in Execute(st, schema).schema
  {
  }

  /** Replay of a statement that an uninterrupted run has passed: no change, no real error. */
  lemma {:induction false} Replay(flat: seq<Stmt>, schema: Schema, i: nat, k: nat)
    requires i < k <= |flat| && Sound(schema) && Steady(flat, schema) && Runs(flat, schema)
    ensures Execute(flat[i], Chain(flat, schema, k)).schema == Chain(flat, schema, k)
    ensures Execute(flat[i], Chain(flat, schema, k)).outcome != Failed
  {
    hide Execute, Chain;
    var st, end := flat[i], Chain(flat, schema, |flat|);
    assert StatementRuns(flat, schema, i) && SteadyAt(flat, schema, i);
    ChainNext(flat, schema, i);
    TookEffect(st, Chain(flat, schema, i));
    ReplaysIff(st, end);
    ReplaysIff(st, Chain(flat, schema, k));
    if Adds(st) {
      SteadyKeeps(flat, schema, i + 1, k, Key(st));
      if !st.CreateTable? {
        SteadyKeeps(flat, schema, i, k, Table(st.table));
      }
    } else {
      SteadyKeeps(flat, schema, i + 1, k, Gone(st));
    }
  }

  lemma {:induction false} ChainGrows(flat: seq<Stmt>, schema: Schema, j: nat, k: nat)
    requires j <= k <= |flat| && AddOnly(flat)
    ensures Chain(flat, schema, j) <= Chain(flat, schema, k)
    decreases k - j
  {
    if j < k {
      ChainGrows(flat, schema, j, k - 1);
    }
  }

  /** A list that only adds is steady wherever it runs. */
  lemma {:induction false} AddOnlySteady(flat: seq<Stmt>, schema: Schema)
    requires AddOnly(flat) && Runs(flat, schema)
    ensures Steady(flat, schema)
  {
    hide Chain, Execute;
    forall k: nat | k < |flat|
      ensures SteadyAt(flat, schema, k)
    {
      assert StatementRuns(flat, schema, k);
      ChainNext(flat, schema, k);
      TookEffect(flat[k], Chain(flat, schema, k));
      ChainGrows(flat, schema, k, |flat|);
      ChainGrows(flat, schema, k + 1, |flat|);
      ReplaysIff(flat[k], Chain(flat, schema, |flat|));
    }
  }
}
