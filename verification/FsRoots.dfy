/**
  The file-system allowlist of src-tauri/src/fs_roots.rs: one-time seeding, write-then-publish edits and
  the file they keep across restarts.  Whether a write reaches the disk, and what an input expands to
  at a given moment, are parameters.
*/
module FsRoots {
  import opened Wrappers
  import opened Text

  /** The components of an absolute path; `starts_with` is the prefix order on them. */
  type Path = seq<string>

  datatype Persisted = Persisted(roots: seq<string>, initialized: bool)

  datatype FileState = Missing | Unreadable | Saved(content: Persisted)

  datatype Entry = Entry(input: string, resolved: Path)

  datatype State = State(entries: seq<Entry>, initialized: bool)

  /** What `resolve_input` answers: shell expansion and canonicalization, which may fail. */
  type Resolver = string -> Option<Path>

  type Edit = seq<Entry> -> seq<Entry>

  const DEFAULT_ROOTS: seq<string> := []

  function EntriesOf(inputs: seq<string>, resolve: Resolver): seq<Entry> {
    if inputs == [] then []
    else
      var rest := EntriesOf(inputs[..|inputs| - 1], resolve);
      var last := inputs[|inputs| - 1];
      match resolve(last) case Some(p) => rest + [Entry(last, p)] case None => rest
  }

  function Inputs(entries: seq<Entry>): (r: seq<string>)
    ensures |r| == |entries| && forall i :: 0 <= i < |entries| ==> r[i] == entries[i].input
  {
    seq(|entries|, i requires 0 <= i < |entries| => entries[i].input)
  }

  function Persist(state: State): Persisted {
    Persisted(Inputs(state.entries), state.initialized)
  }

  // ----- Loading -----

  function Defaults(seed: seq<string>): seq<string> {
    if seed == [] then DEFAULT_ROOTS else seed
  }

  /** The list and flag the file stands for; a missing file is the defaults, never set up. */
  function Read(file: FileState): Persisted
    requires !file.Unreadable?
  {
    match file case Missing => Persisted(DEFAULT_ROOTS, false) case Saved(p) => p
  }

  /** Whether loading this file with this seed seeds the list. */
  predicate Seeds(file: FileState, seed: seq<string>)
    requires !file.Unreadable?
  {
    !Read(file).initialized && Read(file).roots == [] && Defaults(seed) != []
  }

  function Loaded(file: FileState, seed: seq<string>, resolve: Resolver): State
    requires !file.Unreadable?
  {
    if Seeds(file, seed) then State(EntriesOf(Defaults(seed), resolve), true)
    else State(EntriesOf(Read(file).roots, resolve), Read(file).initialized)
  }

  // ----- Edits -----

  predicate Has(entries: seq<Entry>, input: string, resolved: Path) {
    exists e :: e in entries && (e.input == input || e.resolved == resolved)
  }

  function Added(entries: seq<Entry>, input: string, resolved: Path): seq<Entry> {
    if Has(entries, input, resolved) then entries else entries + [Entry(input, resolved)]
  }

  function Removed(entries: seq<Entry>, input: string): seq<Entry> {
    if entries == [] then []
    else
      var rest := Removed(entries[..|entries| - 1], input);
      if entries[|entries| - 1].input == input then rest else rest + [entries[|entries| - 1]]
  }

  // ----- One operation of a run -----

  /** How far a write got: an exit after the rename leaves the new file behind. */
  datatype Write = Written | WriteFailed | DiedBefore | DiedAfter

  /** A write of a process that lives on. */
  function WriteOf(written: bool): Write {
    if written then Written else WriteFailed
  }

  datatype Op =
    | Load(seed: seq<string>, resolve: Resolver, w: Write)
    | Add(input: string, resolve: Resolver, w: Write)
    | Remove(input: string, w: Write)
    | Reset(resolve: Resolver, w: Write)
    | Exit

  datatype Live = Live(defaults: seq<string>, state: State)

  /** The file and the process, if one is running. */
  datatype Sys = Sys(file: FileState, live: Option<Live>)

  function AfterEdit(sys: Sys, edit: Edit, w: Write): Sys
    requires sys.live.Some?
  {
    var next := State(edit(sys.live.value.state.entries), true);
    match w
    case Written => Sys(Saved(Persist(next)), Some(sys.live.value.(state := next)))
    case WriteFailed => sys
    case DiedBefore => Sys(sys.file, None)
    case DiedAfter => Sys(Saved(Persist(next)), None)
  }

  function After(sys: Sys, op: Op): Sys {
    match op
    case Load(seed, resolve, w) =>
      if sys.file.Unreadable? then Sys(sys.file, None)
      else
        var state := Loaded(sys.file, seed, resolve);
        var live := Some(Live(Defaults(seed), state));
        (match w
         case Written => Sys(Saved(Persist(state)), live)
         case WriteFailed => Sys(sys.file, live)
         case DiedBefore => Sys(sys.file, None)
         case DiedAfter => Sys(Saved(Persist(state)), None))
    case Add(input, resolve, w) =>
      if sys.live.None? || Trim(input) == "" || resolve(Trim(input)).None? then sys
      else AfterEdit(sys, entries => Added(entries, Trim(input), resolve(Trim(input)).value), w)
    case Remove(input, w) => if sys.live.None? then sys else AfterEdit(sys, entries => Removed(entries, input), w)
    case Reset(resolve, w) =>
      if sys.live.None? then sys else AfterEdit(sys, _ => EntriesOf(sys.live.value.defaults, resolve), w)
    case Exit => Sys(sys.file, None)
  }

  function Run(sys: Sys, ops: seq<Op>): Sys {
    if ops == [] then sys else After(Run(sys, ops[..|ops| - 1]), ops[|ops| - 1])
  }

  /** The file holds the live list. */
  ghost predicate InSync(sys: Sys) {
    sys.live.Some? ==> sys.file == Saved(Persist(sys.live.value.state))
  }

  // ----- The handle and its file -----

  class Disk {
    var file: FileState

    constructor (file: FileState)
      ensures this.file == file
    {
      this.file := file;
    }

    /** Temporary file, then an atomic rename; any failure leaves the file as it was. */
    method Replace(content: Persisted, written: bool) returns (ok: bool)
      modifies this
      ensures ok == written && file == if written then Saved(content) else old(file)
    {
      ok := written;
      if written {
        file := Saved(content);
      }
    }
  }

  class Roots {
    const disk: Disk
    const defaults: seq<string>
    var state: State

    constructor (disk: Disk, defaults: seq<string>, state: State)
      ensures this.disk == disk && this.defaults == defaults && this.state == state
    {
      this.disk, this.defaults, this.state := disk, defaults, state;
    }

    /** The file and the live list, as a run sees them. */
    ghost function View(): Sys
      reads this, disk
    {
      Sys(disk.file, Some(Live(defaults, state)))
    }

    /** Fails only on a file that cannot be read or parsed; a failed write is not an error here. */
    static method LoadSeeded(disk: Disk, seed: seq<string>, resolve: Resolver, written: bool) returns (r: Option<Roots>)
      modifies disk
      ensures r.None? <==> old(disk.file).Unreadable?
      ensures r.None? ==> disk.file == old(disk.file)
      ensures r.Some? ==> fresh(r.value) && r.value.disk == disk
                          && r.value.View() == After(Sys(old(disk.file), None), Op.Load(seed, resolve, WriteOf(written)))
    {
      if disk.file.Unreadable? {
        return None;
      }
      var inputs, initialized := DEFAULT_ROOTS, false;
      if disk.file.Saved? {
        inputs, initialized := disk.file.content.roots, disk.file.content.initialized;
      }
      var defaults := if seed == [] then DEFAULT_ROOTS else seed;
      if !initialized && inputs == [] && defaults != [] {
        inputs, initialized := defaults, true;
      }
      var roots := new Roots(disk, defaults, State(EntriesOf(inputs, resolve), initialized));
      var _ := disk.Replace(Persist(roots.state), written);
      r := Some(roots);
    }

    /** Edit a copy, write it, and only then make it live. */
    method Mutate(edit: Edit, written: bool) returns (r: Result<seq<string>>)
      modifies this, disk
      ensures r.Ok? <==> written
      ensures r.Ok? ==> state == State(edit(old(state.entries)), true)
                        && disk.file == Saved(Persist(state)) && r.value == Inputs(state.entries)
      ensures r.Err? ==> state == old(state) && disk.file == old(disk.file)
    {
      var next := State(edit(state.entries), true);
      var ok := disk.Replace(Persist(next), written);
      if !ok {
        return Err("write");
      }
      state := next;
      r := Ok(Inputs(state.entries));
    }

    method Add(input: string, resolve: Resolver, written: bool) returns (r: Result<seq<string>>)
      modifies this, disk
      ensures r.Ok? <==> Trim(input) != "" && resolve(Trim(input)).Some? && written
      ensures View() == After(old(View()), Op.Add(input, resolve, WriteOf(written)))
      ensures r.Ok? ==> r.value == Inputs(state.entries) && InSync(View())
      ensures r.Err? ==> View() == old(View())
    {
      var trimmed := Trim(input);
      if trimmed == "" {
        return Err("path is empty");
      }
      var resolved := resolve(trimmed);
      if resolved.None? {
        return Err("expand");
      }
      r := Mutate(entries => Added(entries, trimmed, resolved.value), written);
    }

    method Remove(input: string, written: bool) returns (r: Result<seq<string>>)
      modifies this, disk
      ensures r.Ok? <==> written
      ensures View() == After(old(View()), Op.Remove(input, WriteOf(written)))
      ensures r.Ok? ==> r.value == Inputs(state.entries) && InSync(View())
      ensures r.Err? ==> View() == old(View())
    {
      r := Mutate(entries => Removed(entries, input), written);
    }

    method Reset(resolve: Resolver, written: bool) returns (r: Result<seq<string>>)
      modifies this, disk
      ensures r.Ok? <==> written
      ensures View() == After(old(View()), Op.Reset(resolve, WriteOf(written)))
      ensures r.Ok? ==> r.value == Inputs(state.entries) && InSync(View())
      ensures r.Err? ==> View() == old(View())
    {
      var entries := EntriesOf(defaults, resolve);
      r := Mutate(_ => entries, written);
    }

    /** Whether `path` lies in some active root. */
    method IsAllowed(path: Path) returns (ok: bool)
      ensures ok == Allows(state.entries, path)
    {
      for i := 0 to |state.entries|
        invariant forall k :: 0 <= k < i ==> !(state.entries[k].resolved <= path)
      {
        if state.entries[i].resolved <= path {
          return true;
        }
      }
      return false;
    }

    /** The first active root that `path` is or holds. */
    method RootWithin(path: Path) returns (r: Option<Path>)
      ensures r.None? <==> forall e :: e in state.entries ==> !(path <= e.resolved)
      ensures r.Some? ==> exists i :: 0 <= i < |state.entries| && FirstWithin(state.entries, path, i)
                                      && r.value == state.entries[i].resolved
    {
      for i := 0 to |state.entries|
        invariant forall k :: 0 <= k < i ==> !(path <= state.entries[k].resolved)
      {
        if path <= state.entries[i].resolved {
          assert FirstWithin(state.entries, path, i);
          return Some(state.entries[i].resolved);
        }
      }
      return None;
    }
  }

  /** The first entry whose root is at or below `path`. */
  ghost predicate FirstWithin(entries: seq<Entry>, path: Path, i: nat)
    requires i < |entries|
  {
    path <= entries[i].resolved && forall k :: 0 <= k < i ==> !(path <= entries[k].resolved)
  }

  predicate Allows(entries: seq<Entry>, path: Path) {
    exists e :: e in entries && e.resolved <= path
  }

  // ----- What an edit means -----

  /** Removing keeps exactly the other inputs, in order and as often as they stood. */
  lemma {:induction false} RemovedIs(entries: seq<Entry>, input: string)
    ensures forall e :: multiset(Removed(entries, input))[e] == if e.input == input then 0 else multiset(entries)[e]
    ensures input !in Inputs(entries) ==> Removed(entries, input) == entries
  {
    hide Removed;
    forall e
      ensures multiset(Removed(entries, input))[e] == if e.input == input then 0 else multiset(entries)[e]
    {
      RemovedCount(entries, input, e);
    }
    if input !in Inputs(entries) {
      assert forall i :: 0 <= i < |entries| ==> Inputs(entries)[i] == entries[i].input;
      RemovedNone(entries, input);
    }
  }

  lemma {:induction false} RemovedCount(entries: seq<Entry>, input: string, e: Entry)
    ensures multiset(Removed(entries, input))[e] == if e.input == input then 0 else multiset(entries)[e]
  {
    if entries != [] {
      var init, last := entries[..|entries| - 1], entries[|entries| - 1];
      RemovedCount(init, input, e);
      assert entries == init + [last];
    }
  }

  lemma {:induction false} RemovedNone(entries: seq<Entry>, input: string)
    requires forall i :: 0 <= i < |entries| ==> entries[i].input != input
    ensures Removed(entries, input) == entries
  {
    if entries != [] {
      RemovedNone(entries[..|entries| - 1], input);
      assert entries == entries[..|entries| - 1] + [entries[|entries| - 1]];
    }
  }

  /**
    Adding twice is adding once, and adding never makes two entries with one input or with one root; an input
    and a root that are both new are added at the end.
  */
  lemma {:induction false} AddedIs(entries: seq<Entry>, input: string, resolved: Path)
    ensures Added(Added(entries, input, resolved), input, resolved) == Added(entries, input, resolved)
    ensures (forall i, j :: 0 <= i < j < |entries| ==> entries[i].input != entries[j].input) ==>
              var next := Added(entries, input, resolved);
              forall i, j :: 0 <= i < j < |next| ==> next[i].input != next[j].input
    ensures (forall i, j :: 0 <= i < j < |entries| ==> entries[i].resolved != entries[j].resolved) ==>
              var next := Added(entries, input, resolved);
              forall i, j :: 0 <= i < j < |next| ==> next[i].resolved != next[j].resolved
    ensures Added(entries, input, resolved) == entries + [Entry(input, resolved)]
       <==> forall e :: e in entries ==> e.input != input && e.resolved != resolved
  {
    if !Has(entries, input, resolved) {
      assert Entry(input, resolved) in entries + [Entry(input, resolved)];
      assert forall i :: 0 <= i < |entries| ==> entries[i] in entries;
    }
  }

  /**
    A successful add allows the resolved root and nothing else new, unless the same input is already
    listed with another expansion: then it allows nothing new at all.
  */
  lemma {:induction false} AddAllows(entries: seq<Entry>, input: string, resolved: Path)
    ensures var next := Added(entries, input, resolved);
            (forall path :: Allows(next, path) <==> Allows(entries, path) || resolved <= path)
            <==> (Allows(entries, resolved) || !exists e :: e in entries && e.input == input)
  {
    var next := Added(entries, input, resolved);
    if Has(entries, input, resolved) {
      if Allows(entries, resolved) {
        var e :| e in entries && e.resolved <= resolved;
        forall path | resolved <= path
          ensures Allows(entries, path)
        {
          assert e.resolved <= path;
        }
      }
      assert resolved <= resolved;
    } else {
      assert forall e :: e in next <==> e in entries || e == Entry(input, resolved);
    }
  }

  // ----- Runs -----

  predicate IsEdit(op: Op) { op.Add? || op.Remove? || op.Reset? }

  predicate Initialized(file: FileState) { file.Saved? && file.content.initialized }

  /** An edit either changes nothing or leaves file and live list equal and marked as set up. */
  lemma {:induction false} EditIsAllOrNothing(sys: Sys, op: Op)
    requires IsEdit(op) && After(sys, op).live.Some?
    ensures After(sys, op) == sys || (InSync(After(sys, op)) && Initialized(After(sys, op).file))
  {
  }

  /** Nothing a run does takes the flag back, or makes a saved file unreadable. */
  lemma {:induction false} FlagNeverReverts(sys: Sys, ops: seq<Op>)
    requires Initialized(sys.file)
    ensures Initialized(Run(sys, ops).file)
  {
    if ops != [] {
      FlagNeverReverts(sys, ops[..|ops| - 1]);
    }
  }

  lemma {:induction false} RunAppend(sys: Sys, a: seq<Op>, b: seq<Op>)
    ensures Run(sys, a + b) == Run(Run(sys, a), b)
  {
    hide After;
    if b == [] {
      assert a + b == a;
    } else {
      RunAppend(sys, a, b[..|b| - 1]);
      assert (a + b)[..|a + b| - 1] == a + b[..|b| - 1];
    }
  }

  /** An edit that is well-formed and whose rename happened. */
  predicate Reaches(sys: Sys, op: Op) {
    && sys.live.Some?
    && match op
       case Add(input, resolve, w) => Trim(input) != "" && resolve(Trim(input)).Some? && (w.Written? || w.DiedAfter?)
       case Remove(_, w) => w.Written? || w.DiedAfter?
       case Reset(_, w) => w.Written? || w.DiedAfter?
       case _ => false
  }

  /** Once an edit has reached the file, no later load seeds the list, whatever happens in between. */
  lemma {:induction false} NeverSeededAfterEdit(sys: Sys, before: seq<Op>, edit: Op, after: seq<Op>, seed: seq<string>)
    requires Reaches(Run(sys, before), edit)
    ensures var file := Run(sys, before + [edit] + after).file; !file.Unreadable? && !Seeds(file, seed)
  {
    var mid := before + [edit];
    assert mid[..|mid| - 1] == before;
    assert Initialized(Run(sys, mid).file);
    RunAppend(sys, mid, after);
    FlagNeverReverts(Run(sys, mid), after);
  }

  /** While writes are not interrupted, file and live list stay equal through failed and successful edits. */
  lemma {:induction false} StaysInSync(sys: Sys, ops: seq<Op>)
    requires InSync(sys) && forall op :: op in ops ==> op.Load? ==> op.w != WriteFailed
    ensures InSync(Run(sys, ops))
  {
    if ops != [] {
      StaysInSync(sys, ops[..|ops| - 1]);
      assert ops[|ops| - 1] in ops;
    }
  }

  // ----- What a load and a reset make live -----

  /**
    The live entries are the inputs that expand, in order and each with its own expansion; `at` says where
    they stand in the list.
  */
  ghost predicate Expanded(entries: seq<Entry>, inputs: seq<string>, resolve: Resolver, at: seq<nat>) {
    && |at| == |entries|
    && (forall k :: 0 <= k < |at| ==> at[k] < |inputs| && ExpandsTo(entries[k], inputs[at[k]], resolve))
    && (forall j, k :: 0 <= j < k < |at| ==> at[j] < at[k])
    && (forall i :: 0 <= i < |inputs| ==> resolve(inputs[i]).Some? ==> i in at)
  }

  ghost predicate ExpandsTo(e: Entry, input: string, resolve: Resolver) {
    e.input == input && resolve(input) == Some(e.resolved)
  }

  lemma {:induction false} EntriesExpanded(inputs: seq<string>, resolve: Resolver) returns (at: seq<nat>)
    ensures Expanded(EntriesOf(inputs, resolve), inputs, resolve, at)
  {
    at := [];
    if inputs != [] {
      var init, last := inputs[..|inputs| - 1], inputs[|inputs| - 1];
      var before := EntriesExpanded(init, resolve);
      ExpandedPush(EntriesOf(init, resolve), init, resolve, before, last);
      assert inputs == init + [last];
      at := if resolve(last).Some? then before + [|init|] else before;
    }
  }

  lemma {:induction false} ExpandedPush(entries: seq<Entry>, inputs: seq<string>, resolve: Resolver, at: seq<nat>, last: string)
    requires Expanded(entries, inputs, resolve, at)
    ensures match resolve(last)
            case None => Expanded(entries, inputs + [last], resolve, at)
            case Some(p) => Expanded(entries + [Entry(last, p)], inputs + [last], resolve, at + [|inputs|])
  {
    var more := inputs + [last];
    forall i | 0 <= i < |inputs| && resolve(more[i]).Some?
      ensures i in at && i in at + [|inputs|]
    {
      assert more[i] == inputs[i];
    }
    assert |inputs| in at + [|inputs|];
  }

  /** There is one such list of entries. */
  lemma {:induction false} ExpandedUnique(a: seq<Entry>, b: seq<Entry>, inputs: seq<string>, resolve: Resolver,
                                          x: seq<nat>, y: seq<nat>)
    requires Expanded(a, inputs, resolve, x) && Expanded(b, inputs, resolve, y)
    ensures a == b
  {
    SamePlaces(a, b, inputs, resolve, x, y);
    SamePlaces(b, a, inputs, resolve, y, x);
    AscendingSame(x, y);
  }

  lemma {:induction false} SamePlaces(a: seq<Entry>, b: seq<Entry>, inputs: seq<string>, resolve: Resolver,
                                      x: seq<nat>, y: seq<nat>)
    requires Expanded(a, inputs, resolve, x) && Expanded(b, inputs, resolve, y)
    ensures forall i :: i in x ==> i in y
  {
    forall i | i in x
      ensures i in y
    {
      var k :| 0 <= k < |x| && x[k] == i;
      assert ExpandsTo(a[k], inputs[x[k]], resolve);
    }
  }

  lemma {:induction false} AscendingSame(x: seq<nat>, y: seq<nat>)
    requires forall j, k :: 0 <= j < k < |x| ==> x[j] < x[k]
    requires forall j, k :: 0 <= j < k < |y| ==> y[j] < y[k]
    requires forall i :: i in x <==> i in y
    ensures x == y
  {
    SomePlace(x);
    SomePlace(y);
    if x != [] && y != [] {
      var m, n := |x| - 1, |y| - 1;
      assert x[m] in y;
      assert y[n] in x;
      forall i
        ensures i in x[..m] <==> i in x && i != x[m]
        ensures i in y[..n] <==> i in y && i != y[n]
      {
        assert x == x[..m] + [x[m]] && y == y[..n] + [y[n]];
      }
      AscendingSame(x[..m], y[..n]);
      assert x == x[..m] + [x[m]] && y == y[..n] + [y[n]];
    }
  }

  lemma {:induction false} SomePlace(x: seq<nat>)
    ensures x != [] ==> exists i :: i in x
  {
    if x != [] {
      assert x[0] in x;
    }
  }

  /** The list whose roots a load makes live. */
  function LoadedList(file: FileState, seed: seq<string>): seq<string> {
    if file.Saved? && (file.content.initialized || file.content.roots != []) then file.content.roots else seed
  }

  /**
    After a load the live entries are the expansions of the file's list, or of the seed where the file is
    missing or holds an empty list that was never set up.
  */
  lemma {:induction false} LoadExpands(file: FileState, seed: seq<string>, resolve: Resolver, w: Write) returns (at: seq<nat>)
    requires !file.Unreadable? && (w.Written? || w.WriteFailed?)
    ensures var live := After(Sys(file, None), Load(seed, resolve, w)).live;
            live.Some? && live.value.defaults == seed
            && Expanded(live.value.state.entries, LoadedList(file, seed), resolve, at)
  {
    hide EntriesOf;
    at := EntriesExpanded(LoadedList(file, seed), resolve);
  }

  /** After a reset they are the expansions of the list the process was started with. */
  lemma {:induction false} ResetExpands(sys: Sys, resolve: Resolver) returns (at: seq<nat>)
    requires sys.live.Some?
    ensures var live := After(sys, Reset(resolve, Written)).live;
            live.Some? && live.value.defaults == sys.live.value.defaults
            && Expanded(live.value.state.entries, sys.live.value.defaults, resolve, at)
  {
    hide EntriesOf;
    at := EntriesExpanded(sys.live.value.defaults, resolve);
  }

  lemma {:induction false} ExpandedAllows(entries: seq<Entry>, inputs: seq<string>, resolve: Resolver, at: seq<nat>, path: Path)
    requires Expanded(entries, inputs, resolve, at)
    ensures Allows(entries, path) <==> exists s :: s in inputs && resolve(s).Some? && resolve(s).value <= path
  {
    if e :| e in entries && e.resolved <= path {
      var k :| 0 <= k < |entries| && entries[k] == e;
      assert ExpandsTo(entries[k], inputs[at[k]], resolve);
      assert inputs[at[k]] in inputs;
    }
    if s :| s in inputs && resolve(s).Some? && resolve(s).value <= path {
      var i :| 0 <= i < |inputs| && inputs[i] == s;
      var k :| 0 <= k < |at| && at[k] == i;
      assert ExpandsTo(entries[k], inputs[at[k]], resolve);
      assert entries[k] in entries;
    }
  }

  /** After a load or a reset a path is allowed exactly if some listed input expands to a prefix of it. */
  lemma {:induction false} LoadAllowsIff(file: FileState, seed: seq<string>, resolve: Resolver, w: Write, path: Path)
    requires !file.Unreadable? && (w.Written? || w.WriteFailed?)
    ensures var live := After(Sys(file, None), Load(seed, resolve, w)).live;
            live.Some? && (Allows(live.value.state.entries, path) <==>
                             exists s :: s in LoadedList(file, seed) && resolve(s).Some? && resolve(s).value <= path)
  {
    hide After, Expanded, Allows;
    var at := LoadExpands(file, seed, resolve, w);
    var live := After(Sys(file, None), Load(seed, resolve, w)).live;
    ExpandedAllows(live.value.state.entries, LoadedList(file, seed), resolve, at, path);
  }

  lemma {:induction false} ResetAllowsIff(sys: Sys, resolve: Resolver, path: Path)
    requires sys.live.Some?
    ensures var live := After(sys, Reset(resolve, Written)).live;
            live.Some? && (Allows(live.value.state.entries, path) <==>
                             exists s :: s in sys.live.value.defaults && resolve(s).Some? && resolve(s).value <= path)
  {
    hide After, Expanded, Allows;
    var at := ResetExpands(sys, resolve);
    var live := After(sys, Reset(resolve, Written)).live;
    ExpandedAllows(live.value.state.entries, sys.live.value.defaults, resolve, at, path);
  }

  // ----- What a load loses -----

  lemma {:induction false} EntriesOfNone(inputs: seq<string>, resolve: Resolver)
    ensures EntriesOf(inputs, resolve) == [] <==> forall s :: s in inputs ==> resolve(s).None?
  {
    if inputs != [] {
      var init, last := inputs[..|inputs| - 1], inputs[|inputs| - 1];
      EntriesOfNone(init, resolve);
      assert inputs == init + [last];
    }
  }

  lemma {:induction false} EntriesOfAll(inputs: seq<string>, resolve: Resolver)
    ensures |EntriesOf(inputs, resolve)| <= |inputs|
    ensures Inputs(EntriesOf(inputs, resolve)) == inputs <==> forall s :: s in inputs ==> resolve(s).Some?
  {
    if inputs != [] {
      var init, last := inputs[..|inputs| - 1], inputs[|inputs| - 1];
      EntriesOfAll(init, resolve);
      assert inputs == init + [last];
      var entries := EntriesOf(init, resolve);
      if resolve(last).Some? {
        hide EntriesOf;
        InputsPush(entries, Entry(last, resolve(last).value), init, last);
      } else {
        assert |Inputs(EntriesOf(inputs, resolve))| < |inputs|;
      }
    }
  }

  lemma {:induction false} InputsPush(entries: seq<Entry>, e: Entry, init: seq<string>, last: string)
    requires e.input == last
    ensures Inputs(entries + [e]) == init + [last] <==> Inputs(entries) == init
  {
    var a, b := Inputs(entries + [e]), init + [last];
    assert a == Inputs(entries) + [last];
    assert a[..|a| - 1] == Inputs(entries) && b[..|b| - 1] == init;
  }

  /** A load that is not a seeding rewrites the file unchanged exactly when every root still expands. */
  lemma {:induction false} LoadKeepsFileIff(p: Persisted, seed: seq<string>, resolve: Resolver)
    requires !Seeds(Saved(p), seed)
    ensures After(Sys(Saved(p), None), Load(seed, resolve, Written)).file == Saved(p)
       <==> forall s :: s in p.roots ==> resolve(s).Some?
  {
    EntriesOfAll(p.roots, resolve);
  }

  /**
    "A list someone already filled is left alone" holds for a file written before the flag existed
    unless no root of it expands when it is first loaded: then the next load seeds it.
  */
  lemma {:induction false} LegacyListSeededIff(p: Persisted, first: seq<string>, resolve: Resolver, second: seq<string>)
    requires !p.initialized && p.roots != []
    ensures var file := After(Sys(Saved(p), None), Load(first, resolve, Written)).file;
            !file.Unreadable?
            && (Seeds(file, second) <==> second != [] && forall s :: s in p.roots ==> resolve(s).None?)
  {
    EntriesOfNone(p.roots, resolve);
  }

  lemma {:induction false} LegacyListLost()
    ensures var p := Persisted(["$WORK/repo"], false);
            var file := After(Sys(Saved(p), None), Load(["/srv/home/ada"], _ => None, Written)).file;
            !file.Unreadable? && Seeds(file, ["/srv/home/ada"])
  {
    var p := Persisted(["$WORK/repo"], false);
    LegacyListSeededIff(p, ["/srv/home/ada"], _ => None, ["/srv/home/ada"]);
  }
}
