/**
  The daemon's two layers of secrets, src-tauri/src/secrets_env.rs: a principal's own store over the
  operator's read-only defaults.  What the store's file system and cipher do is a parameter: a store call
  may meet a fault, and then it answers that fault and changes nothing.
*/
module Secrets {
  import opened Wrappers
  import opened Text
  import opened SecretNames
  import Utf8

  type Entries = map<string, string>

  /** The principal layer, if the daemon has one. */
  datatype Layer = Absent | Open(entries: Entries) | Broken(why: string) | Stranded(why: string)

  /** `env` holds every variable of the process. */
  datatype State = State(layer: Layer, env: map<string, string>)

  /** What goes wrong inside the store during a call, if anything does. */
  type Fault = Option<string>

  const ENV_PREFIX := "IKENGA_SECRET_"
  const WRITE_REFUSAL := "not available in the headless daemon"
  const SCOPE_REFUSAL := "the headless daemon's secret store is flat"
  const INVALID_KEY := "invalid key"
  const INVALID_NAME := "invalid scoped secret name"
  const TOO_LARGE := "the value is over the limit"
  const MAX_VALUE_BYTES := 65_536

  // ----- The operator's defaults -----

  predicate ValidKey(key: string) {
    key != "" && forall i :: 0 <= i < |key| ==> IsAsciiAlnum(key[i]) || key[i] == '_'
  }

  function Default(env: map<string, string>, key: string): Option<string> {
    if ValidKey(key) && ENV_PREFIX + key in env then Some(env[ENV_PREFIX + key]) else None
  }

  function EnvGet(env: map<string, string>, key: string): Result<Option<string>> {
    if ValidKey(key) then Ok(Default(env, key)) else Err(INVALID_KEY)
  }

  // ----- The store -----

  function StoreGet(entries: Entries, name: string, fault: Fault): Result<Option<string>> {
    if !LegacyName(name) then Err(INVALID_NAME)
    else if fault.Some? then Err(fault.value)
    else Ok(if name in entries then Some(entries[name]) else None)
  }

  function StoreSet(entries: Entries, name: string, value: string, fault: Fault): Result<Entries> {
    if !LegacyName(name) then Err(INVALID_NAME)
    else if |Utf8.Encode(value)| > MAX_VALUE_BYTES then Err(TOO_LARGE)
    else if fault.Some? then Err(fault.value)
    else Ok(entries[name := value])
  }

  function StoreDelete(entries: Entries, name: string, fault: Fault): Result<Entries> {
    if !LegacyName(name) then Err(INVALID_NAME)
    else if fault.Some? then Err(fault.value)
    else Ok(entries - {name})
  }

  // ----- Reading -----

  function Get(s: State, key: string, fault: Fault): Result<Option<string>> {
    match s.layer
    case Broken(why) => Err(why)
    case Stranded(why) => Err(why)
    case Absent => EnvGet(s.env, key)
    case Open(entries) =>
      var own := if BareName(key) then StoreGet(entries, key, fault) else Ok(None);
      if own.Err? then Err(own.error)
      else if own.value.Some? then own
      else if ValidKey(key) then EnvGet(s.env, key)
      else if BareName(key) then Ok(None)
      else Err(INVALID_KEY)
  }

  function GetScoped(s: State, scope: Scope, key: string, fault: Fault): Result<Option<string>> {
    match s.layer
    case Broken(why) => Err(why)
    case Stranded(why) => Err(why)
    case Absent => if scope == Workspace then EnvGet(s.env, key) else Err(SCOPE_REFUSAL)
    case Open(entries) =>
      match ExistingName(scope, key)
      case None => Err(INVALID_KEY)
      case Some(name) =>
        var own := StoreGet(entries, name, fault);
        if own.Err? then Err(own.error)
        else if own.value.Some? then own
        else if scope == Workspace && ValidKey(key) then EnvGet(s.env, key)
        else Ok(None)
  }

  // ----- Writing -----

  datatype Command =
    | Set(key: string, value: string)
    | Delete(key: string)
    | SetScoped(scope: Scope, key: string, value: string)
    | DeleteScoped(scope: Scope, key: string)

  function WriteTo(entries: Entries, c: Command, fault: Fault): Result<Entries> {
    match c
    case Set(key, value) => if NewKey(key) then StoreSet(entries, key, value, fault) else Err(INVALID_KEY)
    case Delete(key) => if BareName(key) then StoreDelete(entries, key, fault) else Err(INVALID_KEY)
    case SetScoped(scope, key, value) =>
      (match CheckedVaultKey(scope, key)
       case None => Err(INVALID_KEY)
       case Some(name) => StoreSet(entries, name, value, fault))
    case DeleteScoped(scope, key) =>
      (match ExistingName(scope, key)
       case None => Err(INVALID_KEY)
       case Some(name) => StoreDelete(entries, name, fault))
  }

  function Write(s: State, c: Command, fault: Fault): Result<State> {
    match s.layer
    case Broken(why) => Err(why)
    case Stranded(why) => Err(why)
    case Absent => Err(WRITE_REFUSAL)
    case Open(entries) =>
      match WriteTo(entries, c, fault) case Err(why) => Err(why) case Ok(e) => Ok(s.(layer := Open(e)))
  }

  // ----- Listing -----

  /** `list_keys`. */
  ghost predicate Listed(s: State, key: string) {
    Default(s.env, key).Some? || (s.layer.Open? && key in s.layer.entries && ParseScoped(key).None?)
  }

  /** `list_keys_scoped`. */
  ghost predicate ListedIn(s: State, scope: Scope, key: string) {
    || (scope == Workspace && Default(s.env, key).Some?)
    || (s.layer.Open? && exists name :: name in s.layer.entries && ParseScoped(name) == Some((scope, key)))
  }

  predicate Before(a: string, b: string) {
    Utf8.Less(Utf8.Encode(a), Utf8.Encode(b))
  }

  /** Strictly ascending by the bytes, which is how Rust orders strings. */
  ghost predicate Ascending(names: seq<string>) {
    forall i, j :: 0 <= i < j < |names| ==> Before(names[i], names[j])
  }

  // ----- Runs -----

  /** A run: each command with the fault it meets.  A refused or faulted command changes nothing. */
  function Run(s: State, run: seq<(Command, Fault)>): State {
    if run == [] then s
    else
      var before := Run(s, run[..|run| - 1]);
      match Write(before, run[|run| - 1].0, run[|run| - 1].1) case Ok(after) => after case Err(_) => before
  }

  function Target(c: Command): Place {
    match c
    case Set(key, _) => Place(None, key)
    case Delete(key) => Place(None, key)
    case SetScoped(scope, key, _) => Place(Some(scope), key)
    case DeleteScoped(scope, key) => Place(Some(scope), key)
  }

  /** What a command leaves at its target. */
  function Leaves(c: Command): Option<string> {
    if c.Set? || c.SetScoped? then Some(c.value) else None
  }

  /** Whether an open store carries a command out; its contents have no say in that. */
  predicate Accepted(c: Command, fault: Fault) {
    && fault.None?
    && match c
       case Set(key, value) => NewKey(key) && |Utf8.Encode(value)| <= 65_536
       case Delete(key) => BareName(key)
       case SetScoped(scope, key, value) =>
         NewScope(scope) && NewKey(key) && LegacyName(VaultKey(scope, key)) && |Utf8.Encode(value)| <= 65_536
       case DeleteScoped(scope, key) => ExistingName(scope, key).Some?
  }

  /** One map per scope and one for the bare names: a place remembers the last command accepted there. */
  function Remembered(start: Option<string>, place: Place, run: seq<(Command, Fault)>): Option<string> {
    if run == [] then start
    else
      var (c, fault) := run[|run| - 1];
      if Accepted(c, fault) && Target(c) == place then Leaves(c) else Remembered(start, place, run[..|run| - 1])
  }

  function Own(s: State, place: Place): Option<string> {
    if s.layer.Open? && NameOf(place) in s.layer.entries then Some(s.layer.entries[NameOf(place)]) else None
  }

  /** A name that reads as scoped is one the scoped commands can address. */
  ghost predicate Addressable(name: string) {
    match ParseScoped(name) case None => true case Some((scope, key)) => ExistingName(scope, key) == Some(name)
  }

  /** The names in the store are ones the commands can address. */
  ghost predicate Sound(entries: Entries) {
    forall name :: name in entries ==>
      LegacyName(name) && Addressable(name)
  }

  // ----- One write -----

  lemma {:induction false} AcceptedLegal(c: Command, fault: Fault)
    requires Accepted(c, fault)
    ensures Legal(Target(c))
  {
    hide ParseScoped, Find, LegacyName, Utf8.Encode, VaultKey;
    match c
    case Set(key, _) => NewNamesParse(Workspace, key);
    case SetScoped(scope, key, _) => NewNamesParse(scope, key);
    case Delete(_) =>
    case DeleteScoped(_, _) =>
  }

  /** An open store carries out exactly the accepted commands, each by leaving its value under its target's name. */
  lemma {:induction false} WriteIs(entries: Entries, c: Command, fault: Fault)
    ensures WriteTo(entries, c, fault).Ok? <==> Accepted(c, fault)
    ensures Accepted(c, fault) ==>
              var name := NameOf(Target(c));
              WriteTo(entries, c, fault) == Ok(if Leaves(c).Some? then entries[name := Leaves(c).value] else entries - {name})
  {
    hide ParseScoped, Find, Utf8.Encode;
  }

  lemma {:induction false} WriteOwn(s: State, c: Command, fault: Fault, place: Place)
    requires s.layer.Open? && Legal(place) && Accepted(c, fault)
    ensures var r := Write(s, c, fault);
            r.Ok? && r.value.layer.Open? && Own(r.value, place) == if Target(c) == place then Leaves(c) else Own(s, place)
  {
    hide Accepted, Legal, NameOf, WriteTo;
    WriteIs(s.layer.entries, c, fault);
    AcceptedLegal(c, fault);
    if NameOf(Target(c)) == NameOf(place) {
      PlacesApart(Target(c), place);
    }
  }

  /**
    After any run over an open store, each place holds what its own map remembers: no command on another
    scope, another key or a bare name ever shows through.
  */
  lemma {:induction false} RunIsIndependentMaps(s: State, run: seq<(Command, Fault)>, place: Place)
    requires s.layer.Open? && Legal(place)
    ensures Run(s, run).layer.Open? && Run(s, run).env == s.env
    ensures Own(Run(s, run), place) == Remembered(Own(s, place), place, run)
  {
    hide Accepted, Legal, NameOf, WriteTo, Own;
    if run != [] {
      var front := run[..|run| - 1];
      var (c, fault) := run[|run| - 1];
      RunIsIndependentMaps(s, front, place);
      var before := Run(s, front);
      WriteIs(before.layer.entries, c, fault);
      if Accepted(c, fault) {
        WriteOwn(before, c, fault, place);
      }
    }
  }

  // ----- What the reads answer -----

  /** The own value if there is one, else the default. */
  function Overlay(own: Option<string>, default: Option<string>): Option<string> {
    if own.Some? then own else default
  }

  /** After any run, a bare key answers its own map over the defaults; keys neither layer can carry are refused. */
  lemma {:induction false} GetAfterRun(s: State, run: seq<(Command, Fault)>, key: string)
    requires s.layer.Open?
    ensures var place := Place(None, key);
            Get(Run(s, run), key, None) ==
            if BareName(key) then Ok(Overlay(Remembered(Own(s, place), place, run), Default(s.env, key)))
            else if ValidKey(key) then Ok(Default(s.env, key))
            else Err(INVALID_KEY)
  {
    hide ParseScoped, Find, Utf8.Encode, ValidKey, Remembered, Run, Write, LegacyName, Legal;
    RunOpen(s, run);
    if BareName(key) {
      BareLegal(key);
      RunIsIndependentMaps(s, run, Place(None, key));
    }
  }

  lemma {:induction false} BareLegal(key: string)
    requires BareName(key)
    ensures Legal(Place(None, key))
  {
  }

  lemma {:induction false} RunOpen(s: State, run: seq<(Command, Fault)>)
    requires s.layer.Open?
    ensures Run(s, run).layer.Open? && Run(s, run).env == s.env
  {
    hide WriteTo;
    if run != [] {
      RunOpen(s, run[..|run| - 1]);
    }
  }

  /** After any run, a scoped key answers its own map; the workspace scope alone lies over the defaults. */
  lemma {:induction false} GetScopedAfterRun(s: State, run: seq<(Command, Fault)>, scope: Scope, key: string)
    requires s.layer.Open?
    ensures var place := Place(Some(scope), key);
            GetScoped(Run(s, run), scope, key, None) ==
            if ExistingName(scope, key).None? then Err(INVALID_KEY)
            else
              var default := if scope == Workspace then Default(s.env, key) else None;
              Ok(Overlay(Remembered(Own(s, place), place, run), default))
  {
    hide ParseScoped, Find, Utf8.Encode, ValidKey, Remembered, Run, Write, LegacyName;
    RunOpen(s, run);
    if ExistingName(scope, key).Some? {
      RunIsIndependentMaps(s, run, Place(Some(scope), key));
    }
  }

  /** A fault inside the store is what every read that gets there answers; no default shows through. */
  lemma {:induction false} FaultedRead(s: State, scope: Scope, key: string, why: string)
    requires s.layer.Open?
    ensures BareName(key) ==> Get(s, key, Some(why)) == Err(why)
    ensures !BareName(key) ==> Get(s, key, Some(why)) == Get(s, key, None)
    ensures GetScoped(s, scope, key, Some(why)) == Err(if ExistingName(scope, key).Some? then why else INVALID_KEY)
  {
    hide ParseScoped, Find, Utf8.Encode, ValidKey;
  }

  /** Without a principal layer a key answers its variable, bare and in the workspace scope, and nothing else does. */
  lemma {:induction false} DefaultsAlone(env: map<string, string>, scope: Scope, key: string, fault: Fault)
    ensures var s := State(Absent, env);
            && Get(s, key, fault)
               == (if key == "" || exists i :: 0 <= i < |key| && !(IsAsciiAlnum(key[i]) || key[i] == '_') then Err(INVALID_KEY)
                   else if "IKENGA_SECRET_" + key in env then Ok(Some(env["IKENGA_SECRET_" + key])) else Ok(None))
            && GetScoped(s, scope, key, fault) == if scope == Workspace then Get(s, key, fault) else Err(SCOPE_REFUSAL)
  {
  }

  /** What was just written is read back. */
  lemma {:induction false} WriteThenRead(s: State, c: Command, fault: Fault)
    requires Write(s, c, fault).Ok? && Leaves(c).Some?
    ensures var after := Write(s, c, fault).value;
            match Target(c)
            case Place(None, key) => Get(after, key, None) == Ok(Leaves(c))
            case Place(Some(scope), key) => GetScoped(after, scope, key, None) == Ok(Leaves(c))
  {
    hide Accepted, WriteTo, ParseScoped, Find, Utf8.Encode, LegacyName, VaultKey;
    WriteIs(s.layer.entries, c, fault);
    AcceptedLegal(c, fault);
    WriteOwn(s, c, fault, Target(c));
    ExistingIs(Target(c));
  }

  lemma {:induction false} ExistingIs(p: Place)
    requires Legal(p)
    ensures LegacyName(NameOf(p)) && (p.scope.Some? ==> ExistingName(p.scope.value, p.key) == Some(NameOf(p)))
  {
    hide ParseScoped, LegacyName, VaultKey;
  }

  /** Deleting lets the operator's default through again. */
  lemma {:induction false} DeleteReveals(s: State, key: string, fault: Fault)
    requires Write(s, Delete(key), fault).Ok?
    ensures Get(Write(s, Delete(key), fault).value, key, None) == Ok(Default(s.env, key))
  {
    hide ParseScoped, Find, Utf8.Encode, ValidKey, LegacyName;
  }

  /** Deleting in the workspace scope does so too; elsewhere it leaves nothing. */
  lemma {:induction false} DeleteScopedReveals(s: State, scope: Scope, key: string, fault: Fault)
    requires Write(s, DeleteScoped(scope, key), fault).Ok?
    ensures GetScoped(Write(s, DeleteScoped(scope, key), fault).value, scope, key, None)
         == Ok(if scope == Workspace then Default(s.env, key) else None)
  {
    hide ParseScoped, Find, Utf8.Encode, ValidKey, LegacyName, VaultKey;
  }

  // ----- Listing and reading agree -----

  /** Every run keeps the store's names addressable. */
  lemma {:induction false} RunKeepsSound(s: State, run: seq<(Command, Fault)>)
    requires s.layer.Open? && Sound(s.layer.entries)
    ensures Run(s, run).layer.Open? && Sound(Run(s, run).layer.entries)
  {
    hide Accepted, WriteTo, LegacyName, ParseScoped, ExistingName;
    if run != [] {
      var front := run[..|run| - 1];
      var (c, fault) := run[|run| - 1];
      RunKeepsSound(s, front);
      var before := Run(s, front);
      WriteIs(before.layer.entries, c, fault);
      if Accepted(c, fault) {
        AcceptedLegal(c, fault);
        TargetSound(Target(c));
      }
    }
  }

  lemma {:induction false} TargetSound(p: Place)
    requires Legal(p)
    ensures LegacyName(NameOf(p)) && Addressable(NameOf(p))
  {
    hide ParseScoped, LegacyName, VaultKey;
  }

  /** A bare key is listed exactly when it reads as a value. */
  lemma {:induction false} ListedIff(s: State, key: string)
    requires s.layer.Open? ==> Sound(s.layer.entries)
    requires s.layer.Open? || s.layer.Absent?
    ensures Listed(s, key) <==> Get(s, key, None).Ok? && Get(s, key, None).value.Some?
  {
    hide ParseScoped, Find, Utf8.Encode, ValidKey, LegacyName, ExistingName;
  }

  /**
    A scoped key reads as a value exactly when it is listed and the read accepts its name.  Only a default
    can be listed and refused: one whose key is reserved or too long for the workspace form.
  */
  lemma {:induction false} ListedInIff(s: State, scope: Scope, key: string)
    requires s.layer.Open? && Sound(s.layer.entries)
    ensures var r := GetScoped(s, scope, key, None);
            r.Ok? && r.value.Some? <==> ListedIn(s, scope, key) && ExistingName(scope, key).Some?
    ensures ListedIn(s, scope, key) && ExistingName(scope, key).None? ==>
              scope == Workspace && Default(s.env, key).Some? && (Reserved(key) || !Fits(VaultKey(Workspace, key)))
  {
    hide ParseScoped, Find, Utf8.Encode, LegacyName, VaultKey, ValidKey;
    if ExistingName(scope, key).Some? {
      ExistingIs(Place(Some(scope), key));
      if name :| name in s.layer.entries && ParseScoped(name) == Some((scope, key)) {
        ParsePrints(name);
      }
    } else if scope == Workspace && Default(s.env, key).Some? {
      PlainKeyExists(key);
    }
  }

  lemma {:induction false} PlainKeyExists(key: string)
    requires ValidKey(key)
    ensures ExistingName(Workspace, key).Some? <==> !Reserved(key) && Fits(VaultKey(Workspace, key))
  {
    hide Utf8.Encode, ParseScoped;
    ParsesBackIff(Workspace, key);
    EncodeJoins(Prefix(Workspace), key);
    var name := VaultKey(Workspace, key);
    assert name[0] == 'w';
    assert forall i :: 0 <= i < |key| ==> key[i] != 0 as char;
    assert 0 as char !in Prefix(Workspace);
  }

  /** The operator default `IKENGA_SECRET___manifest` is listed in the workspace scope and cannot be read there. */
  lemma {:induction false} ListedUnreadable(value: string)
    ensures var s := State(Open(map[]), map["IKENGA_SECRET___manifest" := value]);
            && ListedIn(s, Workspace, "__manifest")
            && GetScoped(s, Workspace, "__manifest", None) == Err(INVALID_KEY)
            && Get(s, "__manifest", None) == Ok(Some(value))
  {
    assert ENV_PREFIX + "__manifest" == "IKENGA_SECRET___manifest";
  }

  // ----- Failing closed -----

  /**
    Without an open store no run changes anything, and a broken or stranded one answers no read, whatever
    the defaults hold.
  */
  lemma {:induction false} FailsClosed(s: State, run: seq<(Command, Fault)>, scope: Scope, key: string, fault: Fault)
    requires !s.layer.Open?
    ensures Run(s, run) == s
    ensures !s.layer.Absent? ==>
              && Get(Run(s, run), key, fault) == Err(s.layer.why)
              && GetScoped(Run(s, run), scope, key, fault) == Err(s.layer.why)
  {
    if run != [] {
      FailsClosed(s, run[..|run| - 1], scope, key, fault);
    }
  }

  // ----- Sorted lists -----

  ghost predicate Sorted(names: seq<string>) {
    forall i, j :: 0 <= i < j < |names| ==> names[i] == names[j] || Before(names[i], names[j])
  }

  lemma {:induction false} BeforeTotal(a: string, b: string)
    ensures Before(a, b) || a == b || Before(b, a)
    ensures !(Before(a, b) && Before(b, a)) && !Before(a, a)
  {
    Utf8.LessTotal(Utf8.Encode(a), Utf8.Encode(b));
    Utf8.LessTotal(Utf8.Encode(a), Utf8.Encode(a));
    if Utf8.Encode(a) == Utf8.Encode(b) {
      Utf8.EncodeInjective(a, b);
    }
  }

  lemma {:induction false} BeforeTransitive(a: string, b: string, c: string)
    requires Before(a, b) && Before(b, c)
    ensures Before(a, c)
  {
    Utf8.LessTransitive(Utf8.Encode(a), Utf8.Encode(b), Utf8.Encode(c));
  }

  /** A set of names has one ascending list. */
  lemma {:induction false} AscendingUnique(a: seq<string>, b: seq<string>)
    requires Ascending(a) && Ascending(b) && forall x :: x in a <==> x in b
    ensures a == b
  {
    hide Before;
    assert b != [] ==> b[0] in b;
    if a != [] {
      assert a[0] in b;
      var i :| 0 <= i < |b| && b[i] == a[0];
      assert b[0] in a;
      var j :| 0 <= j < |a| && a[j] == b[0];
      BeforeTotal(a[0], b[0]);
      assert a[0] == b[0];
      forall x ensures x in a[1..] <==> x in b[1..] {
        BeforeTotal(a[0], a[0]);
        assert x in a <==> x == a[0] || x in a[1..];
        assert x in b <==> x == b[0] || x in b[1..];
      }
      AscendingUnique(a[1..], b[1..]);
      assert a == [a[0]] + a[1..] && b == [b[0]] + b[1..];
    }
  }

  /** `sort`, one name at a time. */
  method Sort(names: seq<string>) returns (sorted: seq<string>)
    ensures Sorted(sorted) && multiset(sorted) == multiset(names)
    ensures forall x :: x in sorted <==> x in names
  {
    hide Before;
    sorted := [];
    for n := 0 to |names|
      invariant Sorted(sorted) && multiset(sorted) == multiset(names[..n])
    {
      var x := names[n];
      var i := 0;
      while i < |sorted| && Before(sorted[i], x)
        invariant i <= |sorted| && forall k :: 0 <= k < i ==> Before(sorted[k], x)
      {
        i := i + 1;
      }
      InsertSorted(sorted, i, x);
      assert sorted == sorted[..i] + sorted[i..];
      assert names[..n + 1] == names[..n] + [x];
      sorted := sorted[..i] + [x] + sorted[i..];
    }
    assert names[..|names|] == names;
    assert forall x :: x in sorted <==> x in multiset(sorted);
  }

  lemma {:induction false} InsertSorted(s: seq<string>, i: nat, x: string)
    requires Sorted(s) && i <= |s| && (i < |s| ==> !Before(s[i], x)) && forall k :: 0 <= k < i ==> Before(s[k], x)
    ensures Sorted(s[..i] + [x] + s[i..])
  {
    hide Before;
    forall k | i <= k < |s| ensures x == s[k] || Before(x, s[k]) {
      BeforeTotal(s[i], x);
      if s[i] != x && s[i] != s[k] {
        BeforeTransitive(x, s[i], s[k]);
      }
    }
  }

  /** `dedup`: drops a name that equals the one before it. */
  method Dedup(names: seq<string>) returns (kept: seq<string>)
    requires Sorted(names)
    ensures Ascending(kept) && forall x :: x in kept <==> x in names
  {
    hide Before;
    kept := [];
    for n := 0 to |names|
      invariant Ascending(kept) && forall x :: x in kept <==> x in names[..n]
      invariant kept == [] <==> n == 0
      invariant n > 0 ==> kept[|kept| - 1] == names[n - 1]
    {
      assert names[..n + 1] == names[..n] + [names[n]];
      if kept == [] || kept[|kept| - 1] != names[n] {
        if kept != [] {
          AppendAscending(kept, names[n]);
        }
        kept := kept + [names[n]];
      }
    }
    assert names[..|names|] == names;
  }

  lemma {:induction false} AppendAscending(kept: seq<string>, x: string)
    requires Ascending(kept) && kept != [] && Before(kept[|kept| - 1], x)
    ensures Ascending(kept + [x])
  {
    hide Before;
    forall i | 0 <= i < |kept| ensures Before(kept[i], x) {
      if i < |kept| - 1 {
        BeforeTransitive(kept[i], kept[|kept| - 1], x);
      }
    }
  }

  method SortDedup(names: seq<string>) returns (kept: seq<string>)
    ensures Ascending(kept) && forall x :: x in kept <==> x in names
  {
    var sorted := Sort(names);
    kept := Dedup(sorted);
  }

  /** The keys of a map in some order. */
  method KeysOf(m: map<string, string>) returns (keys: seq<string>)
    ensures forall x :: x in keys <==> x in m
  {
    keys := [];
    var left := m.Keys;
    while left != {}
      invariant left <= m.Keys && forall x :: x in m <==> x in keys || x in left
      decreases |left|
    {
      var x :| x in left;
      keys := keys + [x];
      left := left - {x};
    }
  }

  // ----- The object -----

  class DaemonSecrets {
    var principal: Layer
    const env: map<string, string>

    constructor (layer: Layer, vars: map<string, string>)
      ensures View() == State(layer, vars)
    {
      principal := layer;
      env := vars;
    }

    function View(): State
      reads this
    {
      State(principal, env)
    }

    /** Every write command: a refused or faulted one leaves the state as it was. */
    method Apply(c: Command, fault: Fault) returns (r: Result<()>)
      modifies this
      ensures var w := Write(old(View()), c, fault);
              if w.Ok? then r.Ok? && View() == w.value else r == Err(w.error) && View() == old(View())
    {
      match principal
      case Broken(why) => return Err(why);
      case Stranded(why) => return Err(why);
      case Absent => return Err(WRITE_REFUSAL);
      case Open(entries) =>
        var written := WriteTo(entries, c, fault);
        match written {
          case Err(why) => return Err(why);
          case Ok(after) => principal := Open(after);
        }
        return Ok(());
    }

    /** The names of the defaults, sorted. */
    method DefaultNames() returns (names: seq<string>)
      ensures Ascending(names) && forall key :: key in names <==> Default(env, key).Some?
      ensures forall key :: key in names <==>
                && key != "" && "IKENGA_SECRET_" + key in env
                && forall i :: 0 <= i < |key| ==>
                     'A' <= key[i] <= 'Z' || 'a' <= key[i] <= 'z' || '0' <= key[i] <= '9' || key[i] == '_'
    {
      var vars := KeysOf(env);
      names := [];
      for n := 0 to |vars|
        invariant forall key :: key in names <==> ValidKey(key) && ENV_PREFIX + key in vars[..n]
      {
        hide ValidKey;
        assert vars[..n + 1] == vars[..n] + [vars[n]];
        if StartsWith(vars[n], ENV_PREFIX) {
          var key := vars[n][|ENV_PREFIX|..];
          assert vars[n] == ENV_PREFIX + key;
          assert forall other :: ENV_PREFIX + other == vars[n] ==> (ENV_PREFIX + other)[|ENV_PREFIX|..] == other;
          if ValidKey(key) {
            names := names + [key];
          }
        }
      }
      assert vars[..|vars|] == vars;
      names := SortDedup(names);
    }

    /** The unscoped names of both layers. */
    method ListKeys(fault: Fault) returns (r: Result<seq<string>>)
      ensures (principal.Broken? || principal.Stranded?) ==> r == Err(principal.why)
      ensures principal.Open? && fault.Some? ==> r == Err(fault.value)
      ensures principal.Absent? || (principal.Open? && fault.None?) ==>
                r.Ok? && Ascending(r.value) && forall key :: key in r.value <==> Listed(View(), key)
    {
      hide ParseScoped, Before, Default, Sorted, Ascending;
      var keys := DefaultNames();
      match principal {
        case Broken(why) => return Err(why);
        case Stranded(why) => return Err(why);
        case Absent =>
          keys := SortDedup(keys);
        case Open(entries) =>
          if fault.Some? {
            return Err(fault.value);
          }
          var names := KeysOf(entries);
          ghost var defaults := keys;
          for n := 0 to |names|
            invariant forall key :: key in keys <==> key in defaults || (key in names[..n] && ParseScoped(key).None?)
          {
            assert names[..n + 1] == names[..n] + [names[n]];
            if ParseScoped(names[n]).None? {
              keys := keys + [names[n]];
            }
          }
          assert names[..|names|] == names;
          keys := SortDedup(keys);
      }
      return Ok(keys);
    }

    /** Every name of both layers, scoped ones in full. */
    method IndexNames(fault: Fault) returns (r: Result<seq<string>>)
      ensures (principal.Broken? || principal.Stranded?) ==> r == Err(principal.why)
      ensures principal.Open? && fault.Some? ==> r == Err(fault.value)
      ensures principal.Absent? || (principal.Open? && fault.None?) ==>
                r.Ok? && Ascending(r.value)
                && forall name :: name in r.value <==>
                     Default(env, name).Some? || (principal.Open? && name in principal.entries)
    {
      hide Before, Default, Sorted, Ascending;
      var names := DefaultNames();
      match principal {
        case Broken(why) => return Err(why);
        case Stranded(why) => return Err(why);
        case Absent =>
          names := SortDedup(names);
        case Open(entries) =>
          if fault.Some? {
            return Err(fault.value);
          }
          var own := KeysOf(entries);
          names := SortDedup(names + own);
      }
      return Ok(names);
    }

    /** The keys of one scope; the workspace scope shows the defaults too. */
    method ListKeysScoped(scope: Scope, fault: Fault) returns (r: Result<seq<string>>)
      ensures (principal.Broken? || principal.Stranded?) ==> r == Err(principal.why)
      ensures principal.Absent? && scope != Workspace ==> r == Err(SCOPE_REFUSAL)
      ensures principal.Open? && ExistingName(scope, "_").None? ==> r == Err(INVALID_NAME)
      ensures principal.Open? && ExistingName(scope, "_").Some? && fault.Some? ==> r == Err(fault.value)
      ensures (principal.Absent? && scope == Workspace)
              || (principal.Open? && ExistingName(scope, "_").Some? && fault.None?) ==>
                r.Ok? && Ascending(r.value) && forall key :: key in r.value <==> ListedIn(View(), scope, key)
    {
      hide ParseScoped, Before, Default, Sorted, Ascending, LegacyName, ExistingName;
      match principal
      case Broken(why) => return Err(why);
      case Stranded(why) => return Err(why);
      case Absent =>
        if scope != Workspace {
          return Err(SCOPE_REFUSAL);
        }
        var keys := DefaultNames();
        return Ok(keys);
      case Open(entries) =>
        if ExistingName(scope, "_").None? {
          return Err(INVALID_NAME);
        }
        if fault.Some? {
          return Err(fault.value);
        }
        var names := KeysOf(entries);
        var keys: seq<string> := [];
        for n := 0 to |names|
          invariant forall key :: key in keys <==>
                      exists name :: name in names[..n] && ParseScoped(name) == Some((scope, key))
        {
          assert names[..n + 1] == names[..n] + [names[n]];
          var parsed := ParseScoped(names[n]);
          if parsed.Some? && parsed.value.0 == scope {
            keys := keys + [parsed.value.1];
          }
        }
        assert names[..|names|] == names;
        if scope == Workspace {
          var defaults := DefaultNames();
          keys := keys + defaults;
        }
        keys := SortDedup(keys);
        return Ok(keys);
    }
  }
}
