/**
  Names of secrets: the scopes of src-tauri/src/secrets/scope.rs and the name rules of
  src-tauri/src/secrets/index.rs.
*/
module SecretNames {
  import opened Wrappers
  import opened Text
  import Utf8

  datatype Scope = Workspace | Project(id: string) | Pkg(id: string)

  const DELIMITER := "::"

  function Prefix(scope: Scope): string {
    match scope
    case Workspace => "workspace::"
    case Project(id) => "project::" + id + DELIMITER
    case Pkg(id) => "pkg::" + id + DELIMITER
  }

  function VaultKey(scope: Scope, key: string): string {
    Prefix(scope) + key
  }

  /** `split_once("::")`. */
  function SplitOnce(s: string): Option<(string, string)> {
    match Find(s, DELIMITER)
    case None => None
    case Some(p) => Some((s[..p], s[p + 2..]))
  }

  function ParseId(rest: string): Option<(string, string)> {
    match SplitOnce(rest)
    case None => None
    case Some((id, key)) => if id == "" || key == "" then None else Some((id, key))
  }

  /** `parse_scoped`: the permissive split, at the first delimiter behind the prefix. */
  function ParseScoped(name: string): Option<(Scope, string)> {
    if StartsWith(name, "workspace::") then
      var rest := name[11..];
      if rest == "" then None else Some((Workspace, rest))
    else if StartsWith(name, "project::") then
      match ParseId(name[9..]) case None => None case Some((id, key)) => Some((Project(id), key))
    else if StartsWith(name, "pkg::") then
      match ParseId(name[5..]) case None => None case Some((id, key)) => Some((Pkg(id), key))
    else None
  }

  // ----- Validity -----

  predicate Reserved(name: string) { name == "__manifest" || name == "__manifest_v2" }

  /** The keychain item `ikenga:<name>` has to fit. */
  predicate Fits(name: string) { |Utf8.Encode(name)| + 7 <= 32_767 }

  /** `validate_legacy_name`: the names any build may have written. */
  predicate LegacyName(name: string) {
    name != "" && !Reserved(name) && 0 as char !in name && Fits(name)
  }

  predicate NameChar(c: char) { IsAsciiAlnum(c) || c == '_' || c == '-' || c == '.' || c == ':' }

  /** `validate_key`: a key on a new write. */
  predicate NewKey(key: string) {
    LegacyName(key) && (forall i :: 0 <= i < |key| ==> NameChar(key[i])) && Find(key, DELIMITER).None?
  }

  /** `Scope::validate`. */
  predicate NewScope(scope: Scope) {
    scope.Workspace? ||
    (scope.id != "" && forall i :: 0 <= i < |scope.id| ==> NameChar(scope.id[i]) && scope.id[i] != ':')
  }

  /** `checked_vault_key`. */
  function CheckedVaultKey(scope: Scope, key: string): Option<string> {
    if NewScope(scope) && NewKey(key) then Some(VaultKey(scope, key)) else None
  }

  /** `existing_scoped_name`. */
  function ExistingName(scope: Scope, key: string): Option<string> {
    var name := VaultKey(scope, key);
    if LegacyName(key) && LegacyName(name) && ParseScoped(name) == Some((scope, key)) then Some(name) else None
  }

  /** `validate_existing_bare_name`. */
  predicate BareName(name: string) {
    LegacyName(name) && ParseScoped(name).None?
  }

  // ----- Which names the commands take -----

  /** A new key: ASCII letters, digits and `_ - . :`, no two colons together, not a manifest's name, at most 32 760 bytes. */
  lemma {:induction false} NewKeyIff(key: string)
    ensures NewKey(key) <==>
            && key != "" && key != "__manifest" && key != "__manifest_v2" && |Utf8.Encode(key)| <= 32_760
            && (forall i :: 0 <= i < |key| ==>
                  || 'A' <= key[i] <= 'Z' || 'a' <= key[i] <= 'z' || '0' <= key[i] <= '9'
                  || key[i] == '_' || key[i] == '-' || key[i] == '.' || key[i] == ':')
            && (forall i :: 0 <= i < |key| - 1 ==> !(key[i] == ':' && key[i + 1] == ':'))
  {
    hide Utf8.Encode, At;
    NoDelimiterIff(key);
    assert forall i :: 0 <= i < |key| ==> key[i] in key;
    hide Find;
  }

  lemma {:induction false} NoDelimiterIff(key: string)
    ensures Find(key, DELIMITER).None? <==> forall i :: 0 <= i < |key| - 1 ==> !(key[i] == ':' && key[i + 1] == ':')
  {
    hide At;
    forall i: nat {:trigger At(key, i, DELIMITER)}
      ensures At(key, i, DELIMITER) <==> i + 2 <= |key| && key[i] == ':' && key[i + 1] == ':'
    {
      DelimiterAt(key, i);
    }
    if i :| 0 <= i < |key| - 1 && key[i] == ':' && key[i + 1] == ':' {
      assert At(key, i, DELIMITER);
    }
  }

  /** A new scope's id is made of the same characters but colons. */
  lemma {:induction false} NewScopeIff(scope: Scope)
    ensures NewScope(scope) <==>
            scope == Workspace ||
            (scope.id != "" && forall i :: 0 <= i < |scope.id| ==>
               || 'A' <= scope.id[i] <= 'Z' || 'a' <= scope.id[i] <= 'z' || '0' <= scope.id[i] <= '9'
               || scope.id[i] == '_' || scope.id[i] == '-' || scope.id[i] == '.')
  {
  }

  /** A stored name can be read under its scope and key: which those are. */
  lemma {:induction false} ExistingNameIff(scope: Scope, key: string)
    ensures ExistingName(scope, key).Some? <==>
            && CleanScope(scope) && key != "" && key != "__manifest" && key != "__manifest_v2"
            && 0 as char !in VaultKey(scope, key) && |Utf8.Encode(VaultKey(scope, key))| <= 32_760
    ensures ExistingName(scope, key).Some? ==> ExistingName(scope, key) == Some(VaultKey(scope, key))
  {
    hide Utf8.Encode, ParseScoped;
    ParsesBackIff(scope, key);
    EncodeJoins(Prefix(scope), key);
    var name := VaultKey(scope, key);
    assert name[0] == Prefix(scope)[0] != '_';
    assert forall c :: c in key ==> c in name;
  }

  // ----- Parsing and printing -----

  /** No delimiter starts in the id, not even with its last character. */
  ghost predicate CleanId(id: string) {
    id != "" && id[|id| - 1] != ':' && forall i: nat :: !At(id, i, DELIMITER)
  }

  ghost predicate CleanScope(scope: Scope) {
    scope.Workspace? || CleanId(scope.id)
  }

  lemma {:induction false} DelimiterAt(s: string, i: nat)
    ensures At(s, i, DELIMITER) <==> i + 2 <= |s| && s[i] == ':' && s[i + 1] == ':'
  {
    if i + 2 <= |s| {
      assert s[i..i + 2] == [s[i], s[i + 1]];
    }
  }

  /** An id is split off again exactly when it is clean, whatever the key. */
  lemma {:induction false} SplitIff(id: string, key: string)
    ensures Find(id + DELIMITER + key, DELIMITER) == Some(|id|) && id != "" <==> CleanId(id)
  {
    hide At, Find;
    var s := id + DELIMITER + key;
    forall i: nat | i < |id|
      ensures At(s, i, DELIMITER) <==> At(id, i, DELIMITER) || (i == |id| - 1 && id[i] == ':')
    {
      DelimiterAt(s, i);
      DelimiterAt(id, i);
      assert s[i] == id[i] && s[i + 1] == (id + DELIMITER)[i + 1];
    }
    DelimiterAt(s, |id|);
    forall i: nat ensures At(id, i, DELIMITER) ==> i < |id| {
      DelimiterAt(id, i);
    }
    if CleanId(id) {
      assert forall i: nat :: i < |id| ==> !At(s, i, DELIMITER);
      FindIs(s, DELIMITER, |id|);
    } else if id != "" && id[|id| - 1] == ':' {
      assert At(s, |id| - 1, DELIMITER);
    } else if i: nat :| At(id, i, DELIMITER) {
      assert At(s, i, DELIMITER);
    }
  }

  lemma {:induction false} ParseIdIff(id: string, key: string)
    ensures ParseId(id + DELIMITER + key) == Some((id, key)) <==> CleanId(id) && key != ""
  {
    hide Find, CleanId;
    SplitIff(id, key);
    var s := id + DELIMITER + key;
    assert s[..|id|] == id && s[|id| + 2..] == key;
    if Find(s, DELIMITER).Some? {
      assert |s[..Find(s, DELIMITER).value]| == Find(s, DELIMITER).value;
    }
  }

  /** A printed name parses back exactly when the scope is clean and the key is not empty. */
  lemma {:induction false} ParsesBackIff(scope: Scope, key: string)
    ensures ParseScoped(VaultKey(scope, key)) == Some((scope, key)) <==> CleanScope(scope) && key != ""
  {
    hide ParseId, CleanId, ParseScoped;
    match scope
    case Workspace =>
      ParsesKind("workspace::", key);
    case Project(id) =>
      ParseIdIff(id, key);
      ParsesKind("project::", id + DELIMITER + key);
      assert "project::" + id + DELIMITER + key == "project::" + (id + DELIMITER + key);
    case Pkg(id) =>
      ParseIdIff(id, key);
      ParsesKind("pkg::", id + DELIMITER + key);
      assert "pkg::" + id + DELIMITER + key == "pkg::" + (id + DELIMITER + key);
  }

  /** The prefix decides the kind of scope. */
  lemma {:induction false} ParsesKind(prefix: string, rest: string)
    ensures prefix == "workspace::" ==>
              ParseScoped(prefix + rest) == if rest == "" then None else Some((Workspace, rest))
    ensures prefix == "project::" ==>
              ParseScoped(prefix + rest)
              == match ParseId(rest) case None => None case Some((id, key)) => Some((Project(id), key))
    ensures prefix == "pkg::" ==>
              ParseScoped(prefix + rest)
              == match ParseId(rest) case None => None case Some((id, key)) => Some((Pkg(id), key))
  {
    hide ParseId;
    var name := prefix + rest;
    assert name[|prefix|..] == rest;
    assert prefix != "" ==> name[0] == prefix[0];
    assert |prefix| > 1 ==> name[1] == prefix[1];
  }

  /** What a name parses to prints that name, so no two names parse to the same scope and key. */
  lemma {:induction false} ParsePrints(name: string)
    ensures ParseScoped(name).Some? ==> VaultKey(ParseScoped(name).value.0, ParseScoped(name).value.1) == name
  {
    hide Find;
    if StartsWith(name, "workspace::") {
      assert name == "workspace::" + name[11..];
    } else if StartsWith(name, "project::") {
      assert name == "project::" + name[9..];
      ParseIdPrints("project::", name[9..]);
    } else if StartsWith(name, "pkg::") {
      assert name == "pkg::" + name[5..];
      ParseIdPrints("pkg::", name[5..]);
    }
  }

  lemma {:induction false} ParseIdPrints(front: string, rest: string)
    ensures ParseId(rest).Some? ==> var (id, key) := ParseId(rest).value; front + id + DELIMITER + key == front + rest
  {
    if Find(rest, DELIMITER).Some? {
      var p := Find(rest, DELIMITER).value;
      assert rest[p..p + 2] == DELIMITER;
      assert rest == rest[..p] + rest[p..p + 2] + rest[p + 2..];
    }
  }

  /** A name a new write uses parses back to what was written. */
  lemma {:induction false} NewNamesParse(scope: Scope, key: string)
    requires NewScope(scope) && NewKey(key)
    ensures ParseScoped(VaultKey(scope, key)) == Some((scope, key))
    ensures ParseScoped(key) == None
  {
    ParsesBackIff(scope, key) by { hide Find; }
    if !scope.Workspace? {
      forall i: nat ensures !At(scope.id, i, DELIMITER) {
        DelimiterAt(scope.id, i);
      }
    }
    NoPrefix(key);
  }

  lemma {:induction false} NoPrefix(key: string)
    requires Find(key, DELIMITER).None?
    ensures ParseScoped(key) == None
  {
    hide Find, ParseId;
    DelimiterAt(key, 9);
    DelimiterAt(key, 7);
    DelimiterAt(key, 3);
    var a, b, c := "workspace::", "project::", "pkg::";
    assert a[9] == a[10] == b[7] == b[8] == c[3] == c[4] == ':';
  }

  /** A bare name, or a scope and a key in it. */
  datatype Place = Place(scope: Option<Scope>, key: string)

  function NameOf(place: Place): string {
    match place.scope case None => place.key case Some(scope) => VaultKey(scope, place.key)
  }

  /** Places that the commands can read and delete. */
  predicate Legal(place: Place) {
    match place.scope case None => BareName(place.key) case Some(scope) => ExistingName(scope, place.key).Some?
  }

  /** No two legal places share a name: the scopes and the bare names are apart. */
  lemma {:induction false} PlacesApart(p: Place, q: Place)
    requires Legal(p) && Legal(q) && NameOf(p) == NameOf(q)
    ensures p == q
  {
    hide ParseScoped, VaultKey, LegacyName;
  }

  // ----- Lengths -----

  lemma {:induction false} EncodeJoins(a: string, b: string)
    ensures |Utf8.Encode(a + b)| == |Utf8.Encode(a)| + |Utf8.Encode(b)|
  {
    if a == "" {
      assert a + b == b;
    } else {
      assert (a + b)[1..] == a[1..] + b;
      EncodeJoins(a[1..], b);
    }
  }

  /** A legacy name that parses leaves a key that is legacy too, unless that key is reserved. */
  lemma {:induction false} ParsedKeyLegacy(name: string)
    requires LegacyName(name) && ParseScoped(name).Some?
    ensures var (scope, key) := ParseScoped(name).value;
            Reserved(key) <==> ExistingName(scope, key) == None
    ensures var (scope, key) := ParseScoped(name).value;
            ExistingName(scope, key).Some? ==> ExistingName(scope, key) == Some(name)
  {
    hide Utf8.Encode, ParseScoped;
    ParsePrints(name);
    var (scope, key) := ParseScoped(name).value;
    ParsesBackIff(scope, key);
    EncodeJoins(Prefix(scope), key);
    assert name == Prefix(scope) + key;
    assert forall c :: c in key ==> c in name;
  }

  /** The scope check that listing does passes wherever some key of the scope can be read. */
  lemma {:induction false} ExistingScope(scope: Scope, key: string)
    requires ExistingName(scope, key).Some?
    ensures ExistingName(scope, "_").Some?
  {
    hide ParseScoped, Utf8.Encode;
    ParsesBackIff(scope, key);
    ParsesBackIff(scope, "_");
    EncodeJoins(Prefix(scope), key);
    EncodeJoins(Prefix(scope), "_");
    ShortKey(key);
    var name := VaultKey(scope, "_");
    assert name[0] != '_' by { assert name[0] == Prefix(scope)[0]; }
    assert forall c :: c in Prefix(scope) ==> c in VaultKey(scope, key);
  }

  lemma {:induction false} ShortKey(key: string)
    ensures |Utf8.Encode("_")| == 1 && (key != "" ==> |Utf8.Encode(key)| >= 1)
  {
    assert Utf8.Encode("_") == Utf8.EncodeChar('_') + Utf8.Encode("");
  }
}
