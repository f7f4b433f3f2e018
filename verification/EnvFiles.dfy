/**
  The dotenv parser and the layering of src-tauri/src/env_files.rs: lines, `export `, the first `=`,
  quotes and escapes, and the override of one file by the next.
*/
module EnvFiles {
  import opened Wrappers
  import opened Text

  type Env = map<string, string>

  // ----- Lines -----

  /** `str::lines`: ends at `\n` or `\r\n`; a last line without an end counts. */
  function Lines(s: string): seq<string> {
    if s == "" then []
    else match Find(s, "\n")
         case None => [s]
         case Some(i) => [DropCr(s[..i])] + Lines(s[i + 1..])
  }

  function DropCr(line: string): string {
    if line != "" && line[|line| - 1] == '\r' then line[..|line| - 1] else line
  }

  // ----- One line -----

  predicate IsKeyStart(c: char) { 'A' <= c <= 'Z' || 'a' <= c <= 'z' || c == '_' }

  predicate IsKeyChar(c: char) { IsAsciiAlnum(c) || c == '_' }

  /** `is_valid_env_key`. */
  predicate IsValidKey(s: string) {
    s != "" && IsKeyStart(s[0]) && forall i :: 1 <= i < |s| ==> IsKeyChar(s[i])
  }

  /** The characters a backslash escapes in a double-quoted value. */
  predicate IsEscape(c: char) {
    c == '"' || c == '\\' || c == '$' || c == '`' || c == 'n' || c == 't' || c == 'r'
  }

  function Decoded(c: char): char {
    if c == 'n' then '\n' else if c == 't' then '\t' else if c == 'r' then '\r' else c
  }

  /** A backslash before anything else stays. */
  function Unescape(s: string): string {
    if s == "" then ""
    else if s[0] == '\\' && |s| >= 2 && IsEscape(s[1]) then [Decoded(s[1])] + Unescape(s[2..])
    else [s[0]] + Unescape(s[1..])
  }

  lemma {:induction false} UnescapeStep(s: string)
    requires s != ""
    ensures Unescape(s) == if s[0] == '\\' && |s| >= 2 && IsEscape(s[1]) then [Decoded(s[1])] + Unescape(s[2..])
                           else [s[0]] + Unescape(s[1..])
  {
  }

  lemma {:induction false} UnescapeNothing()
    ensures Unescape("") == ""
  {
  }

  predicate QuotedBy(raw: string, quote: char) {
    |raw| >= 2 && raw[0] == quote && raw[|raw| - 1] == quote
  }

  function ValueOf(text: string): string {
    var raw := Trim(text);
    if QuotedBy(raw, '"') then Unescape(raw[1..|raw| - 1])
    else if QuotedBy(raw, '\'') then raw[1..|raw| - 1]
    else match Find(raw, " #")
         case Some(i) => TrimEnd(raw[..i])
         case None => raw
  }

  // ----- What a value means -----

  /** A value that stands for itself without quotes. */
  ghost predicate PlainValue(v: string) {
    Trimmed(v) && !QuotedBy(v, '"') && !QuotedBy(v, '\'') && !Occurs(v, " #")
  }

  lemma {:induction false} UnescapeShort(s: string)
    ensures |Unescape(s)| <= |s|
    decreases |s|
  {
    if s != "" {
      UnescapeShort(s[1..]);
      if |s| >= 2 {
        UnescapeShort(s[2..]);
      }
    }
  }

  lemma {:induction false} ValueInTrimmed(text: string)
    ensures |ValueOf(text)| <= |Trim(text)| <= |text|
    ensures |ValueOf(text)| == |Trim(text)| ==> ValueOf(text) == Trim(text)
  {
    hide Find, Unescape, TrimEnd, TrimStart, IsWhitespace;
    var raw := Trim(text);
    if QuotedBy(raw, '"') {
      UnescapeShort(raw[1..|raw| - 1]);
    }
  }

  /** A value is never longer than its text, and as long only where it is the text. */
  lemma {:induction false} ValueShort(text: string)
    ensures |ValueOf(text)| <= |text| && (|ValueOf(text)| == |text| ==> ValueOf(text) == text)
  {
    hide ValueOf, Trim;
    ValueInTrimmed(text);
    if |Trim(text)| == |text| {
      TrimWhole(text);
    }
  }

  lemma {:induction false} TrimWhole(text: string)
    requires |Trim(text)| == |text|
    ensures Trim(text) == text
  {
    hide Trim;
    var a, b := TrimSplits(text);
    assert a == "" && b == "";
    assert "" + Trim(text) + "" == Trim(text);
  }

  /** Written bare, exactly the plain values stand for themselves. */
  lemma {:induction false} BareValueIff(v: string)
    ensures ValueOf(v) == v <==> PlainValue(v)
  {
    hide Find, Unescape, TrimEnd, TrimStart, IsWhitespace;
    ValueInTrimmed(v);
    if |Trim(v)| == |v| {
      TrimWhole(v);
    }
    if Trimmed(v) {
      TrimFixed(v);
      if QuotedBy(v, '"') {
        UnescapeShort(v[1..|v| - 1]);
      }
    }
  }

  /** Between single quotes every value stands for itself. */
  lemma {:induction false} SingleQuoted(v: string)
    ensures ValueOf("'" + v + "'") == v
  {
    hide Find, Unescape;
    var text := "'" + v + "'";
    assert text[0] == text[|text| - 1] == '\'' && text[1..|text| - 1] == v;
    TrimFixed(text);
  }

  /** Behind a plain value that does not begin with a quote, a space and `#` begin a comment. */
  lemma {:induction false} CommentCut(v: string, comment: string)
    requires PlainValue(v) && v != "" && v[0] != '"' && v[0] != '\''
    ensures ValueOf(v + " #" + comment) == v
  {
    hide Find, Unescape, TrimStart, IsWhitespace;
    var text := v + " #" + comment;
    var raw := Trim(text);
    var a, b := TrimSplits(text);
    CommentStays(v, comment, a, raw, b);
    var cut := raw[|v| + 2..];
    assert raw == v + " #" + cut;
    forall j: nat | j < |v|
      ensures !At(raw, j, " #")
    {
      FrontHash(v, cut, j);
    }
    assert raw[|v|..|v| + 2] == " #";
    FindIs(raw, " #", |v|);
    assert raw[..|v|] == v;
    assert TrimEnd(v) == v by {
      LastStays(v);
    }
  }

  lemma {:induction false} LastStays(v: string)
    requires v == "" || !IsWhitespace(v[|v| - 1])
    ensures TrimEnd(v) == v
  {
  }

  /** Trimming takes nothing before the `#`. */
  lemma {:induction false} CommentStays(v: string, comment: string, a: string, raw: string, b: string)
    requires v != "" && Trimmed(v) && v + " #" + comment == a + raw + b && AllWhitespace(a) && AllWhitespace(b)
    requires Trimmed(raw)
    ensures a == "" && |raw| >= |v| + 2 && raw[..|v| + 2] == v + " #"
  {
    var text := v + " #" + comment;
    assert text[0] == v[0] && text[|v| + 1] == '#';
    Outskirts(a, raw, b, |v| + 1);
    assert text == a + raw + b;
    assert raw == text[..|raw|];
  }

  /** A character outside the middle is whitespace. */
  lemma {:induction false} Outskirts(a: string, raw: string, b: string, k: nat)
    requires AllWhitespace(a) && AllWhitespace(b)
    ensures a != "" ==> IsWhitespace((a + raw + b)[0])
    ensures |a + raw| <= k < |a + raw + b| ==> IsWhitespace((a + raw + b)[k])
  {
    hide IsWhitespace;
    assert a != "" ==> (a + raw + b)[0] == a[0];
    assert |a + raw| <= k < |a + raw + b| ==> (a + raw + b)[k] == b[k - |a + raw|];
  }

  /** No comment begins before the end of a trimmed value that holds none. */
  lemma {:induction false} FrontHash(v: string, rest: string, j: nat)
    requires Trimmed(v) && !Occurs(v, " #") && j < |v|
    ensures !At(v + " #" + rest, j, " #")
  {
    var raw := v + " #" + rest;
    if j + 1 < |v| {
      assert raw[j..j + 2] == v[j..j + 2];
      assert !At(v, j, " #");
    } else {
      assert raw[j..j + 2][0] == v[j] == v[|v| - 1];
    }
  }

  const EXPORT := "export "

  /** A trimmed line without a leading `export `. */
  function Unexported(line: string): string {
    TrimStart(if StartsWith(line, EXPORT) then line[|EXPORT|..] else line)
  }

  /** The entry of a line, if it has one. */
  function Entry(rawLine: string): Option<(string, string)> {
    var line := Trim(rawLine);
    if line == "" || line[0] == '#' then None
    else
      var body := Unexported(line);
      match Find(body, "=")
      case None => None
      case Some(i) =>
        var key := Trim(body[..i]);
        if IsValidKey(key) then Some((key, ValueOf(Trim(body[i + 1..])))) else None
  }

  function Apply(env: Env, entry: Option<(string, string)>): Env {
    match entry
    case None => env
    case Some((key, value)) => env[key := value]
  }

  /** The entries of `lines` inserted in order. */
  function Insert(env: Env, lines: seq<string>): Env
    decreases |lines|
  {
    if lines == [] then env else Insert(Apply(env, Entry(lines[0])), lines[1..])
  }

  function Parse(contents: string): Env {
    Insert(map[], Lines(contents))
  }

  // ----- The parser as it runs -----

  method IsValidEnvKey(s: string) returns (ok: bool)
    ensures ok == IsValidKey(s)
    ensures ok <==> s != "" && !('0' <= s[0] <= '9')
                    && forall i :: 0 <= i < |s| ==>
                         'A' <= s[i] <= 'Z' || 'a' <= s[i] <= 'z' || '0' <= s[i] <= '9' || s[i] == '_'
  {
    if s == "" {
      return false;
    }
    if !IsKeyStart(s[0]) {
      return false;
    }
    for i := 1 to |s|
      invariant forall k :: 1 <= k < i ==> IsKeyChar(s[k])
    {
      if !IsKeyChar(s[i]) {
        return false;
      }
    }
    return true;
  }

  method DecodeQuoted(inner: string) returns (out: string)
    ensures out == Unescape(inner)
  {
    hide Unescape;
    out := "";
    var i := 0;
    while i < |inner|
      invariant i <= |inner|
      invariant out + Unescape(inner[i..]) == Unescape(inner)
    {
      var c := inner[i];
      ghost var rest := inner[i..];
      UnescapeStep(rest);
      i := i + 1;
      assert rest[1..] == inner[i..];
      if c == '\\' && i < |inner| && IsEscape(inner[i]) {
        out := out + [Decoded(inner[i])];
        i := i + 1;
        assert rest[2..] == inner[i..];
        continue;
      }
      out := out + [c];
    }
    assert inner[i..] == "";
    UnescapeNothing();
  }

  /** Every string can be written between either quotes, and exactly the plain ones bare. */
  method ParseValue(text: string) returns (value: string)
    ensures value == ValueOf(text)
    ensures forall v :: text == Quoted(v) ==> value == v
    ensures forall v :: text == "'" + v + "'" ==> value == v
    ensures value == text <==> PlainValue(text)
  {
    BareValueIff(text);
    forall v | text == Quoted(v)
      ensures ValueOf(text) == v
    {
      QuotedParses(v);
    }
    forall v | text == "'" + v + "'"
      ensures ValueOf(text) == v
    {
      SingleQuoted(v);
    }
    hide Unescape, Trim, Find, PlainValue, Quoted;
    var raw := Trim(text);
    if QuotedBy(raw, '"') {
      value := DecodeQuoted(raw[1..|raw| - 1]);
    } else if QuotedBy(raw, '\'') {
      value := raw[1..|raw| - 1];
    } else {
      var comment := Find(raw, " #");
      match comment
      case Some(i) => value := TrimEnd(raw[..i]);
      case None => value := raw;
    }
  }

  method ParseEnvString(contents: string) returns (out: Env)
    ensures out == Parse(contents)
  {
    hide Find, ValueOf, Trim, TrimStart, Lines;
    out := map[];
    var lines := Lines(contents);
    for n := 0 to |lines|
      invariant Insert(out, lines[n..]) == Parse(contents)
    {
      ghost var rest := lines[n..];
      assert rest[1..] == lines[n + 1..];
      var line := Trim(lines[n]);
      if line == "" || line[0] == '#' {
        continue;
      }
      line := TrimStart(if StartsWith(line, EXPORT) then line[|EXPORT|..] else line);
      var split := Find(line, "=");
      match split
      case None =>
        continue;
      case Some(i) =>
        var key := Trim(line[..i]);
        var valid := IsValidEnvKey(key);
        if key == "" || !valid {
          continue;
        }
        var value := ParseValue(Trim(line[i + 1..]));
        out := out[key := value];
    }
    assert lines[|lines|..] == [];
  }

  // ----- Concatenation -----

  lemma {:induction false} InsertSplit(env: Env, a: seq<string>, b: seq<string>)
    ensures Insert(env, a + b) == Insert(Insert(env, a), b)
    decreases |a|
  {
    hide Entry, Apply;
    if a == [] {
      assert a + b == b;
    } else {
      InsertSplit(Apply(env, Entry(a[0])), a[1..], b);
      assert (a + b)[1..] == a[1..] + b;
    }
  }

  lemma {:induction false} InsertOver(env: Env, lines: seq<string>)
    ensures Insert(env, lines) == env + Insert(map[], lines)
    decreases |lines|
  {
    if lines != [] {
      var e := Entry(lines[0]);
      InsertOver(Apply(env, e), lines[1..]);
      InsertOver(Apply(map[], e), lines[1..]);
      ApplyOver(env, e, Insert(map[], lines[1..]));
    }
  }

  lemma {:induction false} ApplyOver(env: Env, e: Option<(string, string)>, rest: Env)
    ensures Apply(env, e) + rest == env + (Apply(map[], e) + rest)
  {
  }

  /** The `\r` that `lines` leaves on a last line is whitespace to the parser. */
  lemma {:induction false} CrIgnored(line: string)
    ensures Entry(DropCr(line)) == Entry(line)
  {
    var d := DropCr(line);
    var tail := line[|d|..];
    assert line == "" + d + tail && AllWhitespace(tail);
    TrimPads("", d, tail);
  }

  /** Text before a newline keeps its lines, one of them perhaps losing a carriage return. */
  lemma {:induction false} LinesAppend(env: Env, a: string, b: string)
    ensures Insert(env, Lines(a + "\n" + b)) == Insert(Insert(env, Lines(a)), Lines(b))
    decreases |a|
  {
    var s := a + "\n" + b;
    match Find(a, "\n")
    case None =>
      NewlineAt(a, b);
      assert s[..|a|] == a && s[|a| + 1..] == b;
      assert Lines(s) == [DropCr(a)] + Lines(b);
      InsertSplit(env, [DropCr(a)], Lines(b));
      InsertOne(env, DropCr(a));
      CrIgnored(a);
      if a == "" {
        EmptyLine(env);
      } else {
        InsertOne(env, a);
      }
    case Some(i) =>
      FirstNewline(a, b, i);
      assert s[..i] == a[..i] && s[i + 1..] == a[i + 1..] + "\n" + b;
      var line := DropCr(a[..i]);
      InsertSplit(env, [line], Lines(s[i + 1..]));
      InsertSplit(env, [line], Lines(a[i + 1..]));
      LinesAppend(Insert(env, [line]), a[i + 1..], b);
  }

  lemma {:induction false} InsertOne(env: Env, line: string)
    ensures Insert(env, [line]) == Apply(env, Entry(line))
  {
    assert [line][1..] == [];
  }

  lemma {:induction false} EmptyLine(env: Env)
    ensures Apply(env, Entry("")) == env
  {
  }

  lemma {:induction false} NewlineAt(a: string, b: string)
    requires Find(a, "\n").None?
    ensures Find(a + "\n" + b, "\n") == Some(|a|)
  {
    var s := a + "\n" + b;
    forall j: nat | j < |a|
      ensures !At(s, j, "\n")
    {
      assert s[j..j + 1] == a[j..j + 1];
      assert !At(a, j, "\n");
    }
    assert s[|a|..|a| + 1] == "\n";
    FindIs(s, "\n", |a|);
  }

  lemma {:induction false} FirstNewline(a: string, b: string, i: nat)
    requires Find(a, "\n") == Some(i)
    ensures Find(a + "\n" + b, "\n") == Some(i)
  {
    var s := a + "\n" + b;
    forall j: nat | j <= i
      ensures At(s, j, "\n") <==> At(a, j, "\n")
    {
      assert s[j..j + 1] == a[j..j + 1];
    }
    FindIs(s, "\n", i);
  }

  /** The parse of two texts, one per line group, is the first overridden by the second. */
  lemma {:induction false} ParseConcat(a: string, b: string)
    ensures Parse(a + "\n" + b) == Parse(a) + Parse(b)
  {
    LinesAppend(map[], a, b);
    InsertOver(Parse(a), Lines(b));
  }

  // ----- Printing -----

  function EscapeChar(c: char): string {
    if c == '\n' then "\\n" else if c == '\t' then "\\t" else if c == '\r' then "\\r"
    else if c == '"' || c == '\\' || c == '$' || c == '`' then ['\\', c]
    else [c]
  }

  function Escape(v: string): string {
    if v == "" then "" else EscapeChar(v[0]) + Escape(v[1..])
  }

  /** `KEY="value"` with every documented escape. */
  function Line(key: string, value: string): string {
    key + "=" + Quoted(value)
  }

  function Quoted(value: string): string {
    "\"" + Escape(value) + "\""
  }

  function Print(entries: seq<(string, string)>): string {
    if entries == [] then "" else Line(entries[0].0, entries[0].1) + "\n" + Print(entries[1..])
  }

  function ToMap(entries: seq<(string, string)>): Env {
    if entries == [] then map[] else map[entries[0].0 := entries[0].1] + ToMap(entries[1..])
  }

  lemma {:induction false} UnescapeEscape(v: string)
    ensures Unescape(Escape(v)) == v && '\n' !in Escape(v)
  {
    hide Unescape;
    UnescapeNothing();
    if v != "" {
      UnescapeEscape(v[1..]);
      var e, rest := EscapeChar(v[0]), Escape(v[1..]);
      UnescapeStep(e + rest);
      assert (e + rest)[|e|..] == rest;
      assert Escape(v) == e + rest;
      assert '\n' !in e;
    }
  }

  lemma {:induction false} QuotedParses(v: string)
    ensures ValueOf(Trim(Quoted(v))) == v
  {
    var raw := Quoted(v);
    assert raw[0] == '"' && raw[|raw| - 1] == '"';
    TrimFixed(raw);
    assert raw[1..|raw| - 1] == Escape(v);
    UnescapeEscape(v);
  }

  /** A valid key holds none of the characters the line syntax gives a meaning. */
  lemma {:induction false} KeyChars(key: string)
    requires IsValidKey(key)
    ensures forall i :: 0 <= i < |key| ==> key[i] != '=' && key[i] != '\n' && key[i] != ' ' && key[i] != '#' && !IsWhitespace(key[i])
  {
    forall i | 0 <= i < |key|
      ensures key[i] != '=' && key[i] != '\n' && key[i] != ' ' && key[i] != '#' && !IsWhitespace(key[i])
    {
      assert i == 0 || IsKeyChar(key[i]);
    }
  }

  lemma {:induction false} NoNewline(s: string)
    requires '\n' !in s
    ensures Find(s, "\n") == None
  {
    forall j: nat
      ensures !At(s, j, "\n")
    {
      assert j < |s| ==> s[j..j + 1] == [s[j]];
    }
  }

  lemma {:induction false} FirstEquals(key: string, rest: string)
    requires '=' !in key
    ensures Find(key + "=" + rest, "=") == Some(|key|)
  {
    var s := key + "=" + rest;
    forall j: nat | j < |key|
      ensures !At(s, j, "=")
    {
      assert s[j..j + 1] == [key[j]];
    }
    assert s[|key|..|key| + 1] == "=";
    FindIs(s, "=", |key|);
  }

  /** No line that assigns a valid key starts with the word `export` and a space. */
  lemma {:induction false} NotExported(key: string, rest: string)
    requires IsValidKey(key)
    ensures !StartsWith(key + "=" + rest, EXPORT)
  {
    var s := key + "=" + rest;
    KeyChars(key);
    assert s[|key|] == '=';
    assert forall i :: 0 <= i < |key| ==> s[i] == key[i];
    var i := if |key| < 7 then |key| else 6;
    assert s[i] != EXPORT[i];
  }

  lemma {:induction false} LineParses(key: string, value: string)
    requires IsValidKey(key)
    ensures Entry(Line(key, value)) == Some((key, value))
  {
    var line, quoted := Line(key, value), Quoted(value);
    KeyChars(key);
    assert line[0] == key[0] && line[|line| - 1] == '"';
    TrimFixed(line);
    NotExported(key, quoted);
    FirstEquals(key, quoted);
    assert line[..|key|] == key && line[|key| + 1..] == quoted;
    TrimFixed(key);
    QuotedParses(value);
  }

  lemma {:induction false} LineParse(key: string, value: string)
    requires IsValidKey(key)
    ensures Parse(Line(key, value)) == map[key := value]
  {
    var line := Line(key, value);
    KeyChars(key);
    UnescapeEscape(value);
    assert '\n' !in line;
    NoNewline(line);
    assert Lines(line) == [line];
    InsertOne(map[], line);
    LineParses(key, value);
  }

  /** Printing entries and parsing the text gives their map; a key printed twice keeps its last value. */
  lemma {:induction false} ParsePrint(entries: seq<(string, string)>)
    requires forall e :: e in entries ==> IsValidKey(e.0)
    ensures Parse(Print(entries)) == ToMap(entries)
  {
    if entries != [] {
      var e := entries[0];
      ParsePrint(entries[1..]);
      LineParse(e.0, e.1);
      ParseConcat(Line(e.0, e.1), Print(entries[1..]));
    }
  }

  /** `entries` lists each entry of `env` once, in any order. */
  ghost predicate Lists(entries: seq<(string, string)>, env: Env) {
    && (forall e :: e in entries ==> e.0 in env && env[e.0] == e.1)
    && (forall k :: k in env ==> (k, env[k]) in entries)
  }

  lemma {:induction false} ToMapIs(entries: seq<(string, string)>, env: Env)
    requires forall e :: e in entries ==> e.0 in env && env[e.0] == e.1
    ensures forall k :: k in ToMap(entries) ==> k in env && env[k] == ToMap(entries)[k]
    ensures forall e :: e in entries ==> e.0 in ToMap(entries)
  {
    if entries != [] {
      ToMapIs(entries[1..], env);
      assert entries == [entries[0]] + entries[1..];
    }
  }

  /** Every map from valid keys to arbitrary strings survives the trip, in whatever order it is written. */
  lemma {:induction false} MapRoundTrip(env: Env, entries: seq<(string, string)>)
    requires (forall k :: k in env ==> IsValidKey(k)) && Lists(entries, env)
    ensures Parse(Print(entries)) == env
  {
    ParsePrint(entries);
    ToMapIs(entries, env);
    assert forall k :: k in env ==> (k, env[k]) in entries && k in ToMap(entries);
    assert ToMap(entries).Keys == env.Keys;
  }

  // ----- Layers -----

  /** The readable files of the host. */
  type Files = map<string, string>

  /** `Path::join` of a plain file name. */
  function JoinPath(root: string, name: string): string {
    if root == "" || EndsWith(root, "/") then root + name else root + "/" + name
  }

  /** What a path contributes: nothing when it cannot be read. */
  function Contents(files: Files, path: Option<string>): string {
    if path.Some? && path.value in files then files[path.value] else ""
  }

  function InRoot(root: Option<string>, name: string): Option<string> {
    match root case None => None case Some(r) => Some(JoinPath(r, name))
  }

  /** The three layers as one text, lowest first. */
  function AllLayers(files: Files, workspace: Option<string>, root: Option<string>): string {
    Contents(files, workspace) + "\n" + (Contents(files, InRoot(root, ".env")) + "\n" + Contents(files, InRoot(root, ".env.local")))
  }

  function Lookup(env: Env, key: string): Option<string> {
    if key in env then Some(env[key]) else None
  }

  function OrElse(a: Option<string>, b: Option<string>): Option<string> {
    if a.Some? then a else b
  }

  method ParseEnvFile(files: Files, path: string) returns (env: Env)
    ensures env == Parse(Contents(files, Some(path)))
  {
    if path in files {
      env := ParseEnvString(files[path]);
    } else {
      env := map[];
    }
  }

  method InsertAll(env: Env, layer: Env) returns (out: Env)
    ensures out == env + layer
  {
    out := env;
    var keys := layer.Keys;
    while keys != {}
      invariant keys <= layer.Keys
      invariant forall k :: k in out <==> k in env || (k in layer && k !in keys)
      invariant forall k :: k in out ==> out[k] == if k in layer && k !in keys then layer[k] else env[k]
      decreases keys
    {
      var k :| k in keys;
      out := out[k := layer[k]];
      keys := keys - {k};
    }
  }

  /** The result is the parse of the concatenated files: the last layer that defines a key decides. */
  method BuildLayeredEnv(files: Files, workspace: Option<string>, root: Option<string>) returns (env: Env)
    ensures env == Parse(AllLayers(files, workspace, root))
    ensures forall key :: Lookup(env, key) ==
                          OrElse(Lookup(Parse(Contents(files, InRoot(root, ".env.local"))), key),
                                 OrElse(Lookup(Parse(Contents(files, InRoot(root, ".env"))), key),
                                        Lookup(Parse(Contents(files, workspace)), key)))
    ensures root.Some? ==>
              var dir := if root.value == "" || root.value[|root.value| - 1] == '/' then root.value else root.value + "/";
              env == Parse(Contents(files, workspace) + "\n"
                           + (Contents(files, Some(dir + ".env")) + "\n" + Contents(files, Some(dir + ".env.local"))))
  {
    LayersAre(files, workspace, root);
    hide Parse, Contents, JoinPath, Lookup, AllLayers, OrElse;
    ghost var low, mid := Parse(Contents(files, workspace)), Parse(Contents(files, InRoot(root, ".env")));
    ghost var high := Parse(Contents(files, InRoot(root, ".env.local")));
    env := map[];
    NoContents(files);
    if workspace.Some? {
      var layer := ParseEnvFile(files, workspace.value);
      env := InsertAll(env, layer);
    }
    assert env == low;
    if root.Some? {
      var layer := ParseEnvFile(files, JoinPath(root.value, ".env"));
      env := InsertAll(env, layer);
      layer := ParseEnvFile(files, JoinPath(root.value, ".env.local"));
      env := InsertAll(env, layer);
    }
    assert env == low + (mid + high);
    LayersParse(files, workspace, root);
    LastLayerWins(low, mid, high);
  }

  lemma {:induction false} LayersAre(files: Files, workspace: Option<string>, root: Option<string>)
    ensures root.Some? ==>
              var dir := if root.value == "" || root.value[|root.value| - 1] == '/' then root.value else root.value + "/";
              AllLayers(files, workspace, root)
              == Contents(files, workspace) + "\n"
                 + (Contents(files, Some(dir + ".env")) + "\n" + Contents(files, Some(dir + ".env.local")))
  {
    if root.Some? && root.value != "" {
      var r := root.value;
      assert r[|r| - 1..] == [r[|r| - 1]];
    }
  }

  lemma {:induction false} LayersParse(files: Files, workspace: Option<string>, root: Option<string>)
    ensures Parse(AllLayers(files, workspace, root))
         == Parse(Contents(files, workspace))
            + (Parse(Contents(files, InRoot(root, ".env"))) + Parse(Contents(files, InRoot(root, ".env.local"))))
  {
    var low, mid, high :=
      Contents(files, workspace), Contents(files, InRoot(root, ".env")), Contents(files, InRoot(root, ".env.local"));
    ParseConcat(mid, high);
    ParseConcat(low, mid + "\n" + high);
  }

  lemma {:induction false} LastLayerWins(low: Env, mid: Env, high: Env)
    ensures forall key :: Lookup(low + (mid + high), key) == OrElse(Lookup(high, key), OrElse(Lookup(mid, key), Lookup(low, key)))
  {
  }

  lemma {:induction false} NoContents(files: Files)
    ensures Parse(Contents(files, None)) == map[]
  {
  }
}
