/**
  `is_read_only_sql` and `starts_with_keyword` of src-tauri/src/db.rs, against the grammar of what the
  reader pool is meant to run: any mix of whitespace and comments, then SELECT or WITH.
*/
module SqlReadGuard {
  import opened Wrappers
  import opened Text

  /**
    `char::is_alphanumeric` or an underscore.  ASCII is spelled out; `unicode` answers for every other
    character.
  */
  predicate IsIdentifierChar(c: char, unicode: char -> bool) {
    IsAsciiAlnum(c) || c == '_' || (c as int >= 128 && unicode(c))
  }

  predicate StartsWithKeyword(s: string, kw: string, unicode: char -> bool) {
    StartsWith(s, kw) && (|s| == |kw| || !IsIdentifierChar(s[|kw|], unicode))
  }

  // ----- The grammar -----

  /** One piece of what may stand before the keyword. */
  datatype Noise = Space(c: char) | Line(body: string) | Block(body: string)

  ghost predicate ValidNoise(n: Noise) {
    match n
    case Space(c) => IsWhitespace(c)
    case Line(body) => '\n' !in body
    case Block(body) => !Occurs(body, "*/")
  }

  function NoiseText(n: Noise): string {
    match n
    case Space(c) => [c]
    case Line(body) => "--" + body + "\n"
    case Block(body) => "/*" + body + "*/"
  }

  function NoisesText(ns: seq<Noise>): string {
    if ns == [] then "" else NoiseText(ns[0]) + NoisesText(ns[1..])
  }

  /** SELECT or WITH in any case, as a whole word. */
  ghost predicate KeywordLed(s: string, unicode: char -> bool) {
    exists kw {:trigger Lower(s[..|kw|])} ::
      kw in {"select", "with"} && |kw| <= |s| && Lower(s[..|kw|]) == kw
      && (|s| == |kw| || !IsIdentifierChar(s[|kw|], unicode))
  }

  ghost predicate Derives(ns: seq<Noise>, rest: string, sql: string, unicode: char -> bool) {
    && (forall n :: n in ns ==> ValidNoise(n))
    && sql == NoisesText(ns) + rest
    && KeywordLed(rest, unicode)
  }

  ghost predicate IsRead(sql: string, unicode: char -> bool) {
    exists ns, rest :: Derives(ns, rest, sql, unicode)
  }

  // ----- The grammar is unambiguous at its front -----

  lemma {:induction false} KeywordStarts(s: string, unicode: char -> bool)
    requires KeywordLed(s, unicode)
    ensures s != "" && LowerChar(s[0]) in {'s', 'w'} && !IsWhitespace(s[0]) && s[0] != '-' && s[0] != '/'
  {
    var kw :| kw in {"select", "with"} && |kw| <= |s| && Lower(s[..|kw|]) == kw;
    assert Lower(s[..|kw|])[0] == LowerChar(s[0]);
  }

  /** A line comment ends at its first newline, a block comment at its first star and slash. */
  lemma {:induction false} LineEnds(a: string, s: string)
    requires '\n' !in a
    ensures Find(a + "\n" + s, "\n") == Some(|a|)
  {
    var x := a + "\n" + s;
    forall j: nat
      ensures At(x, j, "\n") <==> j < |x| && x[j] == '\n'
    {
      assert j < |x| ==> x[j..j + 1] == [x[j]];
    }
    assert x[|a|] == '\n';
    assert forall j :: 0 <= j < |a| ==> x[j] == a[j];
    FindIs(x, "\n", |a|);
  }

  lemma {:induction false} AtPair(s: string, p: char, q: char)
    ensures forall j: nat {:trigger At(s, j, [p, q])} :: At(s, j, [p, q]) <==> j + 1 < |s| && s[j] == p && s[j + 1] == q
  {
    forall j: nat
      ensures At(s, j, [p, q]) <==> j + 1 < |s| && s[j] == p && s[j + 1] == q
    {
      assert j + 1 < |s| ==> s[j..j + 2] == [s[j], s[j + 1]];
    }
  }

  lemma {:induction false} BlockEnds(a: string, s: string)
    requires !Occurs(a, "*/")
    ensures Find(a + "*/" + s, "*/") == Some(|a|)
  {
    var x := a + "*/" + s;
    AtPair(a, '*', '/');
    AtPair(x, '*', '/');
    assert x[|a|] == '*' && x[|a| + 1] == '/';
    forall j: nat | j < |a|
      ensures !At(x, j, "*/")
    {
      assert x[j] == a[j] && (j + 1 < |a| ==> x[j + 1] == a[j + 1]);
      assert !At(a, j, "*/");
    }
    FindIs(x, "*/", |a|);
  }

  /** Equal texts that begin with a closed comment begin with the same one. */
  lemma {:induction false} BodyUnique(a: string, s: string, b: string, t: string, close: string)
    requires a + close + s == b + close + t
    requires Find(a + close + s, close) == Some(|a|) && Find(b + close + t, close) == Some(|b|)
    ensures a == b && s == t
  {
    var x := a + close + s;
    assert a == x[..|a|] && b == x[..|b|];
    assert s == x[|a| + |close|..] && t == x[|b| + |close|..];
  }

  lemma {:induction false} SameKind(n: Noise, s: string, m: Noise, t: string)
    requires ValidNoise(n) && ValidNoise(m) && NoiseText(n) + s == NoiseText(m) + t
    ensures (n.Space? <==> m.Space?) && (n.Line? <==> m.Line?)
  {
    var x, y := NoiseText(n) + s, NoiseText(m) + t;
    assert x[0] == NoiseText(n)[0] && y[0] == NoiseText(m)[0];
  }

  lemma {:induction false} DropOpen(open: string, body: string, close: string, rest: string)
    ensures (open + body + close + rest)[|open|..] == body + close + rest
  {
  }

  /** Equal texts that begin with a comment of one kind begin with the same one. */
  lemma {:induction false} CommentUnique(open: string, a: string, s: string, b: string, t: string, close: string)
    requires open + a + close + s == open + b + close + t
    requires Find(a + close + s, close) == Some(|a|) && Find(b + close + t, close) == Some(|b|)
    ensures a == b && s == t
  {
    hide Find;
    DropOpen(open, a, close, s);
    DropOpen(open, b, close, t);
    BodyUnique(a, s, b, t, close);
  }

  /** No text begins with two different pieces of noise. */
  lemma {:induction false} NoiseUnique(n: Noise, s: string, m: Noise, t: string)
    requires ValidNoise(n) && ValidNoise(m) && NoiseText(n) + s == NoiseText(m) + t
    ensures n == m && s == t
  {
    SameKind(n, s, m, t);
    hide Find, Occurs;
    if n.Space? {
      var x, y := NoiseText(n) + s, NoiseText(m) + t;
      assert x[0] == n.c && y[0] == m.c;
      assert x[1..] == s && y[1..] == t;
    } else if n.Line? {
      LineEnds(n.body, s);
      LineEnds(m.body, t);
      CommentUnique("--", n.body, s, m.body, t, "\n");
    } else {
      BlockEnds(n.body, s);
      BlockEnds(m.body, t);
      CommentUnique("/*", n.body, s, m.body, t, "*/");
    }
  }

  /** How a derivation begins. */
  lemma {:induction false} DerivesFront(ns: seq<Noise>, rest: string, sql: string, unicode: char -> bool)
    requires Derives(ns, rest, sql, unicode)
    ensures ns == [] ==> KeywordLed(sql, unicode)
    ensures ns != [] ==> ValidNoise(ns[0]) && sql == NoiseText(ns[0]) + (NoisesText(ns[1..]) + rest)
                         && IsRead(NoisesText(ns[1..]) + rest, unicode)
  {
    hide KeywordLed, NoiseText, ValidNoise;
    if ns == [] {
      assert sql == rest;
    } else {
      assert ns[0] in ns;
      assert sql == NoiseText(ns[0]) + (NoisesText(ns[1..]) + rest) by {
        assert NoisesText(ns) == NoiseText(ns[0]) + NoisesText(ns[1..]);
      }
      hide NoisesText;
      assert Derives(ns[1..], rest, NoisesText(ns[1..]) + rest, unicode);
    }
  }

  /** Noise in front of a text makes no difference. */
  lemma {:induction false} NoiseIgnored(n: Noise, s: string, unicode: char -> bool)
    requires ValidNoise(n)
    ensures IsRead(NoiseText(n) + s, unicode) <==> IsRead(s, unicode)
  {
    if ns: seq<Noise>, rest: string :| Derives(ns, rest, s, unicode) {
      var more := [n] + ns;
      assert more[1..] == ns;
      assert NoisesText(more) + rest == NoiseText(n) + s;
      assert Derives(more, rest, NoiseText(n) + s, unicode);
    }
    if ns: seq<Noise>, rest: string :| Derives(ns, rest, NoiseText(n) + s, unicode) {
      DerivesFront(ns, rest, NoiseText(n) + s, unicode);
      if ns == [] {
        KeywordStarts(NoiseText(n) + s, unicode);
      } else {
        NoiseUnique(n, s, ns[0], NoisesText(ns[1..]) + rest);
      }
    }
  }

  /** Invariance under any prefix of whitespace and comments. */
  lemma {:induction false} PrefixIgnored(ns: seq<Noise>, s: string, unicode: char -> bool)
    requires forall n :: n in ns ==> ValidNoise(n)
    ensures IsRead(NoisesText(ns) + s, unicode) <==> IsRead(s, unicode)
  {
    if ns == [] {
      assert NoisesText(ns) + s == s;
    } else {
      PrefixIgnored(ns[1..], s, unicode);
      NoiseIgnored(ns[0], NoisesText(ns[1..]) + s, unicode);
      assert NoisesText(ns) + s == NoiseText(ns[0]) + (NoisesText(ns[1..]) + s);
    }
  }

  lemma {:induction false} TrimStartIgnored(s: string, unicode: char -> bool)
    ensures IsRead(TrimStart(s), unicode) <==> IsRead(s, unicode)
  {
    if s != "" && IsWhitespace(s[0]) {
      TrimStartIgnored(s[1..], unicode);
      NoiseIgnored(Space(s[0]), s[1..], unicode);
      assert s == [s[0]] + s[1..];
    }
  }

  /** A read that starts with a comment opener starts with a whole comment. */
  lemma {:induction false} CommentLed(s: string, unicode: char -> bool) returns (n: Noise, rest: string)
    requires IsRead(s, unicode) && (StartsWith(s, "--") || StartsWith(s, "/*"))
    ensures s == NoiseText(n) + rest && ValidNoise(n)
    ensures StartsWith(s, "--") ==> n.Line?
    ensures StartsWith(s, "/*") ==> n.Block?
  {
    var ns: seq<Noise>, keyword: string :| Derives(ns, keyword, s, unicode);
    DerivesFront(ns, keyword, s, unicode);
    assert ns != [] by {
      if KeywordLed(s, unicode) {
        KeywordStarts(s, unicode);
      }
    }
    n, rest := ns[0], NoisesText(ns[1..]) + keyword;
    assert s[0] == NoiseText(n)[0];
  }

  lemma {:induction false} CloseOccurs(n: Noise, rest: string)
    requires !n.Space?
    ensures var s := NoiseText(n) + rest; |s| >= 2 && Occurs(s[2..], if n.Line? then "\n" else "*/")
  {
    var s, close := NoiseText(n) + rest, if n.Line? then "\n" else "*/";
    assert s[2..] == n.body + close + rest;
    assert At(s[2..], |n.body|, close);
  }

  /** A comment that is not closed is not followed by anything. */
  lemma {:induction false} OpenComment(s: string, unicode: char -> bool)
    requires (StartsWith(s, "--") && !Occurs(s[2..], "\n")) || (StartsWith(s, "/*") && !Occurs(s[2..], "*/"))
    ensures !IsRead(s, unicode)
  {
    if IsRead(s, unicode) {
      var n, rest := CommentLed(s, unicode);
      hide IsRead, NoiseText, ValidNoise, Occurs;
      CloseOccurs(n, rest);
    }
  }

  /** Where no noise can start, only the keyword decides. */
  lemma {:induction false} KeywordDecides(s: string, unicode: char -> bool)
    requires s == "" || !IsWhitespace(s[0])
    requires !StartsWith(s, "--") && !StartsWith(s, "/*")
    ensures IsRead(s, unicode) <==> StartsWithKeyword(Lower(s), "select", unicode) || StartsWithKeyword(Lower(s), "with", unicode)
  {
    KeywordLedIff(s, unicode);
    hide Lower, StartsWithKeyword;
    if KeywordLed(s, unicode) {
      assert NoisesText([]) + s == s;
      assert Derives([], s, s, unicode);
    }
    if ns: seq<Noise>, rest: string :| Derives(ns, rest, s, unicode) {
      DerivesFront(ns, rest, s, unicode);
    }
  }

  /**
    A text that begins with a keyword in any case is a read exactly if the keyword ends there: the text does, or
    goes on with anything but a letter, a digit or an underscore.
  */
  lemma {:induction false} WordEnds(word: string, rest: string, unicode: char -> bool)
    requires Lower(word) in {"select", "with"}
    ensures IsRead(word + rest, unicode) <==>
            rest == ""
            || !('a' <= rest[0] <= 'z' || 'A' <= rest[0] <= 'Z' || '0' <= rest[0] <= '9' || rest[0] == '_'
                 || (rest[0] as int >= 128 && unicode(rest[0])))
  {
    hide IsRead, LowerChar;
    var s := word + rest;
    assert s[..|word|] == word && s[0] == word[0];
    assert Lower(word)[0] == LowerChar(s[0]);
    LetterLed(s);
    KeywordDecides(s, unicode);
    LowerKeyword(s, "select", unicode);
    LowerKeyword(s, "with", unicode);
    NotBothWords(s, word);
    assert rest != "" ==> s[|word|] == rest[0];
  }

  lemma {:induction false} LetterLed(s: string)
    requires s != "" && LowerChar(s[0]) in {'s', 'w'}
    ensures !IsWhitespace(s[0]) && s[0] != '-' && s[0] != '/'
  {
  }

  /** A text begins with one keyword at most. */
  lemma {:induction false} NotBothWords(s: string, word: string)
    requires |word| <= |s| && s[..|word|] == word && Lower(word) in {"select", "with"}
    ensures forall kw :: kw in {"select", "with"} && |kw| <= |s| && Lower(s[..|kw|]) == kw ==> kw == Lower(word)
  {
    hide LowerChar;
    forall kw | kw in {"select", "with"} && |kw| <= |s| && Lower(s[..|kw|]) == kw
      ensures kw == Lower(word)
    {
      assert Lower(s[..|kw|])[0] == LowerChar(s[0]) && Lower(word)[0] == LowerChar(s[0]);
    }
  }

  lemma {:induction false} KeywordLedIff(s: string, unicode: char -> bool)
    ensures KeywordLed(s, unicode) <==> StartsWithKeyword(Lower(s), "select", unicode) || StartsWithKeyword(Lower(s), "with", unicode)
  {
    hide Lower, StartsWithKeyword, IsIdentifierChar;
    LowerKeyword(s, "select", unicode);
    LowerKeyword(s, "with", unicode);
  }

  lemma {:induction false} LowerKeyword(s: string, kw: string, unicode: char -> bool)
    ensures StartsWithKeyword(Lower(s), kw, unicode)
       <==> |kw| <= |s| && Lower(s[..|kw|]) == kw && (|s| == |kw| || !IsIdentifierChar(s[|kw|], unicode))
  {
    if |kw| <= |s| {
      assert Lower(s)[..|kw|] == Lower(s[..|kw|]);
    }
  }

  /** A text cut at its opener and at the first closer. */
  lemma {:induction false} CutAt(s: string, open: string, close: string, at: nat)
    requires |open| == 2 && StartsWith(s, open) && Find(s[2..], close) == Some(at)
    ensures at + |close| <= |s| - 2 && s == open + s[2..][..at] + close + s[2..][at + |close|..]
  {
    hide Find;
    var rest := s[2..];
    assert rest[at..at + |close|] == close;
    assert rest == rest[..at] + close + rest[at + |close|..];
    assert s == open + rest;
    assert open + (rest[..at] + close + rest[at + |close|..]) == open + rest[..at] + close + rest[at + |close|..];
  }

  /** The body up to the first closer holds none. */
  lemma {:induction false} BodyOpen(rest: string, close: string, at: nat)
    requires close != "" && Find(rest, close) == Some(at)
    ensures at <= |rest| && !Occurs(rest[..at], close)
  {
    hide Find;
    if k: nat :| At(rest[..at], k, close) {
      assert rest[k..k + |close|] == rest[..at][k..k + |close|];
      assert At(rest, k, close);
    }
  }

  lemma {:induction false} NewlineOccurs(body: string)
    ensures '\n' in body ==> Occurs(body, "\n")
  {
    if '\n' in body {
      var k: nat :| k < |body| && body[k] == '\n';
      assert body[k..k + 1] == "\n";
      assert At(body, k, "\n");
    }
  }

  lemma {:induction false} LineStripped(s: string, nl: nat, unicode: char -> bool)
    requires StartsWith(s, "--") && Find(s[2..], "\n") == Some(nl)
    ensures IsRead(s, unicode) <==> IsRead(TrimStart(s[2..][nl + 1..]), unicode)
  {
    hide Find, IsRead, TrimStart;
    var body, rest := s[2..][..nl], s[2..][nl + 1..];
    CutAt(s, "--", "\n", nl);
    BodyOpen(s[2..], "\n", nl);
    NewlineOccurs(body);
    assert s == NoiseText(Line(body)) + rest;
    NoiseIgnored(Line(body), rest, unicode);
    TrimStartIgnored(rest, unicode);
  }

  lemma {:induction false} BlockStripped(s: string, end: nat, unicode: char -> bool)
    requires StartsWith(s, "/*") && Find(s[2..], "*/") == Some(end)
    ensures IsRead(s, unicode) <==> IsRead(TrimStart(s[2..][end + 2..]), unicode)
  {
    hide Find, IsRead, TrimStart, Occurs;
    var body, rest := s[2..][..end], s[2..][end + 2..];
    CutAt(s, "/*", "*/", end);
    BodyOpen(s[2..], "*/", end);
    assert s == NoiseText(Block(body)) + rest;
    NoiseIgnored(Block(body), rest, unicode);
    TrimStartIgnored(rest, unicode);
  }

  /** The guard accepts exactly the grammar. */
  method IsReadOnlySql(sql: string, unicode: char -> bool) returns (ok: bool)
    ensures ok <==> IsRead(sql, unicode)
  {
    TrimStartIgnored(sql, unicode);
    var s := TrimStart(sql);
    while true
      invariant s == "" || !IsWhitespace(s[0])
      invariant IsRead(s, unicode) <==> IsRead(sql, unicode)
      decreases |s|
    {
      if StartsWith(s, "--") {
        var rest := s[2..];
        var found := Find(rest, "\n");
        match found
        case Some(nl) =>
          LineStripped(s, nl, unicode);
          s := TrimStart(rest[nl + 1..]);
        case None =>
          OpenComment(s, unicode);
          return false;
      } else if StartsWith(s, "/*") {
        var rest := s[2..];
        var found := Find(rest, "*/");
        match found
        case Some(end) =>
          BlockStripped(s, end, unicode);
          s := TrimStart(rest[end + 2..]);
        case None =>
          OpenComment(s, unicode);
          return false;
      } else {
        break;
      }
    }
    KeywordDecides(s, unicode);
    var lower := Lower(s);
    ok := StartsWithKeyword(lower, "select", unicode) || StartsWithKeyword(lower, "with", unicode);
  }
}
