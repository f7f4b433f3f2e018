/**
  `split_statements` of src-tauri/src/db.rs, against a grammar of statements.  Only `--` comments are
  stripped; block comments pass through like any other text.
*/
module SqlStatements {
  import opened Text

  // ----- The grammar -----

  /** Single quotes in a text. */
  function Quotes(s: string): nat {
    if s == "" then 0 else Quotes(s[..|s| - 1]) + if s[|s| - 1] == '\'' then 1 else 0
  }

  /** Position `i` lies outside every single-quoted literal of `s`. */
  predicate Outside(s: string, i: nat)
    requires i <= |s|
  {
    Quotes(s[..i]) % 2 == 0
  }

  /** `--` at position `i`. */
  predicate CommentAt(s: string, i: nat) {
    i + 1 < |s| && s[i] == '-' && s[i + 1] == '-'
  }

  /** No `;` and no `--` outside quotes. */
  ghost predicate Unbroken(s: string) {
    forall i {:trigger Outside(s, i)} :: 0 <= i < |s| && Outside(s, i) ==> s[i] != ';' && !CommentAt(s, i)
  }

  /** A complete statement: trimmed, its quotes balanced, nothing in it ends a statement or opens a comment. */
  ghost predicate IsStatement(s: string) {
    Trimmed(s) && Unbroken(s) && Outside(s, |s|)
  }

  /** A statement whose last literal is not closed. */
  ghost predicate IsUnterminated(s: string) {
    Trimmed(s) && Unbroken(s) && !Outside(s, |s|)
  }

  function Join(ss: seq<string>): string {
    if ss == [] then "" else Join(ss[..|ss| - 1]) + ss[|ss| - 1] + ";"
  }

  // ----- The scanner -----

  /** What is left after the next newline. */
  function AfterLine(s: string): (r: string)
    ensures |r| <= |s|
  {
    if s == "" then "" else if s[0] == '\n' then s[1..] else AfterLine(s[1..])
  }

  /** The pieces still to come when `s` is left to read, `buf` is collected and `quoted` is the state. */
  function Scan(s: string, buf: string, quoted: bool): seq<string>
    decreases |s|
  {
    if s == "" then (if Trim(buf) != "" then [Trim(buf)] else [])
    else if !quoted && CommentAt(s, 0) then Scan(AfterLine(s[1..]), buf, quoted)
    else if s[0] == '\'' then Scan(s[1..], buf + [s[0]], !quoted)
    else if s[0] == ';' && !quoted then [Trim(buf)] + Scan(s[1..], "", false)
    else Scan(s[1..], buf + [s[0]], quoted)
  }

  function Split(sql: string): seq<string> {
    Scan(sql, "", false)
  }

  /** Whether reading `s` ends inside a literal. */
  predicate EndsQuoted(s: string, quoted: bool)
    decreases |s|
  {
    if s == "" then quoted
    else if !quoted && CommentAt(s, 0) then EndsQuoted(AfterLine(s[1..]), quoted)
    else EndsQuoted(s[1..], if s[0] == '\'' then !quoted else quoted)
  }

  method SplitStatements(sql: string) returns (out: seq<string>)
    ensures out == Split(sql)
  {
    out := [];
    var buf := "";
    var inString := false;
    var i := 0;
    while i < |sql|
      invariant i <= |sql|
      invariant out + Scan(sql[i..], buf, inString) == Split(sql)
    {
      var c := sql[i];
      ghost var rest := sql[i..];
      i := i + 1;
      assert rest[1..] == sql[i..];
      if !inString && c == '-' && i < |sql| && sql[i] == '-' {
        ghost var tail := sql[i..];
        while i < |sql|
          invariant i <= |sql|
          invariant AfterLine(sql[i..]) == AfterLine(tail)
        {
          var ch := sql[i];
          assert sql[i..][1..] == sql[i + 1..];
          i := i + 1;
          if ch == '\n' {
            assert AfterLine(tail) == sql[i..];
            break;
          }
        }
        assert AfterLine(tail) == sql[i..];
        continue;
      }
      if c == '\'' {
        inString := !inString;
        buf := buf + [c];
      } else if c == ';' && !inString {
        out := out + [Trim(buf)];
        buf := "";
      } else {
        buf := buf + [c];
      }
    }
    assert sql[i..] == "";
    if Trim(buf) != "" {
      out := out + [Trim(buf)];
    }
  }

  // ----- Quotes and concatenation -----

  lemma {:induction false} QuotesAdd(a: string, b: string)
    ensures Quotes(a + b) == Quotes(a) + Quotes(b)
  {
    if b == "" {
      assert a + b == a;
    } else {
      assert (a + b)[..|a + b| - 1] == a + b[..|b| - 1];
      QuotesAdd(a, b[..|b| - 1]);
    }
  }

  lemma {:induction false} WhitespaceHasNoQuotes(s: string)
    requires AllWhitespace(s)
    ensures Quotes(s) == 0
  {
    if s != "" {
      WhitespaceHasNoQuotes(s[..|s| - 1]);
    }
  }

  /** Appending one character to an unbroken text. */
  lemma {:induction false} UnbrokenPush(s: string, c: char)
    requires Unbroken(s)
    requires Outside(s, |s|) ==> c != ';' && !(c == '-' && s != "" && s[|s| - 1] == '-')
    ensures Unbroken(s + [c])
  {
    forall i | 0 <= i < |s + [c]| && Outside(s + [c], i)
      ensures (s + [c])[i] != ';' && !CommentAt(s + [c], i)
    {
      assert (s + [c])[..i] == s[..i];
      if i < |s| {
        assert Outside(s, i);
        if i + 1 == |s| && s[i] == '-' {
          QuotesAdd(s[..i], [s[i]]);
          assert s == s[..i] + [s[i]] && s[..|s|] == s;
        }
      } else {
        assert s[..i] == s;
      }
    }
  }

  lemma {:induction false} OutsidePush(s: string, c: char)
    ensures Outside(s + [c], |s| + 1) == (if c == '\'' then !Outside(s, |s|) else Outside(s, |s|))
  {
    assert (s + [c])[..|s| + 1] == s + [c] && s[..|s|] == s;
    assert (s + [c])[..|s|] == s;
  }

  /** Cutting whitespace off both ends changes neither property. */
  lemma {:induction false} UnbrokenTrim(s: string)
    requires Unbroken(s)
    ensures Unbroken(Trim(s)) && (Outside(s, |s|) <==> Outside(Trim(s), |Trim(s)|))
  {
    hide Trim;
    var m := Trim(s);
    var a, b := TrimSplits(s);
    WhitespaceHasNoQuotes(a);
    WhitespaceHasNoQuotes(b);
    QuotesAdd(a, m);
    QuotesAdd(a + m, b);
    assert s[..|s|] == s && m[..|m|] == m;
    forall i | 0 <= i < |m| && Outside(m, i)
      ensures m[i] != ';' && !CommentAt(m, i)
    {
      assert s[..|a| + i] == a + m[..i];
      QuotesAdd(a, m[..i]);
      assert Outside(s, |a| + i);
      assert s[|a| + i] == m[i];
      assert i + 1 < |m| ==> s[|a| + i + 1] == m[i + 1];
    }
  }

  // ----- Reading back a statement -----

  lemma {:induction false} UnbrokenTail(s: string, quoted: bool)
    requires s != ""
    ensures forall i :: 1 <= i <= |s| ==> Quotes(s[..i]) == Quotes(s[1..][..i - 1]) + if s[0] == '\'' then 1 else 0
  {
    forall i | 1 <= i <= |s|
      ensures Quotes(s[..i]) == Quotes(s[1..][..i - 1]) + if s[0] == '\'' then 1 else 0
    {
      assert s[..i] == [s[0]] + s[1..][..i - 1];
      QuotesAdd([s[0]], s[1..][..i - 1]);
      assert [s[0]][..0] == "";
    }
  }

  /** `Unbroken` for a text that starts inside a literal when `quoted`. */
  ghost predicate UnbrokenFrom(s: string, quoted: bool) {
    forall i {:trigger Outside(s, i)} :: 0 <= i < |s| && Outside(s, i) != quoted ==> s[i] != ';' && !CommentAt(s, i)
  }

  lemma {:induction false} UnbrokenFromTail(s: string, quoted: bool)
    requires s != "" && UnbrokenFrom(s, quoted)
    ensures UnbrokenFrom(s[1..], if s[0] == '\'' then !quoted else quoted)
    ensures !quoted ==> s[0] != ';' && !CommentAt(s, 0)
    ensures Outside(s, |s|) == (if s[0] == '\'' then !Outside(s[1..], |s| - 1) else Outside(s[1..], |s| - 1))
  {
    var t := s[1..];
    UnbrokenTail(s, quoted);
    assert s[..0] == "";
    assert Outside(s, 0);
    forall i | 0 <= i < |t| && Outside(t, i) != (if s[0] == '\'' then !quoted else quoted)
      ensures t[i] != ';' && !CommentAt(t, i)
    {
      assert Quotes(s[..i + 1]) == Quotes(t[..i]) + if s[0] == '\'' then 1 else 0;
      assert Outside(s, i + 1) != quoted;
    }
  }

  /** Reading through an unbroken text collects it whole. */
  lemma {:induction false} ScanThrough(t: string, rest: string, buf: string, quoted: bool)
    requires UnbrokenFrom(t, quoted)
    requires t == "" || t[|t| - 1] != '-' || rest == "" || rest[0] != '-'
    ensures Scan(t + rest, buf, quoted) == Scan(rest, buf + t, if Outside(t, |t|) then quoted else !quoted)
    decreases |t|
  {
    if t == "" {
      assert t + rest == rest && buf + t == buf;
    } else {
      var u := t[1..];
      UnbrokenFromTail(t, quoted);
      assert (t + rest)[1..] == u + rest && (t + rest)[0] == t[0];
      assert buf + [t[0]] + u == buf + t;
      ScanThrough(u, rest, buf + [t[0]], if t[0] == '\'' then !quoted else quoted);
    }
  }

  lemma {:induction false} ScanStatement(t: string, rest: string)
    requires Unbroken(t) && Outside(t, |t|)
    ensures Split(t + ";" + rest) == [Trim(t)] + Split(rest)
  {
    ScanThrough(t, ";" + rest, "", false);
    assert t + ";" + rest == t + (";" + rest) && "" + t == t;
    assert (";" + rest)[1..] == rest;
  }

  lemma {:induction false} SplitJoinThen(ss: seq<string>, rest: string)
    requires forall k :: 0 <= k < |ss| ==> IsStatement(ss[k])
    ensures Split(Join(ss) + rest) == ss + Split(rest)
  {
    if ss == [] {
      assert Join(ss) + rest == rest;
    } else {
      var init, last := ss[..|ss| - 1], ss[|ss| - 1];
      SplitJoinThen(init, last + ";" + rest);
      ScanStatement(last, rest);
      TrimFixed(last);
      assert Join(ss) + rest == Join(init) + (last + ";" + rest);
      assert ss == init + [last];
    }
  }

  /** Printing statements and splitting the text again gives them back, empty ones included. */
  lemma {:induction false} SplitJoin(ss: seq<string>)
    requires forall k :: 0 <= k < |ss| ==> IsStatement(ss[k])
    ensures Split(Join(ss)) == ss
  {
    SplitJoinThen(ss, "");
    assert Join(ss) + "" == Join(ss);
  }

  /**
    A last statement does not need its `;`, nor to be complete: whatever is left when the text ends is a piece,
    unless it is blank.
  */
  lemma {:induction false} LastKept(ss: seq<string>, last: string)
    requires forall k :: 0 <= k < |ss| ==> IsStatement(ss[k])
    requires Unbroken(last)
    ensures Split(Join(ss) + last) == ss + if AllWhitespace(last) then [] else [Trim(last)]
  {
    hide Scan, Trim, Join, IsStatement;
    SplitJoinThen(ss, last);
    ScanThrough(last, "", "", false);
    assert last + "" == last && "" + last == last;
    ScanEnd(last, Outside(last, |last|));
    BlankIff(last);
    assert ss + [] == ss;
  }

  lemma {:induction false} ScanEnd(buf: string, outside: bool)
    ensures Scan("", buf, !outside) == if Trim(buf) != "" then [Trim(buf)] else []
  {
  }

  lemma {:induction false} BlankIff(s: string)
    ensures Trim(s) == "" <==> AllWhitespace(s)
  {
    hide Trim;
    var a, b := TrimSplits(s);
    if Trim(s) == "" {
      assert s == a + b;
    }
    if AllWhitespace(s) {
      assert "" + "" + s == s;
      TrimIs("", "", s);
    }
  }

  lemma {:induction false} AfterLineIs(c: string, rest: string)
    requires '\n' !in c
    ensures AfterLine(c + "\n" + rest) == rest
  {
    var s := c + "\n" + rest;
    if c == "" {
      assert s[1..] == rest;
    } else {
      AfterLineIs(c[1..], rest);
      assert s[1..] == c[1..] + "\n" + rest;
      assert s[0] == c[0];
    }
  }

  /** A line comment outside quotes is as good as absent: the text before it joins the text after it. */
  lemma {:induction false} CommentIgnored(t: string, comment: string, rest: string)
    requires Unbroken(t) && Outside(t, |t|) && (t == "" || t[|t| - 1] != '-')
    requires '\n' !in comment && (rest == "" || rest[0] != '-')
    ensures Split(t + "--" + comment + "\n" + rest) == Split(t + rest)
  {
    var tail := "--" + comment + "\n" + rest;
    assert t + "--" + comment + "\n" + rest == t + tail && "" + t == t;
    ScanThrough(t, tail, "", false);
    ScanThrough(t, rest, "", false);
    AfterLineIs("-" + comment, rest);
    assert tail[1..] == "-" + comment + "\n" + rest;
  }

  // ----- What every split produces -----

  /** Every piece is a statement; only the last may be one whose literal the text never closes. */
  ghost predicate WellSplit(pieces: seq<string>, open: bool) {
    && (open ==> pieces != [])
    && forall k :: 0 <= k < |pieces| ==>
                     if open && k == |pieces| - 1 then IsUnterminated(pieces[k]) else IsStatement(pieces[k])
  }

  lemma {:induction false} ScanWellSplit(s: string, buf: string, quoted: bool)
    requires Unbroken(buf) && Outside(buf, |buf|) == !quoted
    requires !quoted && buf != "" && buf[|buf| - 1] == '-' ==> s == "" || s[0] != '-'
    ensures WellSplit(Scan(s, buf, quoted), EndsQuoted(s, quoted))
    decreases |s|
  {
    UnbrokenTrim(buf);
    if s == "" {
      if Trim(buf) == "" {
        assert ""[..0] == "";
      }
    } else if !quoted && CommentAt(s, 0) {
      ScanWellSplit(AfterLine(s[1..]), buf, quoted);
    } else if s[0] == ';' && !quoted {
      assert ""[..0] == "";
      ScanWellSplit(s[1..], "", false);
      var pieces := Scan(s[1..], "", false);
      assert forall k :: 1 <= k < |[Trim(buf)] + pieces| ==> ([Trim(buf)] + pieces)[k] == pieces[k - 1];
    } else {
      UnbrokenPush(buf, s[0]);
      OutsidePush(buf, s[0]);
      ScanWellSplit(s[1..], buf + [s[0]], if s[0] == '\'' then !quoted else quoted);
    }
  }

  lemma {:induction false} SplitWellSplit(sql: string)
    ensures WellSplit(Split(sql), EndsQuoted(sql, false))
  {
    assert ""[..0] == "";
    ScanWellSplit(sql, "", false);
  }

  /** Closing nothing, a semicolon behind an unterminated statement becomes part of it. */
  lemma {:induction false} UnterminatedGrows(t: string)
    requires IsUnterminated(t)
    ensures Split(t + ";") == [t + ";"]
  {
    hide Scan, Quotes;
    assert t != "" by {
      QuotesNone();
    }
    ScanThrough(t, ";", "", false);
    assert "" + t == t;
    ScanLast(t);
  }

  lemma {:induction false} QuotesNone()
    ensures Outside("", 0)
  {
    assert ""[..0] == "";
  }

  lemma {:induction false} ScanLast(t: string)
    requires Trimmed(t) && t != ""
    ensures Scan(";", t, true) == [t + ";"]
  {
    hide Trim;
    assert ";"[1..] == "" && t + [';'] == t + ";";
    TrimFixed(t + ";");
  }

  lemma {:induction false} LastDiffers(init: seq<string>, x: string, y: string)
    requires x != y
    ensures init + [x] != init + [y]
  {
    assert (init + [x])[|init|] == x && (init + [y])[|init|] == y;
  }

  /** Printing the pieces and splitting again is the identity exactly when the text ends outside a literal. */
  lemma {:induction false} ResplitIff(sql: string)
    ensures Split(Join(Split(sql))) == Split(sql) <==> !EndsQuoted(sql, false)
  {
    hide Split, Scan, EndsQuoted, IsStatement, IsUnterminated, Join;
    var ss := Split(sql);
    SplitWellSplit(sql);
    if !EndsQuoted(sql, false) {
      SplitJoin(ss);
    } else {
      var init, last := ss[..|ss| - 1], ss[|ss| - 1];
      SplitJoinThen(init, last + ";");
      UnterminatedGrows(last);
      JoinLast(init, last);
      assert ss == init + [last];
      LastDiffers(init, last + ";", last);
    }
  }

  lemma {:induction false} JoinLast(init: seq<string>, last: string)
    ensures Join(init + [last]) == Join(init) + (last + ";")
  {
    assert (init + [last])[..|init|] == init;
  }
}
