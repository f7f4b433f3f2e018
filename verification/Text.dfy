/** The string operations of Rust's `str` that the modelled scanners are built from. */
module Text {
  import opened Wrappers

  /** `char::is_whitespace`: the Unicode White_Space property. */
  predicate IsWhitespace(c: char) {
    var n := c as int;
    || 0x09 <= n <= 0x0D || n == 0x20 || n == 0x85 || n == 0xA0 || n == 0x1680
    || 0x2000 <= n <= 0x200A || n == 0x2028 || n == 0x2029 || n == 0x202F || n == 0x205F || n == 0x3000
  }

  /** The 25 characters of that property. */
  lemma {:induction false} WhitespaceIs(c: char)
    ensures IsWhitespace(c) <==>
            c as int in [9, 10, 11, 12, 13, 32, 133, 160, 5760, 8192, 8193, 8194, 8195, 8196, 8197, 8198, 8199, 8200, 8201,
                         8202, 8232, 8233, 8239, 8287, 12288]
  {
  }

  ghost predicate AllWhitespace(s: string) {
    forall i :: 0 <= i < |s| ==> IsWhitespace(s[i])
  }

  predicate IsAsciiUpper(c: char) { 'A' <= c <= 'Z' }

  predicate IsAsciiAlnum(c: char) { 'A' <= c <= 'Z' || 'a' <= c <= 'z' || '0' <= c <= '9' }

  function LowerChar(c: char): char {
    if IsAsciiUpper(c) then ((c as int) + 32) as char else c
  }

  /** `to_ascii_lowercase`: keeps every position. */
  function Lower(s: string): (r: string)
    ensures |r| == |s| && forall i :: 0 <= i < |s| ==> r[i] == LowerChar(s[i])
  {
    seq(|s|, i requires 0 <= i < |s| => LowerChar(s[i]))
  }

  /** Lowering takes each of the 26 capital letters to its small one and leaves every other character. */
  lemma {:induction false} LowerIs(c: char)
    ensures 'A' <= c <= 'Z' ==> LowerChar(c) as int - 'a' as int == c as int - 'A' as int
    ensures c < 'A' || c > 'Z' ==> LowerChar(c) == c
  {
  }

  // ----- Trimming -----

  /** What is left after the leading whitespace. */
  function TrimStart(s: string): (r: string)
    ensures |r| <= |s| && (r == "" || !IsWhitespace(r[0]))
  {
    if s != "" && IsWhitespace(s[0]) then TrimStart(s[1..]) else s
  }

  function TrimEnd(s: string): (r: string)
    ensures r <= s && (r == "" || !IsWhitespace(r[|r| - 1]))
  {
    if s != "" && IsWhitespace(s[|s| - 1]) then TrimEnd(s[..|s| - 1]) else s
  }

  function Trim(s: string): (r: string)
    ensures Trimmed(r) && |r| <= |s|
  {
    TrimEnd(TrimStart(s))
  }

  predicate Trimmed(s: string) {
    s == "" || (!IsWhitespace(s[0]) && !IsWhitespace(s[|s| - 1]))
  }

  lemma {:induction false} TrimStartSkips(a: string, s: string)
    requires AllWhitespace(a)
    ensures TrimStart(a + s) == TrimStart(s)
  {
    if a == "" {
      assert a + s == s;
    } else {
      TrimStartSkips(a[1..], s);
      assert (a + s)[1..] == a[1..] + s;
      assert (a + s)[0] == a[0];
    }
  }

  lemma {:induction false} TrimEndSkips(s: string, b: string)
    requires AllWhitespace(b)
    ensures TrimEnd(s + b) == TrimEnd(s)
  {
    if b == "" {
      assert s + b == s;
    } else {
      TrimEndSkips(s, b[..|b| - 1]);
      assert (s + b)[..|s + b| - 1] == s + b[..|b| - 1];
      assert (s + b)[|s + b| - 1] == b[|b| - 1];
    }
  }

  /** A trimmed text inside whitespace is what trimming returns, and there is no other. */
  lemma {:induction false} TrimIs(a: string, m: string, b: string)
    requires AllWhitespace(a) && Trimmed(m) && AllWhitespace(b)
    ensures Trim(a + m + b) == m
  {
    assert a + m + b == a + (m + b);
    TrimStartSkips(a, m + b);
    if m == "" {
      assert m + b == b + "";
      TrimStartSkips(b, "");
    } else {
      TrimEndSkips(m, b);
    }
  }

  lemma {:induction false} TrimFixed(s: string)
    requires Trimmed(s)
    ensures Trim(s) == s
  {
    TrimIs("", s, "");
    assert "" + s + "" == s;
  }

  lemma {:induction false} TrimStartSplits(s: string) returns (a: string)
    ensures s == a + TrimStart(s) && AllWhitespace(a)
  {
    a := "";
    if s != "" && IsWhitespace(s[0]) {
      a := TrimStartSplits(s[1..]);
      a := [s[0]] + a;
    }
  }

  lemma {:induction false} TrimEndSplits(s: string) returns (b: string)
    ensures s == TrimEnd(s) + b && AllWhitespace(b)
  {
    b := "";
    if s != "" && IsWhitespace(s[|s| - 1]) {
      b := TrimEndSplits(s[..|s| - 1]);
      b := b + [s[|s| - 1]];
    }
  }

  /** Trimming splits a text into whitespace, its result and whitespace. */
  lemma {:induction false} TrimSplits(s: string) returns (a: string, b: string)
    ensures s == a + Trim(s) + b && AllWhitespace(a) && AllWhitespace(b)
  {
    a := TrimStartSplits(s);
    b := TrimEndSplits(TrimStart(s));
  }

  /** Whitespace around a text makes no difference to its trimmed form. */
  lemma {:induction false} TrimPads(a: string, s: string, b: string)
    requires AllWhitespace(a) && AllWhitespace(b)
    ensures Trim(a + s + b) == Trim(s)
  {
    var m := Trim(s);
    var x, y := TrimSplits(s);
    assert a + s + b == (a + x) + m + (y + b);
    assert AllWhitespace(a + x) && AllWhitespace(y + b);
    TrimIs(a + x, m, y + b);
  }

  // ----- Searching -----

  predicate At(s: string, i: nat, needle: string) {
    i + |needle| <= |s| && s[i..i + |needle|] == needle
  }

  ghost predicate Occurs(s: string, needle: string) {
    exists i: nat :: At(s, i, needle)
  }

  /** `str::find`: the first occurrence. */
  function Find(s: string, needle: string): (r: Option<nat>)
    ensures r.Some? ==> At(s, r.value, needle) && forall i: nat :: i < r.value ==> !At(s, i, needle)
    ensures r.Some? ==> r.value + |needle| <= |s|
    ensures r.None? ==> forall i: nat :: !At(s, i, needle)
  {
    FindFrom(s, needle, 0)
  }

  function FindFrom(s: string, needle: string, from: nat): (r: Option<nat>)
    ensures r.Some? ==> from <= r.value && At(s, r.value, needle) && forall i: nat :: from <= i < r.value ==> !At(s, i, needle)
    ensures r.None? ==> forall i: nat :: from <= i ==> !At(s, i, needle)
    decreases |s| - from
  {
    if At(s, from, needle) then Some(from)
    else if from >= |s| then None
    else FindFrom(s, needle, from + 1)
  }

  predicate StartsWith(s: string, prefix: string) {
    prefix <= s
  }

  predicate EndsWith(s: string, suffix: string) {
    |suffix| <= |s| && s[|s| - |suffix|..] == suffix
  }

  /** The first occurrence is the one that has none before it. */
  lemma {:induction false} FindIs(s: string, needle: string, i: nat)
    requires At(s, i, needle) && forall j: nat :: j < i ==> !At(s, j, needle)
    ensures Find(s, needle) == Some(i)
  {
  }
}
