/**
  Which values survive being written to a file as `KEY='value'` and as bare `KEY=value`; the double-quoted
  form, which every value survives, is `EnvFiles.MapRoundTrip`.
*/
module EnvValues {
  import opened Wrappers
  import opened Text
  import opened EnvFiles

  /** `KEY=text` on one line gives the key its value, whatever the text. */
  lemma {:induction false} AssignParses(key: string, text: string)
    requires IsValidKey(key)
    ensures Entry(key + "=" + text) == Some((key, ValueOf(text)))
  {
    hide Find, ValueOf, Trim, TrimStart, TrimEnd;
    var line, cut := key + "=" + text, TrimEnd(text);
    KeyChars(key);
    LineTrims(key + "=", text);
    assert (key + "=")[0] == key[0];
    assert Trim(line) == key + "=" + cut && (key + "=" + cut)[0] == key[0];
    NotExported(key, cut);
    StartStays(key + "=" + cut);
    FirstEquals(key, cut);
    assert (key + "=" + cut)[..|key|] == key && (key + "=" + cut)[|key| + 1..] == cut;
    TrimFixed(key);
    ValueTrims(text);
  }

  /** A leading `export` and whitespace make no difference to the entry. */
  lemma {:induction false} ExportParses(gap: string, key: string, text: string)
    requires IsValidKey(key) && AllWhitespace(gap)
    ensures Entry("export " + gap + key + "=" + text) == Some((key, ValueOf(text)))
  {
    hide Find, ValueOf, Trim, TrimStart, TrimEnd, IsWhitespace;
    var front, cut := "export " + gap + key + "=", TrimEnd(text);
    KeyChars(key);
    NoSpace('e', '=');
    assert front[0] == 'e' && front[|front| - 1] == '=';
    LineTrims(front, text);
    var line, body := Trim(front + text), key + "=" + cut;
    assert line == "export " + (gap + body) && line[0] == 'e';
    assert line[|EXPORT|..] == gap + body;
    assert body[0] == key[0];
    TrimStartSkips(gap, body);
    StartStays(body);
    FirstEquals(key, cut);
    assert body[..|key|] == key && body[|key| + 1..] == cut;
    TrimFixed(key);
    ValueTrims(text);
  }

  lemma {:induction false} NoSpace(c: char, d: char)
    requires c == 'e' && d == '='
    ensures !IsWhitespace(c) && !IsWhitespace(d)
  {
  }

  /** A backslash that escapes nothing. */
  ghost predicate Literal(v: string) {
    forall i :: 0 <= i < |v| - 1 && v[i] == '\\' ==> v[i + 1] !in {'"', '\\', '$', '`', 'n', 't', 'r'}
  }

  lemma {:induction false} UnescapeIff(v: string)
    ensures Unescape(v) == v <==> Literal(v)
    decreases |v|
  {
    if v != "" {
      UnescapeStep(v);
      if v[0] == '\\' && |v| >= 2 && IsEscape(v[1]) {
        UnescapeShort(v[2..]);
      } else {
        UnescapeIff(v[1..]);
        assert v == [v[0]] + v[1..];
        assert forall i :: 0 <= i < |v| - 1 ==> v[i + 1] == v[1..][i];
        if Literal(v[1..]) {
          assert forall i :: 1 <= i < |v| - 1 ==> v[i] == v[1..][i - 1];
        }
      }
    }
  }

  /** Between double quotes as they are, exactly the values whose backslashes escape nothing stand for themselves. */
  lemma {:induction false} DoubleQuotedIff(v: string)
    ensures ValueOf("\"" + v + "\"") == v <==> Literal(v)
  {
    hide Find, Unescape, Literal;
    var text := "\"" + v + "\"";
    assert text[0] == text[|text| - 1] == '"' && text[1..|text| - 1] == v;
    TrimFixed(text);
    UnescapeIff(v);
  }

  lemma {:induction false} StartStays(s: string)
    requires s != "" && !IsWhitespace(s[0])
    ensures TrimStart(s) == s
  {
  }

  /** Trimming a line that begins and whose front ends in no whitespace trims its end alone. */
  lemma {:induction false} LineTrims(front: string, text: string)
    requires front != "" && !IsWhitespace(front[0]) && !IsWhitespace(front[|front| - 1])
    ensures Trim(front + text) == front + TrimEnd(text)
  {
    hide IsWhitespace;
    StartStays(front + text);
    EndTrims(front, text);
  }

  lemma {:induction false} EndTrims(front: string, text: string)
    requires front != "" && !IsWhitespace(front[|front| - 1])
    ensures TrimEnd(front + text) == front + TrimEnd(text)
  {
    hide IsWhitespace;
    if text == "" {
      assert front + text == front && front + "" == front;
    } else {
      assert (front + text)[|front + text| - 1] == text[|text| - 1];
      assert (front + text)[..|front + text| - 1] == front + text[..|text| - 1];
      EndTrims(front, text[..|text| - 1]);
    }
  }

  /** Whitespace around a text does not change its value. */
  lemma {:induction false} ValueTrims(text: string)
    ensures ValueOf(Trim(TrimEnd(text))) == ValueOf(text)
  {
    hide Trim, TrimEnd, AllWhitespace;
    var b := TrimEndSplits(text);
    assert "" + TrimEnd(text) + b == text;
    assert AllWhitespace("") by {
      NoWhitespace();
    }
    TrimPads("", TrimEnd(text), b);
    TrimFixed(Trim(text));
    ValueOnTrim(Trim(TrimEnd(text)), text);
  }

  lemma {:induction false} NoWhitespace()
    ensures AllWhitespace("")
  {
  }

  lemma {:induction false} ValueOnTrim(a: string, b: string)
    requires Trim(a) == Trim(b)
    ensures ValueOf(a) == ValueOf(b)
  {
    hide Trim, Find, Unescape;
  }

  /** A text of one line. */
  lemma {:induction false} OneLine(key: string, text: string)
    requires IsValidKey(key) && '\n' !in text
    ensures Parse(key + "=" + text) == map[key := ValueOf(text)]
  {
    hide Find, ValueOf, Entry;
    var line := key + "=" + text;
    KeyChars(key);
    assert '\n' !in line;
    NoNewline(line);
    assert Lines(line) == [line];
    InsertOne(map[], line);
    AssignParses(key, text);
  }

  /** Every value a text gives is shorter than the text. */
  lemma {:induction false} ParseShort(text: string)
    ensures forall k :: k in Parse(text) ==> |Parse(text)[k]| < |text|
    decreases |text|
  {
    hide Find, Parse;
    if '\n' in text {
      var i := FirstLine(text);
      var a, b := text[..i], text[i + 1..];
      assert text == a + "\n" + b;
      ParseShort(a);
      ParseShort(b);
      ParseConcat(a, b);
    } else {
      OneEntry(text);
      EntryShort(text);
    }
  }

  lemma {:induction false} FirstLine(text: string) returns (i: nat)
    requires '\n' in text
    ensures i < |text| && text[i] == '\n' && '\n' !in text[..i]
  {
    i := 0;
    while text[i] != '\n'
      invariant i < |text| && '\n' in text[i..] && '\n' !in text[..i]
      decreases |text| - i
    {
      assert text[i..] == [text[i]] + text[i + 1..];
      assert text[..i + 1] == text[..i] + [text[i]];
      i := i + 1;
    }
  }

  lemma {:induction false} OneEntry(text: string)
    requires '\n' !in text
    ensures Parse(text) == Apply(map[], Entry(text))
  {
    hide Find, Entry;
    if text == "" {
      EmptyLine(map[]);
    } else {
      NoNewline(text);
      InsertOne(map[], text);
    }
  }

  lemma {:induction false} EntryShort(text: string)
    ensures Entry(text).Some? ==> |Entry(text).value.1| < |text|
  {
    hide ValueOf, IsWhitespace, TrimEnd, IsValidKey;
    var line := Trim(text);
    if line != "" {
      var body := Unexported(line);
      if Find(body, "=").Some? {
        ValueShort(Trim(body[Find(body, "=").value + 1..]));
      }
    }
  }

  lemma {:induction false} OtherValue(key: string, first: string, rest: Env, v: string)
    requires first != v && forall k :: k in rest ==> |rest[k]| < |v|
    ensures map[key := first] + rest != map[key := v]
  {
    assert key in map[key := first] + rest && (map[key := first] + rest)[key] != v;
  }

  /** Between single quotes on one line every value survives, and no other does. */
  lemma {:induction false} SingleQuotedIff(key: string, v: string)
    requires IsValidKey(key)
    ensures Parse(key + "='" + v + "'") == map[key := v] <==> '\n' !in v
  {
    hide Parse, ValueOf, IsValidKey;
    var text := "'" + v + "'";
    assert key + "='" + v + "'" == key + "=" + text;
    if '\n' in v {
      var i := FirstLine(v);
      var a, b := v[..i], v[i + 1..];
      assert v == a + "\n" + b && text == "'" + a + "\n" + (b + "'");
      assert key + "=" + text == key + "=" + ("'" + a) + "\n" + (b + "'");
      ParseConcat(key + "=" + ("'" + a), b + "'");
      OneLine(key, "'" + a);
      ParseShort(b + "'");
      ValueShort("'" + a);
      NotTheValue(a, b);
      OtherValue(key, ValueOf("'" + a), Parse(b + "'"), v);
    } else {
      OneLine(key, text);
      SingleQuoted(v);
    }
  }

  lemma {:induction false} NotTheValue(a: string, b: string)
    requires '\n' !in a
    ensures "'" + a != a + "\n" + b
  {
    assert '\n' !in "'" + a;
    assert (a + "\n" + b)[|a|] == '\n';
  }

  /** Bare, exactly the plain values on one line survive. */
  lemma {:induction false} BareIff(key: string, v: string)
    requires IsValidKey(key)
    ensures Parse(key + "=" + v) == map[key := v] <==> '\n' !in v && PlainValue(v)
  {
    hide Parse, ValueOf, IsValidKey, PlainValue;
    if '\n' in v {
      var i := FirstLine(v);
      var a, b := v[..i], v[i + 1..];
      assert v == a + "\n" + b;
      assert key + "=" + v == key + "=" + a + "\n" + b;
      ParseConcat(key + "=" + a, b);
      OneLine(key, a);
      ParseShort(b);
      ValueShort(a);
      OtherValue(key, ValueOf(a), Parse(b), v);
    } else {
      OneLine(key, v);
      BareValueIff(v);
      assert map[key := ValueOf(v)][key] == ValueOf(v) && map[key := v][key] == v;
    }
  }
}
