/**
  Attribute lookup of src-tauri/src/pkg_html.rs: two searches for `name="` and `name='`, against a grammar of
  opening tags.
*/
module HtmlAttributes {
  import opened Wrappers
  import opened Text

  // ----- Searching -----

  /** `find_case_insensitive`. */
  function FindCi(haystack: string, needle: string): (r: Option<nat>)
    ensures r.Some? ==> r.value + |needle| <= |haystack|
  {
    Find(Lower(haystack), Lower(needle))
  }

  /** An occurrence in which ASCII case does not matter. */
  predicate AtCi(s: string, i: nat, needle: string) {
    i + |needle| <= |s| && Lower(s[i..i + |needle|]) == Lower(needle)
  }

  ghost predicate OccursCi(s: string, needle: string) {
    exists i: nat :: AtCi(s, i, needle)
  }

  lemma {:induction false} AtLower(s: string, i: nat, needle: string)
    ensures At(Lower(s), i, Lower(needle)) <==> AtCi(s, i, needle)
  {
    if i + |needle| <= |s| {
      assert Lower(s)[i..i + |needle|] == Lower(s[i..i + |needle|]);
    }
  }

  lemma {:induction false} FindCiIs(s: string, needle: string)
    ensures match FindCi(s, needle)
            case Some(p) => AtCi(s, p, needle) && forall i: nat :: i < p ==> !AtCi(s, i, needle)
            case None => !OccursCi(s, needle)
  {
    hide At, AtCi, Lower;
    forall i: nat ensures At(Lower(s), i, Lower(needle)) <==> AtCi(s, i, needle) {
      AtLower(s, i, needle);
    }
  }

  lemma {:induction false} AtFits(s: string, i: nat, needle: string)
    ensures AtCi(s, i, needle) ==> i + |needle| <= |s|
  {
  }

  /** Whether a needle stands somewhere depends on the characters there alone. */
  lemma {:induction false} AtShift(a: string, b: string, i: nat, needle: string)
    ensures AtCi(a + b, |a| + i, needle) <==> AtCi(b, i, needle)
    ensures i + |needle| <= |a| ==> (AtCi(a + b, i, needle) <==> AtCi(a, i, needle))
  {
    hide Lower;
    assert i + |needle| <= |b| ==> (a + b)[|a| + i..|a| + i + |needle|] == b[i..i + |needle|];
    assert i + |needle| <= |a| ==> (a + b)[i..i + |needle|] == a[i..i + |needle|];
  }

  // ----- The lookup -----

  predicate IsAttrSpace(c: char) { c == ' ' || c == '\t' || c == '\n' || c == '\r' }

  function Needle(name: string, quote: char): string {
    Lower(name) + "=" + [quote]
  }

  /** Where the value behind the first `name=quote` begins and ends, if that one stands alone and is closed. */
  function AttrSpan(tag: string, name: string, quote: char): (r: Option<(nat, nat)>)
    ensures r.Some? ==> r.value.0 <= r.value.1 <= |tag|
  {
    var needle := Needle(name, quote);
    match Find(Lower(tag), needle)
    case None => None
    case Some(p) =>
      if p > 0 && !IsAttrSpace(tag[p - 1]) then None
      else
        var start := p + |needle|;
        match Find(tag[start..], [quote]) case None => None case Some(end) => Some((start, start + end))
  }

  /** Double quotes are tried before single ones. */
  function ExtractSpan(tag: string, name: string): (r: Option<(nat, nat)>)
    ensures r.Some? ==> r.value.0 <= r.value.1 <= |tag|
  {
    var double := AttrSpan(tag, name, '"');
    if double.Some? then double else AttrSpan(tag, name, '\'')
  }

  function ExtractAttr(tag: string, name: string): Option<string> {
    match ExtractSpan(tag, name) case None => None case Some((start, end)) => Some(tag[start..end])
  }

  // ----- Opening tags -----

  /** One attribute, with the whitespace before it. */
  datatype Attr =
    | Quoted(gap: string, name: string, quote: char, value: string)
    | Unquoted(gap: string, name: string, value: string)
    | Flag(gap: string, name: string)

  predicate IsQuote(c: char) { c == '"' || c == '\'' }

  /** A character that attribute names and unquoted values are made of. */
  predicate IsNameChar(c: char) { !IsAttrSpace(c) && !IsQuote(c) && c != '=' && c != '>' }

  predicate IsName(s: string) {
    s != "" && forall i :: 0 <= i < |s| ==> IsNameChar(s[i])
  }

  predicate ValidAttr(a: Attr) {
    && a.gap != "" && (forall i :: 0 <= i < |a.gap| ==> IsAttrSpace(a.gap[i])) && IsName(a.name)
    && match a
       case Quoted(_, _, quote, value) => IsQuote(quote) && quote !in value
       case Unquoted(_, _, value) => IsName(value)
       case Flag(_, _) => true
  }

  function Print(a: Attr): string {
    match a
    case Quoted(gap, name, quote, value) => gap + name + "=" + [quote] + value + [quote]
    case Unquoted(gap, name, value) => gap + name + "=" + value
    case Flag(gap, name) => gap + name
  }

  function PrintAll(attrs: seq<Attr>): string {
    if attrs == [] then "" else PrintAll(attrs[..|attrs| - 1]) + Print(attrs[|attrs| - 1])
  }

  /** `<script` or the like, attributes, and `>` or ` />`. */
  datatype OpenTag = OpenTag(opener: string, attrs: seq<Attr>, end: string)

  function PrintTag(t: OpenTag): string {
    t.opener + PrintAll(t.attrs) + t.end
  }

  ghost predicate ValidTag(t: OpenTag) {
    && (forall i :: 0 <= i < |t.opener| ==> IsNameChar(t.opener[i]))
    && (forall a :: a in t.attrs ==> ValidAttr(a))
    && (forall i :: 0 <= i < |t.end| ==> !IsQuote(t.end[i]))
  }

  predicate SameName(a: string, b: string) { Lower(a) == Lower(b) }

  /** A quoted attribute of this name. */
  predicate IsNamed(a: Attr, name: string, quote: char) {
    a.Quoted? && a.quote == quote && SameName(a.name, name)
  }

  /** Where the name of attribute `k` stands. */
  function NameAt(t: OpenTag, k: nat): nat
    requires k < |t.attrs|
  {
    |t.opener| + |PrintAll(t.attrs[..k])| + |t.attrs[k].gap|
  }

  /** Where its value stands, if it is quoted. */
  function ValueSpan(t: OpenTag, k: nat): (nat, nat)
    requires k < |t.attrs| && t.attrs[k].Quoted?
  {
    var start := NameAt(t, k) + |t.attrs[k].name| + 2;
    (start, start + |t.attrs[k].value|)
  }

  // ----- What the lookup finds in any tag -----

  lemma {:induction false} NeedleIs(tag: string, name: string, quote: char)
    requires IsQuote(quote)
    ensures Find(Lower(tag), Needle(name, quote)) == FindCi(tag, name + "=" + [quote])
  {
    var needle := name + "=" + [quote];
    assert Lower(needle) == Needle(name, quote);
  }

  lemma {:induction false} PrintSplit(attrs: seq<Attr>, k: nat)
    requires k < |attrs|
    ensures exists back :: PrintAll(attrs) == PrintAll(attrs[..k]) + Print(attrs[k]) + back
  {
    hide Print;
    var init, last := attrs[..|attrs| - 1], attrs[|attrs| - 1];
    if k == |attrs| - 1 {
      assert PrintAll(attrs) == PrintAll(attrs[..k]) + Print(attrs[k]) + "";
    } else {
      PrintSplit(init, k);
      assert init[..k] == attrs[..k] && init[k] == attrs[k];
      var back :| PrintAll(init) == PrintAll(init[..k]) + Print(init[k]) + back;
      assert PrintAll(attrs) == PrintAll(attrs[..k]) + Print(attrs[k]) + (back + Print(last));
    }
  }

  /** A quoted attribute in its tag. */
  lemma {:induction false} AttrAt(t: OpenTag, k: nat) returns (front: string, back: string)
    requires k < |t.attrs| && t.attrs[k].Quoted? && ValidTag(t)
    ensures var a := t.attrs[k];
            && PrintTag(t) == front + (a.name + "=" + [a.quote]) + a.value + [a.quote] + back
            && |front| == NameAt(t, k) > 0 && IsAttrSpace(front[|front| - 1])
  {
    hide PrintAll;
    var a := t.attrs[k];
    PrintSplit(t.attrs, k);
    var rest :| PrintAll(t.attrs) == PrintAll(t.attrs[..k]) + Print(a) + rest;
    front := t.opener + PrintAll(t.attrs[..k]) + a.gap;
    back := rest + t.end;
    assert a in t.attrs;
    Regroup(t.opener, PrintAll(t.attrs[..k]), a, rest, t.end);
  }

  lemma {:induction false} Regroup(opener: string, before: string, a: Attr, rest: string, end: string)
    requires a.Quoted?
    ensures opener + (before + Print(a) + rest) + end
         == (opener + before + a.gap) + (a.name + "=" + [a.quote]) + a.value + [a.quote] + (rest + end)
  {
  }

  /** If the search stops at an attribute of the tag, it takes exactly that attribute's value. */
  lemma {:induction false} SpanAt(tag: string, front: string, name: string, quote: char, value: string, back: string)
    requires tag == front + (name + "=" + [quote]) + value + [quote] + back
    requires front != "" && IsAttrSpace(front[|front| - 1]) && quote !in value
    ensures var start := |front| + |name| + 2;
            && tag[start..start + |value|] == value
            && Find(tag[start..], [quote]) == Some(|value|)
            && tag[|front| - 1] == front[|front| - 1] && tag[start - 1] == quote
  {
    var start := |front| + |name| + 2;
    var rest := tag[start..];
    assert rest == value + [quote] + back;
    forall j: nat | j < |value|
      ensures !At(rest, j, [quote])
    {
      assert rest[j..j + 1] == [value[j]];
    }
    assert rest[|value|..|value| + 1] == [quote];
    FindIs(rest, [quote], |value|);
    assert (front + (name + "=" + [quote]))[start - 1] == quote;
  }

  /** The search with attribute `k`'s own quote takes its value exactly if it stops at that attribute. */
  lemma {:induction false} AttrSpanIff(t: OpenTag, name: string, k: nat)
    requires ValidTag(t) && k < |t.attrs| && t.attrs[k].Quoted? && SameName(t.attrs[k].name, name)
    ensures var quote := t.attrs[k].quote;
            AttrSpan(PrintTag(t), name, quote) == Some(ValueSpan(t, k))
            <==> FindCi(PrintTag(t), name + "=" + [quote]) == Some(NameAt(t, k))
    ensures var (start, end) := ValueSpan(t, k);
            && end <= |PrintTag(t)| && PrintTag(t)[start..end] == t.attrs[k].value
            && start > 0 && PrintTag(t)[start - 1] == t.attrs[k].quote
  {
    hide Find, FindCi, PrintAll, Print, NameAt, PrintTag;
    var a, tag := t.attrs[k], PrintTag(t);
    assert a in t.attrs;
    var front, back := AttrAt(t, k);
    SpanAt(tag, front, a.name, a.quote, a.value, back);
    NeedleIs(tag, name, a.quote);
    assert |a.name| == |Lower(a.name)| == |name|;
  }

  /** What a search takes stands behind the quote it looked for. */
  lemma {:induction false} SpanBehindQuote(tag: string, name: string, quote: char)
    requires IsQuote(quote) && AttrSpan(tag, name, quote).Some?
    ensures var start := AttrSpan(tag, name, quote).value.0; start > 0 && tag[start - 1] == quote
  {
    hide Find;
    var p := Find(Lower(tag), Needle(name, quote)).value;
    var n := |name| + 2;
    assert Lower(tag)[p..p + n] == Needle(name, quote);
    assert Lower(tag)[p..p + n][n - 1] == LowerChar(tag[p + n - 1]) == quote;
    NotLowered(tag[p + n - 1]);
  }

  lemma {:induction false} NotLowered(c: char)
    ensures IsQuote(LowerChar(c)) ==> LowerChar(c) == c
  {
  }

  /**
    For every tag of the grammar and every quoted attribute of the name asked for: the lookup takes that
    attribute's value, from its place, if and only if the first `name="` of the tag is that attribute, or,
    where the search for `name="` comes to nothing, the first `name='` is.
  */
  lemma {:induction false} ExtractIff(t: OpenTag, name: string, k: nat)
    requires ValidTag(t) && k < |t.attrs| && t.attrs[k].Quoted? && SameName(t.attrs[k].name, name)
    ensures var tag, quote := PrintTag(t), t.attrs[k].quote;
            ExtractSpan(tag, name) == Some(ValueSpan(t, k)) <==>
              && (quote == '\'' ==> AttrSpan(tag, name, '"') == None)
              && FindCi(tag, name + "=" + [quote]) == Some(NameAt(t, k))
    ensures ExtractSpan(PrintTag(t), name) == Some(ValueSpan(t, k)) ==>
              ExtractAttr(PrintTag(t), name) == Some(t.attrs[k].value)
  {
    hide AttrSpan, FindCi, PrintTag, NameAt;
    var tag, quote := PrintTag(t), t.attrs[k].quote;
    assert t.attrs[k] in t.attrs;
    AttrSpanIff(t, name, k);
    if AttrSpan(tag, name, '"').Some? {
      SpanBehindQuote(tag, name, '"');
    }
    if AttrSpan(tag, name, '\'').Some? {
      SpanBehindQuote(tag, name, '\'');
    }
  }

  // ----- Ordinary tags -----

  /** No other attribute's name ends with this one, and no quoted value holds it with `=` behind. */
  ghost predicate Plain(t: OpenTag, name: string) {
    forall a :: a in t.attrs ==> PlainAttr(a, name)
  }

  ghost predicate PlainAttr(a: Attr, name: string) {
    && (|a.name| > |name| ==> !SameName(a.name[|a.name| - |name|..], name))
    && (a.Quoted? ==> !OccursCi(a.value, name + "="))
  }

  /** The first attribute of this name with this quote. */
  function FirstNamed(attrs: seq<Attr>, name: string, quote: char): (r: Option<nat>)
    ensures r.Some? ==> r.value < |attrs| && IsNamed(attrs[r.value], name, quote)
                        && forall j :: 0 <= j < r.value ==> !IsNamed(attrs[j], name, quote)
    ensures r.None? ==> forall j :: 0 <= j < |attrs| ==> !IsNamed(attrs[j], name, quote)
  {
    if attrs == [] then None
    else
      var n := |attrs| - 1;
      var before := FirstNamed(attrs[..n], name, quote);
      if before.Some? then before else if IsNamed(attrs[n], name, quote) then Some(n) else None
  }

  function ValueAt(attrs: seq<Attr>, k: Option<nat>): Option<string>
    requires k.Some? ==> k.value < |attrs| && attrs[k.value].Quoted?
  {
    match k case None => None case Some(i) => Some(attrs[i].value)
  }

  /** The value the tag gives the name: of its first double-quoted attribute, else of its first single-quoted one. */
  function Meant(attrs: seq<Attr>, name: string): Option<string> {
    var double := ValueAt(attrs, FirstNamed(attrs, name, '"'));
    if double.Some? then double else ValueAt(attrs, FirstNamed(attrs, name, '\''))
  }

  lemma {:induction false} CiChar(s: string, i: nat, w: string, k: nat)
    requires AtCi(s, i, w) && k < |w|
    ensures i + k < |s| && LowerChar(s[i + k]) == LowerChar(w[k])
  {
    assert Lower(s[i..i + |w|])[k] == LowerChar(s[i..i + |w|][k]);
    assert Lower(w)[k] == LowerChar(w[k]);
  }

  lemma {:induction false} CiFront(s: string, i: nat, a: string, b: string)
    requires AtCi(s, i, a + b)
    ensures AtCi(s, i, a)
  {
    var whole := s[i..i + |a + b|];
    assert Lower(whole) == Lower(a + b);
    assert s[i..i + |a|] == whole[..|a|];
    assert Lower(whole[..|a|]) == Lower(whole)[..|a|];
    assert Lower(a) == Lower(a + b)[..|a|];
  }

  /** Lowering turns no separator into a name character and none back. */
  lemma {:induction false} ClassKept(c: char, d: char)
    requires LowerChar(c) == LowerChar(d)
    ensures IsNameChar(c) <==> IsNameChar(d)
    ensures !IsNameChar(d) ==> c == d
  {
  }

  /** The three characters of an occurrence that decide where it can be. */
  lemma {:induction false} NeedleChars(s: string, p: nat, name: string, quote: char)
    requires IsName(name) && IsQuote(quote) && AtCi(s, p, name + "=" + [quote])
    ensures p + |name| + 1 < |s| && s[p + |name|] == '=' && s[p + |name| + 1] == quote
    ensures forall i :: p <= i < p + |name| ==> IsNameChar(s[i])
  {
    hide AtCi, LowerChar, IsNameChar;
    var w := name + "=" + [quote];
    CiChar(s, p, w, |name|);
    CiChar(s, p, w, |name| + 1);
    assert w[|name|] == '=' && w[|name| + 1] == quote;
    Separators(quote);
    ClassKept(s[p + |name|], '=');
    ClassKept(s[p + |name| + 1], quote);
    forall i | p <= i < p + |name|
      ensures IsNameChar(s[i])
    {
      CiChar(s, p, w, i - p);
      ClassKept(s[p + (i - p)], name[i - p]);
    }
  }

  lemma {:induction false} Separators(quote: char)
    requires IsQuote(quote)
    ensures !IsNameChar('=') && !IsNameChar(quote)
  {
  }

  /** The characters of a printed attribute behind some text. */
  lemma {:induction false} PrintedChars(front: string, a: Attr)
    requires ValidAttr(a)
    ensures var s, g, n := front + Print(a), |front| + |a.gap|, |front| + |a.gap| + |a.name|;
            && n <= |s| && |front| < g
            && (forall i :: |front| <= i < g ==> IsAttrSpace(s[i]))
            && (forall i :: g <= i < n ==> IsNameChar(s[i])) && s[g..n] == a.name
            && (a.Flag? <==> |s| == n)
            && (!a.Flag? ==> n + 1 < |s| && s[n] == '=')
            && (a.Unquoted? ==> forall i :: n < i < |s| ==> IsNameChar(s[i]))
            && (a.Quoted? ==> s[n + 1] == a.quote && s == front + a.gap + a.name + "=" + [a.quote] + a.value + [a.quote])
  {
    hide IsAttrSpace, IsQuote, IsNameChar;
    match a
    case Quoted(gap, name, quote, value) =>
      var tail := "=" + [quote] + value + [quote];
      Middle(front, gap, name, tail);
      assert gap + name + "=" + [quote] + value + [quote] == gap + name + tail;
      assert front + (gap + name + "=" + [quote] + value + [quote]) == front + gap + name + "=" + [quote] + value + [quote];
    case Unquoted(gap, name, value) =>
      Middle(front, gap, name, "=" + value);
      assert gap + name + "=" + value == gap + name + ("=" + value);
    case Flag(gap, name) =>
      Middle(front, gap, name, "");
      assert gap + name + "" == gap + name;
  }

  lemma {:induction false} Middle(front: string, gap: string, name: string, tail: string)
    ensures var s, g, n := front + (gap + name + tail), |front| + |gap|, |front| + |gap| + |name|;
            && |s| == n + |tail| && s[g..n] == name
            && (forall i :: |front| <= i < g ==> s[i] == gap[i - |front|])
            && (forall i :: g <= i < n ==> s[i] == name[i - g])
            && (forall i :: n <= i < |s| ==> s[i] == tail[i - n])
  {
  }

  /** An occurrence that ends inside a plain attribute begins with its name. */
  lemma {:induction false} InAttr(front: string, a: Attr, name: string, quote: char, p: nat)
    requires ValidAttr(a) && PlainAttr(a, name) && IsName(name) && IsQuote(quote)
    requires AtCi(front + Print(a), p, name + "=" + [quote]) && p + |name| + 2 > |front|
    ensures IsNamed(a, name, quote) && p == |front| + |a.gap|
  {
    hide AtCi, OccursCi, SameName, Print;
    var s := front + Print(a);
    NeedleChars(s, p, name, quote);
    PrintedChars(front, a);
    var eq, g, n := p + |name|, |front| + |a.gap|, |front| + |a.gap| + |a.name|;
    assert IsAttrSpace(s[g - 1]);
    assert eq >= n && p >= g && a.Quoted?;
    if eq == n {
      SuffixNamed(s, g, a.name, name, quote, p);
    } else {
      InValue(front + a.gap + a.name + "=" + [a.quote], a.value, a.quote, name, quote, p);
    }
  }

  lemma {:induction false} SuffixNamed(s: string, g: nat, whole: string, name: string, quote: char, p: nat)
    requires AtCi(s, p, name + "=" + [quote]) && p >= g && p + |name| == g + |whole| <= |s| && s[g..g + |whole|] == whole
    requires |whole| > |name| ==> !SameName(whole[|whole| - |name|..], name)
    ensures p == g && SameName(whole, name)
  {
    assert name + "=" + [quote] == name + ("=" + [quote]);
    CiFront(s, p, name, "=" + [quote]);
    assert s[p..p + |name|] == whole[|whole| - |name|..];
    assert |whole| == |name| ==> whole[0..] == whole;
  }

  /** No occurrence ends inside a value, or with its closing quote. */
  lemma {:induction false} InValue(front: string, value: string, q: char, name: string, quote: char, p: nat)
    requires IsName(name) && IsQuote(quote) && IsQuote(q) && front != "" && front[|front| - 1] == q
    requires AtCi(front + value + [q], p, name + "=" + [quote]) && p + |name| >= |front| - 1
    ensures OccursCi(value, name + "=")
  {
    hide AtCi, OccursCi;
    var s := front + value + [q];
    NeedleChars(s, p, name, quote);
    var eq := p + |name|;
    assert s[|front| - 1] == q;
    assert p >= |front|;
    assert s == front + (value + [q]);
    CiFront(s, p, name + "=", [quote]);
    AtShift(front, value + [q], p - |front|, name + "=");
    AtShift(value, [q], p - |front|, name + "=");
    ValueOccurs(value, p - |front|, name + "=");
  }

  lemma {:induction false} ValueOccurs(value: string, i: nat, w: string)
    requires AtCi(value, i, w)
    ensures OccursCi(value, w)
  {
  }

  lemma {:induction false} PrintPush(attrs: seq<Attr>)
    requires attrs != []
    ensures PrintAll(attrs) == PrintAll(attrs[..|attrs| - 1]) + Print(attrs[|attrs| - 1])
  {
  }

  /** In a plain tag the name with `=` and a quote stands nowhere but at an attribute of that name and quote. */
  lemma {:induction false} OnlyAtAttr(opener: string, attrs: seq<Attr>, name: string, quote: char, p: nat) returns (k: nat)
    requires forall i :: 0 <= i < |opener| ==> IsNameChar(opener[i])
    requires forall a :: a in attrs ==> ValidAttr(a) && PlainAttr(a, name)
    requires IsName(name) && IsQuote(quote) && AtCi(opener + PrintAll(attrs), p, name + "=" + [quote])
    ensures k < |attrs| && IsNamed(attrs[k], name, quote)
    ensures p == |opener| + |PrintAll(attrs[..k])| + |attrs[k].gap|
  {
    hide AtCi, PlainAttr, ValidAttr, Print, PrintAll, IsNamed, IsNameChar;
    PrintNone(opener);
    HasSeparator(opener + PrintAll(attrs), p, name, quote);
    var n := |attrs| - 1;
    var init, last := attrs[..n], attrs[n];
    PrintPush(attrs);
    assert opener + PrintAll(attrs) == (opener + PrintAll(init)) + Print(last);
    if p + |name| + 2 > |opener + PrintAll(init)| {
      assert last in attrs;
      InAttr(opener + PrintAll(init), last, name, quote, p);
      k := n;
    } else {
      AtShift(opener + PrintAll(init), Print(last), p, name + "=" + [quote]);
      assert forall a :: a in init ==> a in attrs;
      k := OnlyAtAttr(opener, init, name, quote, p);
      assert init[..k] == attrs[..k];
    }
  }

  lemma {:induction false} PrintNone(opener: string)
    ensures opener + PrintAll([]) == opener
  {
  }

  lemma {:induction false} HasSeparator(s: string, p: nat, name: string, quote: char)
    requires IsName(name) && IsQuote(quote) && AtCi(s, p, name + "=" + [quote])
    ensures exists i :: 0 <= i < |s| && !IsNameChar(s[i])
  {
    hide AtCi;
    NeedleChars(s, p, name, quote);
    assert !IsNameChar(s[p + |name|]);
  }

  lemma {:induction false} EndChars(t: OpenTag)
    requires ValidTag(t)
    ensures forall i :: |t.opener + PrintAll(t.attrs)| <= i < |PrintTag(t)| ==> !IsQuote(PrintTag(t)[i])
  {
    hide PrintAll, IsQuote;
    var front := t.opener + PrintAll(t.attrs);
    assert forall i :: |front| <= i < |PrintTag(t)| ==> PrintTag(t)[i] == t.end[i - |front|];
  }

  lemma {:induction false} BeforeEnd(t: OpenTag, name: string, quote: char, p: nat)
    requires ValidTag(t) && IsName(name) && IsQuote(quote) && AtCi(PrintTag(t), p, name + "=" + [quote])
    ensures AtCi(t.opener + PrintAll(t.attrs), p, name + "=" + [quote])
  {
    hide AtCi, PrintAll, IsNameChar, IsQuote;
    var front := t.opener + PrintAll(t.attrs);
    NeedleChars(PrintTag(t), p, name, quote);
    EndChars(t);
    assert p + |name| + 2 <= |front|;
    AtShift(front, t.end, p, name + "=" + [quote]);
  }

  lemma {:induction false} NamedOccurs(t: OpenTag, name: string, k: nat)
    requires ValidTag(t) && k < |t.attrs| && t.attrs[k].Quoted? && SameName(t.attrs[k].name, name)
    ensures AtCi(PrintTag(t), NameAt(t, k), name + "=" + [t.attrs[k].quote])
  {
    hide PrintAll, Print, NameAt, PrintTag;
    var a := t.attrs[k];
    assert a in t.attrs;
    var front, back := AttrAt(t, k);
    var w, v := name + "=" + [a.quote], a.name + "=" + [a.quote];
    assert Lower(v) == Lower(a.name) + "=" + [a.quote] && Lower(w) == Lower(name) + "=" + [a.quote];
    assert PrintTag(t)[|front|..|front| + |v|] == v;
  }

  /** Later attributes stand further back. */
  lemma {:induction false} InOrder(t: OpenTag, j: nat, k: nat)
    requires j <= k < |t.attrs| && ValidTag(t)
    ensures NameAt(t, j) <= NameAt(t, k)
  {
    hide Print;
    if j < k {
      InOrder(t, j, k - 1);
      PrintPush(t.attrs[..k]);
      assert t.attrs[..k][..k - 1] == t.attrs[..k - 1];
      assert |Print(t.attrs[k - 1])| >= |t.attrs[k - 1].gap| by {
        PrintLong(t.attrs[k - 1]);
      }
    }
  }

  lemma {:induction false} PrintLong(a: Attr)
    ensures |Print(a)| >= |a.gap|
  {
  }

  /** In a plain tag the search finds the first attribute of that name and quote, or nothing. */
  lemma {:induction false} FindsFirst(t: OpenTag, name: string, quote: char)
    requires ValidTag(t) && Plain(t, name) && IsName(name) && IsQuote(quote)
    ensures FindCi(PrintTag(t), name + "=" + [quote])
         == match FirstNamed(t.attrs, name, quote) case None => None case Some(k) => Some(NameAt(t, k))
  {
    hide AtCi, FindCi, PrintTag, NameAt, FirstNamed, PlainAttr, ValidAttr, IsNameChar, IsName, PrintAll;
    var tag, w := PrintTag(t), name + "=" + [quote];
    FindCiIs(tag, w);
    match FindCi(tag, w) {
      case None =>
        if FirstNamed(t.attrs, name, quote).Some? {
          NamedOccurs(t, name, FirstNamed(t.attrs, name, quote).value);
        }
      case Some(p) =>
        BeforeEnd(t, name, quote, p);
        var k := OnlyAtAttr(t.opener, t.attrs, name, quote, p);
        assert p == NameAt(t, k) by {
          NameAtIs(t, k);
        }
        var first := FirstNamed(t.attrs, name, quote).value;
        NamedOccurs(t, name, first);
        InOrder(t, first, k);
    }
  }

  lemma {:induction false} NameAtIs(t: OpenTag, k: nat)
    requires k < |t.attrs|
    ensures NameAt(t, k) == |t.opener| + |PrintAll(t.attrs[..k])| + |t.attrs[k].gap|
  {
  }

  lemma {:induction false} PlainSearch(t: OpenTag, name: string, quote: char)
    requires ValidTag(t) && Plain(t, name) && IsName(name) && IsQuote(quote)
    ensures var span, k := AttrSpan(PrintTag(t), name, quote), FirstNamed(t.attrs, name, quote);
            && (span.None? <==> k.None?)
            && (span.Some? ==> PrintTag(t)[span.value.0..span.value.1] == t.attrs[k.value].value)
  {
    hide AtCi, FindCi, PrintTag, NameAt, FirstNamed, Plain, ValidTag, Find;
    FindsFirst(t, name, quote);
    NeedleIs(PrintTag(t), name, quote);
    if FirstNamed(t.attrs, name, quote).Some? {
      AttrSpanIff(t, name, FirstNamed(t.attrs, name, quote).value);
    }
  }

  /**
    In every plain tag the lookup answers what the tag says: the value of its first double-quoted attribute
    of that name in any case, else of its first single-quoted one, else nothing.
  */
  lemma {:induction false} PlainTag(t: OpenTag, name: string)
    requires ValidTag(t) && Plain(t, name) && IsName(name)
    ensures ExtractAttr(PrintTag(t), name) == Meant(t.attrs, name)
  {
    hide AttrSpan, PrintTag, FirstNamed, Plain, ValidTag, IsName;
    PlainSearch(t, name, '"');
    PlainSearch(t, name, '\'');
  }

  /** Where the first occurrence is the tail of something longer, the search gives up. */
  lemma {:induction false} TailHides(front: string, back: string, name: string, quote: char)
    requires IsName(name) && IsQuote(quote) && front != "" && !IsAttrSpace(front[|front| - 1])
    requires '=' !in front + name
    ensures AttrSpan(front + name + "=" + [quote] + back, name, quote) == None
  {
    hide AtCi, IsName, IsNameChar, FindCi, Find, Lower, Needle;
    var w, tag := name + "=" + [quote], front + name + "=" + [quote] + back;
    assert tag[|front|..|front| + |w|] == w && tag[|front| - 1] == front[|front| - 1];
    SameIsCi(tag, |front|, w);
    FindCiIs(tag, w);
    NeedleIs(tag, name, quote);
    var p := FindCi(tag, w).value;
    NeedleChars(tag, p, name, quote);
    assert forall i :: 0 <= i < |front + name| ==> tag[i] == (front + name)[i];
  }

  /** No occurrence comes before the first `=`. */
  lemma {:induction false} FirstIs(front: string, name: string, quote: char, back: string)
    requires IsQuote(quote) && '=' !in front && '=' !in name
    ensures var tag, w := front + (name + "=" + [quote]) + back, name + "=" + [quote];
            AtCi(tag, |front|, w) && forall i: nat :: i < |front| ==> !AtCi(tag, i, w)
  {
    hide AtCi, LowerChar;
    var w := name + "=" + [quote];
    var tag := front + w + back;
    assert tag[|front|..|front| + |w|] == w;
    SameIsCi(tag, |front|, w);
    assert forall k :: 0 <= k < |front + name| ==> tag[k] == (front + name)[k];
    forall i: nat | i < |front|
      ensures !AtCi(tag, i, w)
    {
      if AtCi(tag, i, w) {
        CiChar(tag, i, w, |name|);
        NotEquals(tag[i + |name|]);
      }
    }
  }

  lemma {:induction false} NotEquals(c: char)
    ensures LowerChar(c) == LowerChar('=') ==> c == '='
  {
  }

  /** The search stops at the first occurrence, and takes the value if that one stands alone. */
  lemma {:induction false} StopsAtFirst(front: string, name: string, quote: char, value: string, back: string)
    requires IsQuote(quote) && quote !in value
    requires var tag, w := front + (name + "=" + [quote]) + value + [quote] + back, name + "=" + [quote];
             AtCi(tag, |front|, w) && forall i: nat :: i < |front| ==> !AtCi(tag, i, w)
    ensures var tag, start := front + (name + "=" + [quote]) + value + [quote] + back, |front| + |name| + 2;
            && AttrSpan(tag, name, quote)
               == (if front == "" || front[|front| - 1] in {' ', '\t', '\n', '\r'} then Some((start, start + |value|)) else None)
            && start + |value| <= |tag| && tag[start..start + |value|] == value
  {
    hide AtCi, FindCi, Find, Lower, Needle;
    var tag, w := front + (name + "=" + [quote]) + value + [quote] + back, name + "=" + [quote];
    FindCiIs(tag, w);
    NeedleIs(tag, name, quote);
    assert |Needle(name, quote)| == |w| by {
      NeedleLength(name, quote);
    }
    ClosedAt(front + w, value, quote, back);
    assert front != "" ==> tag[|front| - 1] == front[|front| - 1];
  }

  lemma {:induction false} NeedleLength(name: string, quote: char)
    ensures |Needle(name, quote)| == |name| + 2
  {
  }

  lemma {:induction false} ClosedAt(before: string, value: string, quote: char, back: string)
    requires quote !in value
    ensures var tag, start := before + value + [quote] + back, |before|;
            tag[start..start + |value|] == value && Find(tag[start..], [quote]) == Some(|value|)
  {
    var rest := (before + value + [quote] + back)[|before|..];
    assert rest == value + [quote] + back;
    forall j: nat | j < |value|
      ensures !At(rest, j, [quote])
    {
      assert rest[j..j + 1] == [value[j]];
    }
    assert rest[|value|..|value| + 1] == [quote];
    FindIs(rest, [quote], |value|);
  }

  /**
    An attribute is found exactly if a space, a tab or a line end stands before its name, or nothing does:
    for the first `=` of a tag without single quotes.
  */
  lemma {:induction false} AloneIff(front: string, name: string, value: string, back: string)
    requires '=' !in front && '=' !in name && '"' !in value && '\'' !in front + name + value + back
    ensures ExtractAttr(front + (name + "=\"") + value + "\"" + back, name)
         == if front == "" || front[|front| - 1] in {' ', '\t', '\n', '\r'} then Some(value) else None
  {
    hide AttrSpan, AtCi;
    var tag := front + (name + "=" + ['"']) + value + ['"'] + back;
    FirstIs(front, name, '"', value + ['"'] + back);
    assert tag == front + (name + "=" + ['"']) + (value + ['"'] + back);
    StopsAtFirst(front, name, '"', value, back);
    assert tag == front + (name + "=\"") + value + "\"" + back;
    assert '\'' !in tag;
    NoQuote(tag, name, '\'');
  }

  /** A search for a quote that the tag lacks finds nothing. */
  lemma {:induction false} NoQuote(tag: string, name: string, quote: char)
    requires IsQuote(quote) && quote !in tag
    ensures AttrSpan(tag, name, quote) == None
  {
    hide AttrSpan;
    if AttrSpan(tag, name, quote).Some? {
      SpanBehindQuote(tag, name, quote);
    }
  }

  /** A `src` behind a `data-src` is not found: the first `src="` is the tail of the other name. */
  lemma {:induction false} DataSrcHides()
    ensures ExtractAttr("<script data-src=\"a\" src=\"b\">", "src") == None
  {
    hide AttrSpan;
    var front, back := "<script data-", "a\" src=\"b\">";
    var tag := "<script data-src=\"a\" src=\"b\">";
    assert tag == front + "src" + "=" + ['"'] + back;
    TailHides(front, back, "src", '"');
    assert '\'' !in front && '\'' !in back;
    NoQuote(tag, "src", '\'');
  }

  lemma {:induction false} SameIsCi(s: string, i: nat, w: string)
    requires i + |w| <= |s| && s[i..i + |w|] == w
    ensures AtCi(s, i, w)
  {
  }

  // ----- The loop over the two needles -----

  /** Whichever plain tag the text prints, the value is the one that tag gives the name. */
  method ExtractAttribute(tag: string, name: string) returns (value: Option<string>)
    ensures value == ExtractAttr(tag, name)
    ensures forall t :: PrintTag(t) == tag && ValidTag(t) && Plain(t, name) && IsName(name) ==> value == Meant(t.attrs, name)
  {
    hide Find, Lower, PrintTag, ValidTag, Plain, IsName, Meant;
    forall t | PrintTag(t) == tag && ValidTag(t) && Plain(t, name) && IsName(name)
      ensures ExtractAttr(tag, name) == Meant(t.attrs, name)
    {
      PlainTag(t, name);
    }
    var lower := Lower(tag);
    for i := 0 to 2
      invariant i > 0 ==> AttrSpan(tag, name, '"') == None
      invariant i > 1 ==> AttrSpan(tag, name, '\'') == None
    {
      var quote := if i == 0 then '"' else '\'';
      var needle := Lower(name) + "=" + [quote];
      var found := Find(lower, needle);
      if found.Some? {
        var p := found.value;
        if p > 0 {
          var prev := tag[p - 1];
          if !IsAttrSpace(prev) {
            continue;
          }
        }
        var rest := tag[p + |needle|..];
        var end := Find(rest, [quote]);
        if end.Some? {
          assert rest[..end.value] == tag[p + |needle|..p + |needle| + end.value];
          return Some(rest[..end.value]);
        }
      }
    }
    return None;
  }
}
