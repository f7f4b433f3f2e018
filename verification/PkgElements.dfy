/**
  What the inliner of src-tauri/src/pkg_html.rs does with a script element and with a stylesheet link, by what
  their URL begins with; and what the closing-tag escape leaves.
*/
module PkgElements {
  import opened Wrappers
  import opened Text
  import opened HtmlAttributes
  import opened PkgHtml

  /** A URL that names nothing below the page's own directory. */
  ghost predicate PointsElsewhere(url: string) {
    || url == "" || url[0] == '/' || url[0] == '#'
    || "http://" <= url || "https://" <= url || "data:" <= url || "blob:" <= url
    || "about:" <= url || "mailto:" <= url || "javascript:" <= url
  }

  lemma {:induction false} RelativeIff(url: string)
    ensures IsRelativeUrl(url) <==> !PointsElsewhere(url)
  {
    assert ABSOLUTE[0] == "http://" && ABSOLUTE[1] == "https://" && ABSOLUTE[2] == "data:" && ABSOLUTE[3] == "blob:";
    assert ABSOLUTE[4] == "about:" && ABSOLUTE[5] == "mailto:" && ABSOLUTE[6] == "javascript:";
  }

  ghost predicate Bare(url: string) {
    '"' !in url && '\'' !in url && '>' !in url
  }

  function ScriptTag(url: string): string {
    "<script src=\"" + url + "\">"
  }

  function LinkTag(url: string): string {
    "<link rel=\"stylesheet\" href=\"" + url + "\">"
  }

  // ----- The tags -----

  lemma {:induction false} IsOneTag(open: string, url: string)
    requires Opens(open, 0) && '>' !in open && '>' !in url
    ensures IsTag(open + url + "\">") && (AtCi(open + url + "\">", 0, SCRIPT) <==> AtCi(open, 0, SCRIPT))
  {
    hide AtCi;
    var tag := open + url + "\">";
    assert tag == open + (url + "\">") && tag[..|tag| - 1] == open + url + "\"";
    AtFits(open, 0, SCRIPT);
    AtFits(open, 0, LINK);
    AtShift(open, url + "\">", 0, SCRIPT);
    AtShift(open, url + "\">", 0, LINK);
    ShortOpener(open, url + "\">");
  }

  /** Whether a text that begins with an opener begins with `<script` shows in that opener. */
  lemma {:induction false} ShortOpener(open: string, back: string)
    requires Opens(open, 0)
    ensures AtCi(open + back, 0, SCRIPT) <==> AtCi(open, 0, SCRIPT)
  {
    hide AtCi;
    AtFits(open, 0, SCRIPT);
    AtFits(open, 0, LINK);
    AtShift(open, back, 0, SCRIPT);
    AtShift(open, back, 0, LINK);
    NotBoth(open + back, 0);
  }

  lemma {:induction false} NamesUrl(front: string, name: string, url: string)
    requires front != "" && front[|front| - 1] == ' ' && '"' !in url
    requires forall i: nat :: i < |front| ==> !AtCi(front + (name + "=\"") + url + "\"" + ">", i, name + "=\"")
    ensures ExtractAttr(front + (name + "=\"") + url + "\"" + ">", name) == Some(url)
  {
    hide AtCi, AttrSpan;
    var tag, w := front + (name + "=" + ['"']) + url + ['"'] + ">", name + "=" + ['"'];
    assert w == name + "=\"" && tag == front + (name + "=\"") + url + "\"" + ">";
    assert tag[|front|..|front| + |w|] == w;
    SameIsCi(tag, |front|, w);
    StopsAtFirst(front, name, '"', url, ">");
  }

  lemma {:induction false} SrcIs(url: string)
    requires '"' !in url
    ensures ExtractAttr(ScriptTag(url), "src") == Some(url)
  {
    hide AtCi, ExtractAttr;
    FirstIs("<script ", "src", '"', url + "\"" + ">");
    assert "<script " + ("src" + "=" + ['"']) + (url + "\"" + ">") == ScriptTag(url);
    assert "src" + "=" + ['"'] == "src=\"" && "src" + "=\"" == "src=\"";
    assert "<script " + ("src" + "=\"") + url + "\"" + ">" == ScriptTag(url);
    NamesUrl("<script ", "src", url);
  }

  lemma {:induction false} HrefIs(url: string)
    requires '"' !in url
    ensures ExtractAttr(LinkTag(url), "href") == Some(url)
  {
    hide AtCi, ExtractAttr, LowerChar;
    var front, w := "<link rel=\"stylesheet\" ", "href=\"";
    var tag := LinkTag(url);
    assert tag == front + ("href" + "=\"") + url + "\"" + ">";
    assert "href" + "=\"" == w;
    forall i: nat | i < |front|
      ensures !AtCi(tag, i, w)
    {
      if AtCi(tag, i, w) {
        CiChar(tag, i, w, 4);
        CiChar(tag, i, w, 0);
        NotEquals(tag[i + 4]);
        assert i + 4 < |front| ==> tag[i + 4] == front[i + 4];
        LinkFront(tag, url, i);
      }
    }
    NamesUrl(front, "href", url);
  }

  /** The only `=` before the name of the second attribute. */
  lemma {:induction false} LinkFront(tag: string, url: string, i: nat)
    requires tag == LinkTag(url) && i < 23 && tag[i + 4] == '='
    ensures i == 5 && LowerChar(tag[i]) != LowerChar('h')
  {
    var front := "<link rel=\"stylesheet\" href=\"";
    assert |front| == 29;
    assert tag[i + 4] == front[i + 4];
  }

  // ----- Elements -----

  lemma {:induction false} ClosesAtOnce(behind: string)
    ensures FindCi(END_SCRIPT + behind, END_SCRIPT) == Some(0)
    ensures Clear(END_SCRIPT + behind, |END_SCRIPT|)
  {
    hide FindCi, Lower, LowerChar;
    var s := END_SCRIPT + behind;
    assert s[0..|END_SCRIPT|] == END_SCRIPT;
    SameIsCi(s, 0, END_SCRIPT);
    FindCiIs(s, END_SCRIPT);
    forall i: nat | i < |END_SCRIPT|
      ensures !Opens(s, i)
    {
      if AtCi(s, i, SCRIPT) {
        CiChar(s, i, SCRIPT, 0);
        CiChar(s, i, SCRIPT, 1);
        NoOpener(s, i);
      }
      if AtCi(s, i, LINK) {
        CiChar(s, i, LINK, 0);
        CiChar(s, i, LINK, 1);
        NoOpener(s, i);
      }
    }
  }

  lemma {:induction false} NoOpener(s: string, i: nat)
    requires END_SCRIPT <= s && i < |END_SCRIPT| && i + 1 < |s|
    ensures LowerChar(s[i]) != LowerChar('<') || (LowerChar(s[i + 1]) != LowerChar('s') && LowerChar(s[i + 1]) != LowerChar('l'))
  {
    assert s[i] == END_SCRIPT[i] && (i == 0 ==> s[i + 1] == END_SCRIPT[i + 1]);
  }

  lemma {:induction false} NotModule(url: string)
    requires Bare(url)
    ensures !IsModule(ScriptTag(url))
  {
    hide FindCi, AtCi, LowerChar;
    var tag, double, single := ScriptTag(url), "type=\"module\"", "type='module'";
    LowerNeedles();
    NeedleIsCi(tag, double);
    NeedleIsCi(tag, single);
    if i: nat :| AtCi(tag, i, double) {
      CiChar(tag, i, double, 0);
      CiChar(tag, i, double, 5);
      CiChar(tag, i, double, 12);
      QuotesAt(tag[i], tag[i + 5], tag[i + 12]);
    }
    if i: nat :| AtCi(tag, i, single) {
      CiChar(tag, i, single, 5);
      QuoteAt(tag[i + 5]);
    }
  }

  lemma {:induction false} QuotesAt(a: char, b: char, c: char)
    ensures LowerChar(a) == LowerChar('t') ==> a != ' '
    ensures LowerChar(b) == LowerChar('"') ==> b == '"'
    ensures LowerChar(c) == LowerChar('"') ==> c == '"'
  {
  }

  lemma {:induction false} QuoteAt(a: char)
    ensures LowerChar(a) == LowerChar('\'') ==> a == '\''
  {
  }

  /** A needle in lower case. */
  lemma {:induction false} NeedleIsCi(tag: string, needle: string)
    requires Lower(needle) == needle
    ensures HasCi(tag, needle) <==> OccursCi(tag, needle)
  {
    hide Find, AtCi;
    FindCiIs(tag, needle);
  }

  /** Which links are stylesheets. */
  lemma {:induction false} StylesheetIff(tag: string)
    ensures IsStylesheet(tag) <==>
            OccursCi(tag, "rel=\"stylesheet\"") || OccursCi(tag, "rel='stylesheet'") || OccursCi(tag, "rel=stylesheet")
  {
    hide OccursCi, HasCi, LowerChar;
    LowerNeedles();
    NeedleIsCi(tag, "rel=\"stylesheet\"");
    NeedleIsCi(tag, "rel='stylesheet'");
    NeedleIsCi(tag, "rel=stylesheet");
  }

  lemma {:induction false} LowerNeedles()
    ensures Lower("rel=\"stylesheet\"") == "rel=\"stylesheet\""
    ensures Lower("rel='stylesheet'") == "rel='stylesheet'"
    ensures Lower("rel=stylesheet") == "rel=stylesheet"
    ensures Lower("type=\"module\"") == "type=\"module\""
    ensures Lower("type='module'") == "type='module'"
  {
  }

  lemma {:induction false} Openers(url: string)
    ensures Opens("<script src=\"", 0) && AtCi("<script src=\"", 0, SCRIPT)
    ensures Opens("<link rel=\"stylesheet\" href=\"", 0) && !AtCi("<link rel=\"stylesheet\" href=\"", 0, SCRIPT)
  {
    hide AtCi;
    var script, link := "<script src=\"", "<link rel=\"stylesheet\" href=\"";
    assert script[0..|SCRIPT|] == SCRIPT && link[0..|LINK|] == LINK;
    SameIsCi(script, 0, SCRIPT);
    SameIsCi(link, 0, LINK);
    NotBoth(link, 0);
  }

  /** A tag that stays as it is. */
  lemma {:induction false} KeptTag(tag: string, after: string, read: Reader)
    requires IsTag(tag) && TagSegment(tag, AtCi(tag, 0, SCRIPT), after, read) == Keep(tag)
    ensures Inline(tag + after, read) == tag + Inline(after, read)
  {
    hide AtCi, Inline, TagSegment, IsTag;
    InlineTagged(tag, after, read);
    assert (tag + after)[|tag|..] == after;
  }

  /**
    A script element, wherever it stands, gives way to the file its URL names, unless that begins like an
    address outside the page's directory or cannot be read; then it stays as it is.
  */
  lemma {:induction false} ScriptReplaced(before: string, url: string, behind: string, read: Reader)
    requires Bare(url) && Clear(before + (ScriptTag(url) + "</script>" + behind), |before|)
    ensures Inline(before + (ScriptTag(url) + "</script>" + behind), read)
         == before
            + (if PointsElsewhere(url) || read(url).None? then ScriptTag(url) + "</script>"
               else "<script>" + EscapeClose(read(url).value, "script") + "</script>")
            + Inline(behind, read)
  {
    hide AtCi, FindCi, Find, Inline, IsTag, Clear, Opens, ExtractAttr, IsRelativeUrl, PointsElsewhere, EscapeClose, IsModule, Bare;
    var tag, after := ScriptTag(url), "</script>" + behind;
    assert tag + "</script>" + behind == tag + after;
    InlineClear(before, tag + after, read);
    ScriptSegment(url, behind, read);
    if PointsElsewhere(url) || read(url).None? {
      KeptTag(tag, after, read);
      ClosesAtOnce(behind);
      InlineClear("</script>", behind, read);
      Pieces(before, tag, "</script>", Inline(behind, read));
    } else {
      var text := tag + "</script>";
      InlineTagged(tag, after, read);
      assert (tag + after)[|text|..] == behind;
      Pieces(before, "", "<script>" + EscapeClose(read(url).value, "script") + "</script>", Inline(behind, read));
    }
  }

  lemma {:induction false} Pieces(a: string, b: string, c: string, d: string)
    ensures a + (b + (c + d)) == a + (b + c) + d && (b == "" ==> a + (c + d) == a + c + d)
  {
    assert b == "" ==> b + (c + d) == c + d;
  }

  lemma {:induction false} ScriptSegment(url: string, behind: string, read: Reader)
    requires Bare(url)
    ensures var tag := ScriptTag(url);
            && IsTag(tag) && AtCi(tag, 0, SCRIPT)
            && TagSegment(tag, true, "</script>" + behind, read)
               == if PointsElsewhere(url) || read(url).None? then Keep(tag)
                  else Script(tag + "</script>", false, read(url).value)
  {
    hide AtCi, FindCi, ExtractAttr, IsRelativeUrl, PointsElsewhere, IsModule, Opens, IsTag;
    var tag, after := ScriptTag(url), "</script>" + behind;
    Openers(url);
    IsOneTag("<script src=\"", url);
    SrcIs(url);
    RelativeIff(url);
    NotModule(url);
    ClosesAtOnce(behind);
    assert after[..9] == "</script>";
  }

  /** A stylesheet link likewise. */
  lemma {:induction false} StylesheetReplaced(before: string, url: string, behind: string, read: Reader)
    requires Bare(url) && Clear(before + (LinkTag(url) + behind), |before|)
    ensures Inline(before + (LinkTag(url) + behind), read)
         == before
            + (if PointsElsewhere(url) || read(url).None? then LinkTag(url)
               else "<style>" + EscapeClose(read(url).value, "style") + "</style>")
            + Inline(behind, read)
  {
    hide AtCi, FindCi, Find, Inline, IsTag, Clear, Opens, ExtractAttr, IsRelativeUrl, PointsElsewhere, EscapeClose, IsStylesheet, Bare;
    var tag := LinkTag(url);
    InlineClear(before, tag + behind, read);
    LinkSegment(url, behind, read);
    InlineTagged(tag, behind, read);
    assert (tag + behind)[|tag|..] == behind;
    if PointsElsewhere(url) || read(url).None? {
      Pieces(before, "", tag, Inline(behind, read));
    } else {
      Pieces(before, "", "<style>" + EscapeClose(read(url).value, "style") + "</style>", Inline(behind, read));
    }
  }

  lemma {:induction false} LinkSegment(url: string, behind: string, read: Reader)
    requires Bare(url)
    ensures var tag := LinkTag(url);
            && IsTag(tag) && !AtCi(tag, 0, SCRIPT)
            && TagSegment(tag, false, behind, read)
               == if PointsElsewhere(url) || read(url).None? then Keep(tag) else Style(tag, read(url).value)
  {
    hide AtCi, FindCi, ExtractAttr, IsRelativeUrl, PointsElsewhere, Opens, IsTag;
    var tag := LinkTag(url);
    Openers(url);
    IsOneTag("<link rel=\"stylesheet\" href=\"", url);
    HrefIs(url);
    RelativeIff(url);
    IsSheet(url);
  }

  lemma {:induction false} LinkParts()
    ensures "<link " + "rel=\"stylesheet\"" + " href=\"" == "<link rel=\"stylesheet\" href=\""
  {
  }

  lemma {:induction false} IsSheet(url: string)
    ensures IsStylesheet(LinkTag(url))
  {
    hide AtCi;
    var tag, needle := LinkTag(url), "rel=\"stylesheet\"";
    LinkParts();
    assert tag == "<link " + needle + (" href=\"" + url + "\">");
    assert tag[6..6 + |needle|] == needle;
    SameIsCi(tag, 6, needle);
    StylesheetIff(tag);
  }

  // ----- The escape -----

  /** Up to its first closing tag a text is copied, and that tag gets a backslash. */
  lemma {:induction false} EscapeNext(front: string, tag: string, rest: string)
    requires forall i: nat :: i < |front| ==> !At(front + ("</" + tag) + rest, i, "</" + tag)
    ensures EscapeClose(front + ("</" + tag) + rest, tag) == front + "<\\/" + tag + EscapeClose(rest, tag)
    decreases |front|
  {
    hide At, EscapeClose;
    var w := "</" + tag;
    var s := front + w + rest;
    EscapeStep(s, tag);
    if front == "" {
      assert s == w + rest && s[|w|..] == rest;
    } else {
      var back := front[1..] + w + rest;
      assert s == [front[0]] + back && s[1..] == back;
      forall i: nat | i < |front| - 1
        ensures !At(back, i, w)
      {
        AtBehind([front[0]], back, i, w);
      }
      AtStart(s, w);
      EscapeNext(front[1..], tag, rest);
      assert front == [front[0]] + front[1..];
    }
  }

  lemma {:induction false} AtStart(s: string, w: string)
    ensures At(s, 0, w) <==> StartsWith(s, w)
  {
  }

  /** A text without that closing tag is copied whole. */
  lemma {:induction false} EscapeNone(s: string, tag: string)
    requires !Occurs(s, "</" + tag)
    ensures EscapeClose(s, tag) == s
  {
    hide At;
    var w := "</" + tag;
    if s != "" {
      AtStart(s, w);
      assert !At(s, 0, w);
      assert s == [s[0]] + s[1..];
      forall i: nat
        ensures !At(s[1..], i, w)
      {
        AtBehind([s[0]], s[1..], i, w);
        assert !At(s, 1 + i, w);
      }
      EscapeNone(s[1..], tag);
    }
  }
}
