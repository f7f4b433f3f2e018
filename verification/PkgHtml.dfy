/**
  The subresource inliner of src-tauri/src/pkg_html.rs: a cursor over the text that replaces relative
  `<script src>` elements and stylesheet `<link>` tags by the files they name.  Reading a file is a
  parameter.
*/
module PkgHtml {
  import opened Wrappers
  import opened Text
  import opened HtmlAttributes

  /** What `read_subresource` answers for a URL. */
  type Reader = string -> Option<string>

  // ----- Escaping -----

  /** `str::replace` of `</tag` by `<\/tag`: every occurrence from the left gets a backslash. */
  function EscapeClose(s: string, tag: string): string {
    if s == "" then ""
    else if StartsWith(s, "</" + tag) then "<\\/" + tag + EscapeClose(s[|tag| + 2..], tag)
    else [s[0]] + EscapeClose(s[1..], tag)
  }

  // ----- URLs -----

  const ABSOLUTE := ["http://", "https://", "data:", "blob:", "about:", "mailto:", "javascript:"]

  /** `is_relative_url`. */
  predicate IsRelativeUrl(url: string) {
    && url != "" && url[0] != '/' && url[0] != '#'
    && forall i :: 0 <= i < |ABSOLUTE| ==> !StartsWith(url, ABSOLUTE[i])
  }

  // ----- Segments -----

  const SCRIPT := "<script"
  const LINK := "<link"
  const END_SCRIPT := "</script>"

  /** How a stretch of the input is rendered. */
  datatype Segment =
    | Keep(text: string)
    | Script(text: string, isModule: bool, content: string)
    | Style(text: string, content: string)

  function Render(seg: Segment): string {
    match seg
    case Keep(text) => text
    case Script(_, isModule, content) =>
      (if isModule then "<script type=\"module\">" else "<script>") + EscapeClose(content, "script") + END_SCRIPT
    case Style(_, content) => "<style>" + EscapeClose(content, "style") + "</style>"
  }

  function RenderAll(segs: seq<Segment>): string {
    if segs == [] then "" else Render(segs[0]) + RenderAll(segs[1..])
  }

  function TextAll(segs: seq<Segment>): string {
    if segs == [] then "" else segs[0].text + TextAll(segs[1..])
  }

  /** The next tag of either kind: where it starts and whether it is a script. */
  function NextTag(rest: string): (r: Option<(nat, bool)>)
    ensures r.Some? ==> r.value.0 + 5 <= |rest|
  {
    match (FindCi(rest, SCRIPT), FindCi(rest, LINK))
    case (Some(s), Some(l)) => if s <= l then Some((s, true)) else Some((l, false))
    case (Some(s), None) => Some((s, true))
    case (None, Some(l)) => Some((l, false))
    case (None, None) => None
  }

  predicate HasCi(tag: string, needle: string) {
    Find(Lower(tag), needle).Some?
  }

  predicate IsModule(tag: string) {
    HasCi(tag, "type=\"module\"") || HasCi(tag, "type='module'")
  }

  predicate IsStylesheet(tag: string) {
    HasCi(tag, "rel=\"stylesheet\"") || HasCi(tag, "rel='stylesheet'") || HasCi(tag, "rel=stylesheet")
  }

  /** The content of the file a tag names, if the attribute is relative and the file can be read. */
  function Named(tag: string, attr: string, read: Reader): Option<string> {
    match ExtractAttr(tag, attr)
    case None => None
    case Some(url) => if IsRelativeUrl(url) then read(url) else None
  }

  /** The segment that starts at an opening tag; `after` is the text behind the tag. */
  function TagSegment(tag: string, isScript: bool, after: string, read: Reader): (seg: Segment)
    ensures tag <= seg.text && seg.text <= tag + after
  {
    if isScript then
      match (FindCi(after, END_SCRIPT), Named(tag, "src", read))
      case (Some(close), Some(content)) => Script(tag + after[..close + |END_SCRIPT|], IsModule(tag), content)
      case _ => Keep(tag)
    else
      match (IsStylesheet(tag), Named(tag, "href", read))
      case (true, Some(content)) => Style(tag, content)
      case _ => Keep(tag)
  }

  /** The whole text cut into segments. */
  function Segments(html: string, read: Reader): seq<Segment>
    decreases |html|
  {
    if html == "" then []
    else match NextTag(html)
         case None => [Keep(html)]
         case Some((start, isScript)) =>
           match Find(html[start..], ">")
           case None => [Keep(html[..start]), Keep(html[start..])]
           case Some(p) =>
             var tag := html[start..start + p + 1];
             var after := html[start + p + 1..];
             var seg := TagSegment(tag, isScript, after, read);
             [Keep(html[..start]), seg] + Segments(html[start + |seg.text|..], read)
  }

  function Inline(html: string, read: Reader): string {
    RenderAll(Segments(html, read))
  }

  /** The cursor loop. */
  method InlineSubresources(html: string, read: Reader) returns (out: string)
    ensures out == Inline(html, read)
  {
    hide *;
    out := "";
    var cursor := 0;
    assert html[0..] == html && "" + Inline(html, read) == Inline(html, read);
    while cursor < |html|
      invariant cursor <= |html|
      invariant out + Inline(html[cursor..], read) == Inline(html, read)
      decreases |html| - cursor
    {
      var rest := html[cursor..];
      InlineStep(rest, read);
      var next := NextTag(rest);
      if next.None? {
        out := out + rest;
        return;
      }
      var (tagRel, isScript) := next.value;
      ghost var before := out;
      out := out + rest[..tagRel];
      var openEnd := Find(rest[tagRel..], ">");
      if openEnd.None? {
        Append(before, rest[..tagRel], rest[tagRel..], "");
        out := out + rest[tagRel..];
        return;
      }
      var openTag := rest[tagRel..tagRel + openEnd.value + 1];
      var after := rest[tagRel + openEnd.value + 1..];
      var piece, length := InlineTag(openTag, isScript, after, read);
      Append(before, rest[..tagRel], piece, Inline(rest[tagRel + length..], read));
      out := out + piece;
      assert rest[tagRel + length..] == html[cursor + tagRel + length..];
      cursor := cursor + tagRel + length;
    }
    assert html[cursor..] == "";
    InlineNothing(read);
  }

  lemma {:induction false} Append(out: string, a: string, b: string, c: string)
    ensures out + (a + b) == (out + a) + b
    ensures out + (a + b + c) == ((out + a) + b) + c
  {
  }

  lemma {:induction false} InlineNothing(read: Reader)
    ensures Inline("", read) == ""
  {
  }

  /** What one opening tag is replaced by, and how much of the input that covers. */
  method InlineTag(openTag: string, isScript: bool, after: string, read: Reader) returns (piece: string, length: nat)
    ensures var seg := TagSegment(openTag, isScript, after, read); piece == Render(seg) && length == |seg.text|
    ensures |openTag| <= length <= |openTag| + |after|
  {
    hide Find, FindCi, Lower, ExtractAttr, EscapeClose;
    if isScript {
      var src := ExtractAttribute(openTag, "src");
      if src.Some? && IsRelativeUrl(src.value) {
        var close := FindCi(after, END_SCRIPT);
        if close.Some? {
          var content := read(src.value);
          if content.Some? {
            var lower := Lower(openTag);
            var isModule := Find(lower, "type=\"module\"").Some? || Find(lower, "type='module'").Some?;
            piece := if isModule then "<script type=\"module\">" else "<script>";
            piece := piece + EscapeClose(content.value, "script");
            piece := piece + END_SCRIPT;
            return piece, |openTag| + close.value + |END_SCRIPT|;
          }
        }
      }
      return openTag, |openTag|;
    } else {
      if IsStylesheet(openTag) {
        var href := ExtractAttribute(openTag, "href");
        if href.Some? && IsRelativeUrl(href.value) {
          var content := read(href.value);
          if content.Some? {
            piece := "<style>" + EscapeClose(content.value, "style") + "</style>";
            return piece, |openTag|;
          }
        }
      }
      return openTag, |openTag|;
    }
  }

  lemma {:induction false} RenderFront(a: Segment, b: Segment, segs: seq<Segment>)
    ensures RenderAll([a]) == Render(a)
    ensures RenderAll([a, b]) == Render(a) + Render(b)
    ensures RenderAll([a, b] + segs) == Render(a) + Render(b) + RenderAll(segs)
  {
    hide Render;
    assert [a][1..] == [] && [a, b][1..] == [b] && [b][1..] == [];
    var all := [a, b] + segs;
    assert all[1..] == [b] + segs && ([b] + segs)[1..] == segs;
    assert RenderAll([]) == "";
    assert RenderAll([b]) == Render(b);
  }

  lemma {:induction false} SegmentsStep(rest: string, read: Reader)
    requires rest != ""
    ensures match NextTag(rest)
            case None => Segments(rest, read) == [Keep(rest)]
            case Some((start, isScript)) =>
              match Find(rest[start..], ">")
              case None => Segments(rest, read) == [Keep(rest[..start]), Keep(rest[start..])]
              case Some(p) =>
                var seg := TagSegment(rest[start..start + p + 1], isScript, rest[start + p + 1..], read);
                Segments(rest, read) == [Keep(rest[..start]), seg] + Segments(rest[start + |seg.text|..], read)
  {
    hide Find, FindCi, NextTag, TagSegment;
  }

  lemma {:induction false} InlineStep(rest: string, read: Reader)
    requires rest != ""
    ensures match NextTag(rest)
            case None => Inline(rest, read) == rest
            case Some((start, isScript)) =>
              match Find(rest[start..], ">")
              case None => Inline(rest, read) == rest[..start] + rest[start..]
              case Some(p) =>
                var seg := TagSegment(rest[start..start + p + 1], isScript, rest[start + p + 1..], read);
                Inline(rest, read) == rest[..start] + Render(seg) + Inline(rest[start + |seg.text|..], read)
  {
    hide Find, FindCi, NextTag, TagSegment, RenderAll, Segments;
    SegmentsStep(rest, read);
    match NextTag(rest)
    case None =>
      RenderFront(Keep(rest), Keep(rest), []);
    case Some((start, isScript)) =>
      match Find(rest[start..], ">") {
        case None =>
          RenderFront(Keep(rest[..start]), Keep(rest[start..]), []);
        case Some(p) =>
          var seg := TagSegment(rest[start..start + p + 1], isScript, rest[start + p + 1..], read);
          RenderFront(Keep(rest[..start]), seg, Segments(rest[start + |seg.text|..], read));
      }
  }

  // ----- What a faithful inlining is, without cursors or searches -----

  /** A script or link tag starts here. */
  predicate Opens(s: string, i: nat) {
    AtCi(s, i, SCRIPT) || AtCi(s, i, LINK)
  }

  /** No script or link tag starts in the first `n` characters. */
  ghost predicate Clear(s: string, n: nat) {
    forall i: nat :: i < n ==> !Opens(s, i)
  }

  /** From an opener to the first `>` behind it. */
  ghost predicate IsTag(tag: string) {
    Opens(tag, 0) && tag[|tag| - 1] == '>' && '>' !in tag[..|tag| - 1]
  }

  /** The text of a script element: its opening tag up to the first closing tag. */
  ghost predicate IsElement(text: string, tag: string) {
    && tag <= text && |tag| + |END_SCRIPT| <= |text|
    && var inner := text[|tag|..];
    var body := |inner| - |END_SCRIPT|;
    AtCi(inner, body, END_SCRIPT) && forall i: nat :: i < body ==> !AtCi(inner, i, END_SCRIPT)
  }

  /** This tag is to be replaced. */
  ghost predicate Replaceable(tag: string, behind: string, read: Reader) {
    if AtCi(tag, 0, SCRIPT) then Named(tag, "src", read).Some? && OccursCi(behind, END_SCRIPT)
    else IsStylesheet(tag) && Named(tag, "href", read).Some?
  }

  /** A segment that is right where it stands. */
  ghost predicate SegmentOk(seg: Segment, behind: string, read: Reader) {
    match seg
    case Keep(text) =>
      || Clear(text + behind, |text|)
      || (IsTag(text) && !Replaceable(text, behind, read))
      || (Opens(text, 0) && '>' !in text && behind == "")
    case Script(text, isModule, content) =>
      exists tag :: IsTag(tag) && AtCi(tag, 0, SCRIPT) && IsElement(text, tag)
                    && Named(tag, "src", read) == Some(content) && isModule == IsModule(tag)
    case Style(text, content) =>
      IsTag(text) && !AtCi(text, 0, SCRIPT) && IsStylesheet(text) && Named(text, "href", read) == Some(content)
  }

  ghost predicate Faithful(segs: seq<Segment>, read: Reader) {
    segs == [] || (SegmentOk(segs[0], TextAll(segs[1..]), read) && Faithful(segs[1..], read))
  }

  // ----- The searches find what the definition above names -----

  lemma {:induction false} NextTagIs(s: string)
    ensures match NextTag(s)
            case Some((p, isScript)) => Clear(s, p) && Opens(s, p) && isScript == AtCi(s, p, SCRIPT)
            case None => Clear(s, |s|)
  {
    hide AtCi, FindCi;
    FindCiIs(s, SCRIPT);
    FindCiIs(s, LINK);
    forall i: nat ensures !(AtCi(s, i, SCRIPT) && AtCi(s, i, LINK)) {
      NotBoth(s, i);
    }
  }

  lemma {:induction false} NotBoth(s: string, i: nat)
    ensures !(AtCi(s, i, SCRIPT) && AtCi(s, i, LINK))
  {
    assert AtCi(s, i, SCRIPT) ==> LowerChar(s[i + 1]) == Lower(s[i..i + 7])[1] == Lower(SCRIPT)[1] == 's';
    assert AtCi(s, i, LINK) ==> LowerChar(s[i + 1]) == Lower(s[i..i + 5])[1] == Lower(LINK)[1] == 'l';
  }

  /** An opener is a tag as far as the first `>`. */
  lemma {:induction false} TagAt(rest: string, p: nat)
    requires Opens(rest, 0) && Find(rest, ">") == Some(p)
    ensures IsTag(rest[..p + 1]) && (AtCi(rest, 0, SCRIPT) <==> AtCi(rest[..p + 1], 0, SCRIPT))
  {
    hide AtCi;
    var tag, after := rest[..p + 1], rest[p + 1..];
    forall i: nat | i < p ensures rest[i] != '>' {
      assert !At(rest, i, ">");
      assert rest[i..i + 1] == [rest[i]];
    }
    assert rest[p..p + 1] == [rest[p]];
    LongOpener(rest, p, SCRIPT);
    LongOpener(rest, p, LINK);
    assert rest == tag + after;
    AtShift(tag, after, 0, SCRIPT);
    AtShift(tag, after, 0, LINK);
    assert forall i :: 0 <= i < p ==> tag[..|tag| - 1][i] == rest[i];
  }

  lemma {:induction false} LongOpener(rest: string, p: nat, needle: string)
    requires p < |rest| && rest[p] == '>' && '>' !in needle
    ensures AtCi(rest, 0, needle) ==> |needle| <= p
    ensures AtCi(rest[..p + 1], 0, needle) ==> AtCi(rest, 0, needle)
  {
    assert AtCi(rest, 0, needle) && p < |needle| ==>
        LowerChar(rest[p]) == Lower(rest[0..|needle|])[p] == Lower(needle)[p] == LowerChar(needle[p]);
    assert p < |needle| ==> needle[p] != '>';
    assert |needle| <= p + 1 ==> rest[..p + 1][0..|needle|] == rest[0..|needle|];
  }

  /** The first `>` of a text that begins with a tag closes that tag. */
  lemma {:induction false} TagCloses(tag: string, after: string)
    requires IsTag(tag)
    ensures Find(tag + after, ">") == Some(|tag| - 1)
    ensures Opens(tag + after, 0) && (AtCi(tag, 0, SCRIPT) <==> AtCi(tag + after, 0, SCRIPT))
  {
    var s := tag + after;
    assert s[|tag| - 1..|tag|] == ">";
    forall i: nat | i < |tag| - 1 ensures !At(s, i, ">") {
      assert tag[i] == tag[..|tag| - 1][i];
      assert s[i..i + 1] == [tag[i]];
    }
    FindIs(s, ">", |tag| - 1);
    AtShift(tag, after, 0, SCRIPT);
    AtShift(tag, after, 0, LINK);
    LongOpener(s, |tag| - 1, SCRIPT);
    assert s[..|tag|] == tag;
  }

  // ----- The segments are faithful -----

  lemma {:induction false} TagSegmentOk(tag: string, isScript: bool, after: string, read: Reader)
    requires IsTag(tag) && isScript == AtCi(tag, 0, SCRIPT)
    ensures var seg := TagSegment(tag, isScript, after, read);
            SegmentOk(seg, after[|seg.text| - |tag|..], read) && seg.text + after[|seg.text| - |tag|..] == tag + after
  {
    hide FindCi, Named, IsStylesheet, IsModule, AtCi, IsElement, IsTag;
    var seg := TagSegment(tag, isScript, after, read);
    FindCiIs(after, END_SCRIPT);
    if seg.Script? {
      var p := FindCi(after, END_SCRIPT).value;
      ElementAt(tag, after, p);
      assert seg.text == tag + after[..p + |END_SCRIPT|];
    } else {
      assert seg.text == tag && after[0..] == after;
    }
  }

  lemma {:induction false} ElementAt(tag: string, after: string, p: nat)
    requires AtCi(after, p, END_SCRIPT) && forall i: nat :: i < p ==> !AtCi(after, i, END_SCRIPT)
    ensures p + |END_SCRIPT| <= |after| && IsElement(tag + after[..p + |END_SCRIPT|], tag)
  {
    hide AtCi;
    AtFits(after, p, END_SCRIPT);
    var inner, behind := after[..p + |END_SCRIPT|], after[p + |END_SCRIPT|..];
    assert after == inner + behind && (tag + inner)[|tag|..] == inner;
    forall i: nat | i <= p ensures AtCi(inner, i, END_SCRIPT) <==> AtCi(after, i, END_SCRIPT) {
      AtShift(inner, behind, i, END_SCRIPT);
    }
  }

  lemma {:induction false} TextFront(a: Segment, b: Segment, segs: seq<Segment>)
    ensures TextAll([a]) == a.text
    ensures TextAll([a, b]) == a.text + b.text
    ensures TextAll([a, b] + segs) == a.text + (b.text + TextAll(segs))
  {
    assert [a][1..] == [] && [a, b][1..] == [b] && [b][1..] == [];
    var all := [a, b] + segs;
    assert all[1..] == [b] + segs && ([b] + segs)[1..] == segs;
    assert TextAll([]) == "";
    assert TextAll([b]) == b.text;
  }

  lemma {:induction false} FaithfulFront(a: Segment, b: Segment, segs: seq<Segment>, read: Reader)
    requires Faithful(segs, read) && SegmentOk(b, TextAll(segs), read)
    requires SegmentOk(a, b.text + TextAll(segs), read)
    ensures Faithful([a, b] + segs, read)
  {
    hide SegmentOk;
    var all := [a, b] + segs;
    assert all[1..] == [b] + segs && ([b] + segs)[1..] == segs;
    assert Faithful([b] + segs, read);
  }

  lemma {:induction false} GapOk(gap: string, rest: string, read: Reader)
    requires Clear(gap + rest, |gap|)
    ensures SegmentOk(Keep(gap), rest, read)
  {
  }

  /** A gap and the segment behind it, in front of faithful segments. */
  lemma {:induction false} Prepend(gap: string, seg: Segment, segs: seq<Segment>, behind: string, read: Reader)
    requires TextAll(segs) == behind && Faithful(segs, read) && SegmentOk(seg, behind, read)
    requires Clear(gap + (seg.text + behind), |gap|)
    ensures TextAll([Keep(gap), seg] + segs) == gap + (seg.text + behind) && Faithful([Keep(gap), seg] + segs, read)
  {
    hide *;
    GapOk(gap, seg.text + behind, read);
    TextFront(Keep(gap), seg, segs);
    FaithfulFront(Keep(gap), seg, segs, read);
  }

  /** The segments are the whole text in order, and each of them is right where it stands. */
  lemma {:induction false} SegmentsFaithful(html: string, read: Reader)
    ensures TextAll(Segments(html, read)) == html && Faithful(Segments(html, read), read)
    decreases |html|
  {
    hide At, AtCi, Find, NextTag, TagSegment, SegmentOk, Opens, Faithful, TextAll, IsTag, Clear;
    NothingOk(read);
    if html != "" {
      NextTagIs(html);
      match NextTag(html)
      case None =>
        ClearOk(html, read);
      case Some((start, isScript)) =>
        var gap, rest := html[..start], html[start..];
        assert html == gap + rest;
        OpensRest(gap, rest);
        match Find(rest, ">") {
          case None =>
            TailOk(rest, read);
            assert rest + "" == rest;
            Prepend(gap, Keep(rest), [], "", read);
            assert [Keep(gap), Keep(rest)] + [] == [Keep(gap), Keep(rest)];
          case Some(p) =>
            var tag, after := html[start..start + p + 1], html[start + p + 1..];
            TagAt(rest, p);
            assert tag == rest[..p + 1] && after == rest[p + 1..] && rest == tag + after;
            TagSegmentOk(tag, isScript, after, read);
            var seg := TagSegment(tag, isScript, after, read);
            var behind := html[start + |seg.text|..];
            assert behind == after[|seg.text| - |tag|..];
            SegmentsFaithful(behind, read);
            Prepend(gap, seg, Segments(behind, read), behind, read);
        }
    }
  }

  lemma {:induction false} NothingOk(read: Reader)
    ensures TextAll([]) == "" && Faithful([], read)
  {
  }

  lemma {:induction false} ClearOk(html: string, read: Reader)
    requires Clear(html, |html|)
    ensures TextAll([Keep(html)]) == html && Faithful([Keep(html)], read)
  {
    hide SegmentOk;
    assert [Keep(html)][1..] == [] && html + "" == html;
    GapOk(html, "", read);
  }

  lemma {:induction false} OpensRest(gap: string, rest: string)
    ensures Opens(gap + rest, |gap|) <==> Opens(rest, 0)
    ensures AtCi(gap + rest, |gap|, SCRIPT) <==> AtCi(rest, 0, SCRIPT)
  {
    hide AtCi;
    AtShift(gap, rest, 0, SCRIPT);
    AtShift(gap, rest, 0, LINK);
  }

  lemma {:induction false} TailOk(rest: string, read: Reader)
    requires Opens(rest, 0) && Find(rest, ">") == None
    ensures SegmentOk(Keep(rest), "", read)
  {
    hide Opens, IsTag, Replaceable;
    NoClose(rest);
  }

  lemma {:induction false} NoClose(rest: string)
    ensures Find(rest, ">") == None <==> '>' !in rest
  {
    assert forall i: nat {:trigger At(rest, i, ">")} :: At(rest, i, ">") ==> rest[i] == rest[i..i + 1][0] == '>';
    assert forall i: nat {:trigger rest[i]} :: i < |rest| && rest[i] == '>' ==> rest[i..i + 1] == ">" && At(rest, i, ">");
  }

  // ----- Every faithful inlining is the one the loop computes -----

  /** Text in which no tag starts passes through. */
  lemma {:induction false} InlineClear(s: string, behind: string, read: Reader)
    requires Clear(s + behind, |s|)
    ensures Inline(s + behind, read) == s + Inline(behind, read)
  {
    hide At, AtCi, Find, FindCi, Inline, NextTag, TagSegment, Render, Opens;
    var html := s + behind;
    if behind == "" {
      assert html == s;
      InlineNothing(read);
      if s != "" {
        InlineStep(s, read);
        NextTagIs(s);
      }
    } else {
      InlineStep(html, read);
      InlineStep(behind, read);
      NextTagShift(s, behind);
      if NextTag(behind).Some? {
        var start := NextTag(behind).value.0;
        assert html[|s| + start..] == behind[start..];
        assert html[..|s| + start] == s + behind[..start];
        match Find(behind[start..], ">")
        case None =>
          assert s + behind[..start] + behind[start..] == s + (behind[..start] + behind[start..]);
        case Some(p) =>
          Same(s, behind, start, p);
          var seg := TagSegment(behind[start..start + p + 1], NextTag(behind).value.1, behind[start + p + 1..], read);
          Same(s, behind, start, |seg.text|);
          Append("", s, behind[..start], "");
          Regroup(s, behind[..start], Render(seg), Inline(behind[start + |seg.text|..], read));
      }
    }
  }

  lemma {:induction false} Same(s: string, behind: string, start: nat, n: nat)
    ensures start + n <= |behind| ==> (s + behind)[|s| + start + n..] == behind[start + n..]
    ensures start + n + 1 <= |behind| ==>
              && (s + behind)[|s| + start..|s| + start + n + 1] == behind[start..start + n + 1]
              && (s + behind)[|s| + start + n + 1..] == behind[start + n + 1..]
  {
  }

  lemma {:induction false} Regroup(s: string, a: string, b: string, c: string)
    ensures s + a + b + c == s + (a + b + c)
  {
  }

  lemma {:induction false} NextTagShift(s: string, behind: string)
    requires Clear(s + behind, |s|)
    ensures match NextTag(behind)
            case None => NextTag(s + behind) == None
            case Some((start, isScript)) => NextTag(s + behind) == Some((|s| + start, isScript))
  {
    hide AtCi, NextTag;
    var html := s + behind;
    NextTagIs(html);
    NextTagIs(behind);
    forall i: nat
      ensures Opens(html, |s| + i) <==> Opens(behind, i)
      ensures AtCi(html, |s| + i, SCRIPT) <==> AtCi(behind, i, SCRIPT)
    {
      AtShift(s, behind, i, SCRIPT);
      AtShift(s, behind, i, LINK);
    }
    if NextTag(html).Some? {
      var p := NextTag(html).value.0;
      assert p >= |s|;
      assert Opens(html, |s| + (p - |s|));
      assert Opens(behind, p - |s|);
    }
    if NextTag(behind).Some? {
      var start := NextTag(behind).value.0;
      assert Opens(html, |s| + start);
    }
  }

  /** The segment that is right at an opener is the one the loop computes there. */
  lemma {:induction false} TagSegmentUnique(seg: Segment, behind: string, read: Reader)
    requires SegmentOk(seg, behind, read) && !Clear(seg.text + behind, |seg.text|)
    requires '>' in seg.text + behind
    ensures exists tag :: IsTag(tag) && tag <= seg.text
                          && TagSegment(tag, AtCi(tag, 0, SCRIPT), (seg.text + behind)[|tag|..], read) == seg
  {
    hide AtCi, FindCi, Named, IsStylesheet, IsModule, IsElement, Opens;
    match seg
    case Keep(text) =>
      assert (text + behind)[|text|..] == behind;
      FindCiIs(behind, END_SCRIPT);
    case Style(text, content) =>
      assert (text + behind)[|text|..] == behind;
    case Script(text, isModule, content) =>
      var tag :| IsTag(tag) && AtCi(tag, 0, SCRIPT) && IsElement(text, tag)
                 && Named(tag, "src", read) == Some(content) && isModule == IsModule(tag);
      ElementFound(text, tag, behind);
  }

  lemma {:induction false} ElementFound(text: string, tag: string, behind: string)
    requires IsElement(text, tag)
    ensures tag <= text
    ensures var after := (text + behind)[|tag|..];
            match FindCi(after, END_SCRIPT)
            case None => false
            case Some(p) => p + |END_SCRIPT| <= |after| && text == tag + after[..p + |END_SCRIPT|]
  {
    hide AtCi, FindCi;
    var inner, after := text[|tag|..], (text + behind)[|tag|..];
    var body: nat := |inner| - |END_SCRIPT|;
    assert after == inner + behind && text == tag + inner && after[..|inner|] == inner;
    forall i: nat | i <= body ensures AtCi(inner, i, END_SCRIPT) <==> AtCi(after, i, END_SCRIPT) {
      AtShift(inner, behind, i, END_SCRIPT);
    }
    FindCiIs(after, END_SCRIPT);
  }

  lemma {:induction false} InlineTagged(tag: string, after: string, read: Reader)
    requires IsTag(tag)
    ensures var seg := TagSegment(tag, AtCi(tag, 0, SCRIPT), after, read);
            Inline(tag + after, read) == Render(seg) + Inline((tag + after)[|seg.text|..], read)
  {
    hide AtCi, FindCi, Find, Inline, TagSegment, Render, NextTag;
    var html := tag + after;
    TagCloses(tag, after);
    NextTagIs(html);
    InlineStep(html, read);
    assert html[0..] == html && html[..0] == "" && html[0..|tag|] == tag && html[|tag|..] == after;
    var seg := TagSegment(tag, AtCi(tag, 0, SCRIPT), after, read);
    assert "" + Render(seg) == Render(seg);
  }

  /** A segment that is not plain text begins with an opener, and unless it is the unclosed tail it holds a `>`. */
  lemma {:induction false} SegmentOpens(seg: Segment, behind: string, read: Reader)
    requires SegmentOk(seg, behind, read) && !(seg.Keep? && Clear(seg.text + behind, |seg.text|))
    ensures !Clear(seg.text + behind, |seg.text|) && Opens(seg.text + behind, 0)
    ensures '>' in seg.text || (seg.Keep? && behind == "")
  {
    hide AtCi, Named, IsModule, IsStylesheet, Replaceable;
    match seg
    case Keep(text) =>
      TagBegins(text, text, "", behind);
    case Style(text, _) =>
      TagBegins(text, text, "", behind);
    case Script(text, isModule, content) =>
      var tag :| IsTag(tag) && AtCi(tag, 0, SCRIPT) && IsElement(text, tag)
                 && Named(tag, "src", read) == Some(content) && isModule == IsModule(tag);
      ElementBegins(text, tag);
      TagBegins(text, tag, text[|tag|..], behind);
  }

  lemma {:induction false} TagBegins(text: string, tag: string, back: string, behind: string)
    requires text == tag + back
    ensures Opens(tag, 0) ==> |tag| > 0 && Opens(text + behind, 0)
    ensures IsTag(tag) ==> '>' in text
  {
    hide AtCi;
    assert text + behind == tag + (back + behind);
    AtShift(tag, back + behind, 0, SCRIPT);
    AtShift(tag, back + behind, 0, LINK);
    AtFits(tag, 0, SCRIPT);
    AtFits(tag, 0, LINK);
    assert |tag| > 0 ==> text[|tag| - 1] == tag[|tag| - 1];
  }

  lemma {:induction false} ElementBegins(text: string, tag: string)
    requires IsElement(text, tag)
    ensures tag <= text && text == tag + text[|tag|..]
  {
    hide AtCi;
  }

  lemma {:induction false} InlineTail(rest: string, read: Reader)
    requires Opens(rest, 0) && '>' !in rest
    ensures Inline(rest, read) == rest
  {
    hide AtCi, Inline, Segments, NextTag, TagSegment, Find;
    NoClose(rest);
    AtFits(rest, 0, SCRIPT);
    AtFits(rest, 0, LINK);
    NextTagIs(rest);
    InlineStep(rest, read);
    assert rest[0..] == rest && rest[..0] == "" && "" + rest == rest;
  }

  /** Any faithful segments render to what the loop produces. */
  lemma {:induction false} FaithfulRenders(segs: seq<Segment>, read: Reader)
    requires Faithful(segs, read)
    ensures RenderAll(segs) == Inline(TextAll(segs), read)
    decreases |segs|
  {
    hide SegmentOk, Inline, Render, TagSegment, AtCi, IsTag, Opens;
    if segs == [] {
      InlineNothing(read);
    } else {
      FaithfulRenders(segs[1..], read);
      var seg, behind := segs[0], TextAll(segs[1..]);
      SegmentRenders(seg, behind, read);
    }
  }

  lemma {:induction false} SegmentRenders(seg: Segment, behind: string, read: Reader)
    requires SegmentOk(seg, behind, read)
    ensures Inline(seg.text + behind, read) == Render(seg) + Inline(behind, read)
  {
    hide Inline, TagSegment, AtCi, IsTag, Replaceable, IsElement, Named, IsModule, IsStylesheet, EscapeClose, Clear;
    var html := seg.text + behind;
    if seg.Keep? && Clear(html, |seg.text|) {
      InlineClear(seg.text, behind, read);
    } else {
      SegmentOpens(seg, behind, read);
      if '>' in html {
        TagSegmentUnique(seg, behind, read);
        var tag :| IsTag(tag) && tag <= seg.text && TagSegment(tag, AtCi(tag, 0, SCRIPT), html[|tag|..], read) == seg;
        assert html == tag + html[|tag|..] && html[|seg.text|..] == behind;
        InlineTagged(tag, html[|tag|..], read);
      } else {
        assert html == seg.text + "" == seg.text;
        InlineTail(html, read);
        InlineNothing(read);
        assert seg.text + "" == seg.text;
      }
    }
  }

  ghost predicate IsInlining(html: string, segs: seq<Segment>, read: Reader, out: string) {
    Faithful(segs, read) && TextAll(segs) == html && RenderAll(segs) == out
  }

  /**
    The loop's output is the one thing that faithful segments of the input render to: each element that
    can be replaced is, and everything else stays in order.
  */
  lemma {:induction false} InlineIff(html: string, read: Reader, out: string)
    ensures out == Inline(html, read) <==> exists segs :: IsInlining(html, segs, read, out)
  {
    hide Faithful, TextAll, Segments, RenderAll;
    SegmentsFaithful(html, read);
    if out == Inline(html, read) {
      assert IsInlining(html, Segments(html, read), read, out);
    }
    if segs :| IsInlining(html, segs, read, out) {
      FaithfulRenders(segs, read);
    }
  }

  /** Text without anything to replace is returned unchanged. */
  lemma {:induction false} NothingToInline(html: string, read: Reader)
    requires forall k :: 0 <= k < |Segments(html, read)| ==> Segments(html, read)[k].Keep?
    ensures Inline(html, read) == html
  {
    hide Segments, Faithful;
    SegmentsFaithful(html, read);
    KeptRenders(Segments(html, read));
  }

  lemma {:induction false} KeptRenders(segs: seq<Segment>)
    requires forall k :: 0 <= k < |segs| ==> segs[k].Keep?
    ensures RenderAll(segs) == TextAll(segs)
  {
    if segs != [] {
      KeptRenders(segs[1..]);
    }
  }

  /** If nothing can be read, nothing changes. */
  lemma {:induction false} UnreadableUnchanged(html: string, read: Reader)
    requires forall url :: read(url) == None
    ensures Inline(html, read) == html
  {
    hide Segments, Inline, Faithful;
    SegmentsFaithful(html, read);
    FaithfulKeeps(Segments(html, read), read);
    NothingToInline(html, read);
  }

  lemma {:induction false} FaithfulKeeps(segs: seq<Segment>, read: Reader)
    requires Faithful(segs, read) && forall url :: read(url) == None
    ensures forall k :: 0 <= k < |segs| ==> segs[k].Keep?
  {
    hide ExtractAttr, IsRelativeUrl, IsElement, AtCi, Clear, IsModule, IsStylesheet, Replaceable;
    if segs != [] {
      FaithfulKeeps(segs[1..], read);
      assert forall k :: 1 <= k < |segs| ==> segs[k] == segs[1..][k - 1];
    }
  }

  // ----- Escaping closing tags -----

  /** A stretch without `<` is copied, and is only there if it was copied. */
  lemma {:induction false} HeadCopied(s: string, tag: string, n: nat)
    ensures n <= |s| && '<' !in s[..n] ==> n <= |EscapeClose(s, tag)| && EscapeClose(s, tag)[..n] == s[..n]
    ensures var e := EscapeClose(s, tag); n <= |e| && '<' !in e[..n] ==> n <= |s| && e[..n] == s[..n]
    decreases n
  {
    var e := EscapeClose(s, tag);
    if n > 0 && s != "" {
      HeadCopied(s[1..], tag, n - 1);
      var t := EscapeClose(s[1..], tag);
      if StartsWith(s, "</" + tag) {
        assert s[0] == ("</" + tag)[0] == '<';
        assert n <= |s| ==> s[..n][0] == '<';
        assert n <= |e| ==> e[..n][0] == '<';
      } else {
        assert e == [s[0]] + t;
        assert n <= |s| ==> s[..n] == [s[0]] + s[1..][..n - 1];
        assert n <= |e| ==> e[..n] == [s[0]] + t[..n - 1];
      }
    }
  }

  /** An occurrence of `</tag` in the escaped text at its first character. */
  lemma {:induction false} EscapedHead(s: string, tag: string)
    requires '<' !in tag && s != "" && !StartsWith(s, "</" + tag)
    ensures AtCi(EscapeClose(s, tag), 0, "</" + tag) <==> AtCi(s, 0, "</" + tag)
    ensures !StartsWith(EscapeClose(s, tag), "</" + tag)
  {
    var w, e, t := "</" + tag, EscapeClose(s, tag), EscapeClose(s[1..], tag);
    var n := |w| - 1;
    HeadCopied(s[1..], tag, n);
    assert e == [s[0]] + t;
    NoLess(s[1..], w[1..]);
    NoLess(t, w[1..]);
    HeadSplit(s, w);
    HeadSplit(e, w);
    assert e[1..] == t;
  }

  lemma {:induction false} NoLess(t: string, w: string)
    requires '<' !in w
    ensures AtCi(t, 0, w) ==> '<' !in t[..|w|]
  {
    assert AtCi(t, 0, w) ==> forall i :: 0 <= i < |w| ==>
                                 LowerChar(t[..|w|][i]) == Lower(t[..|w|])[i] == Lower(w)[i] == LowerChar(w[i]);
  }

  lemma {:induction false} HeadSplit(s: string, w: string)
    requires s != "" && w != ""
    ensures AtCi(s, 0, w) <==> LowerChar(s[0]) == LowerChar(w[0]) && AtCi(s[1..], 0, w[1..])
  {
    if |w| <= |s| {
      assert s[..|w|] == [s[0]] + s[1..][..|w| - 1];
      var a, b := Lower(s[..|w|]), Lower(w);
      var c, d := Lower(s[1..][..|w| - 1]), Lower(w[1..]);
      assert a == [LowerChar(s[0])] + c && b == [LowerChar(w[0])] + d;
      assert a[1..] == c && b[1..] == d;
    }
  }

  lemma {:induction false} NotInside(p: string, t: string, i: nat, w: string)
    requires i < |p| && w != "" && LowerChar(p[i]) != LowerChar(w[0])
    ensures !AtCi(p + t, i, w)
  {
    assert i + |w| <= |p + t| ==> Lower((p + t)[i..i + |w|])[0] == LowerChar(p[i]);
    assert Lower(w)[0] == LowerChar(w[0]);
  }

  lemma {:induction false} ExactIsCi(s: string, i: nat, w: string)
    ensures At(s, i, w) ==> AtCi(s, i, w)
    ensures At(s, 0, w) <==> StartsWith(s, w)
  {
  }

  /** Nothing begins inside the escaped closing tag, nor inside the one it stands for. */
  lemma {:induction false} NothingInside(tag: string, t: string, i: nat)
    requires '<' !in tag
    ensures i < |tag| + 3 ==> !AtCi("<\\/" + tag + t, i, "</" + tag)
    ensures 0 < i < |tag| + 2 ==> !AtCi("</" + tag + t, i, "</" + tag)
  {
    var w, p := "</" + tag, "<\\/" + tag;
    if i == 0 {
      assert |w| <= |p + t| ==> Lower((p + t)[0..|w|])[1] == LowerChar(p[1]);
      assert Lower(w)[1] == '/';
    } else {
      if i < |p| {
        assert p[i] != '<' by { assert i >= 3 ==> p[i] == tag[i - 3]; }
        NotInside(p, t, i, w);
      }
      if i < |w| {
        assert w[i] != '<' by { assert i >= 2 ==> w[i] == tag[i - 2]; }
        NotInside(w, t, i, w);
      }
    }
  }

  /** The first character or the first closing tag, and what is left. */
  lemma {:induction false} EscapeStep(s: string, tag: string)
    requires s != ""
    ensures if StartsWith(s, "</" + tag)
            then var t := s[|tag| + 2..]; s == "</" + tag + t && EscapeClose(s, tag) == "<\\/" + tag + EscapeClose(t, tag)
            else s == [s[0]] + s[1..] && EscapeClose(s, tag) == [s[0]] + EscapeClose(s[1..], tag)
  {
  }

  /** The text has a closing tag in other than lower case. */
  ghost predicate Leaks(s: string, w: string) {
    exists i: nat :: AtCi(s, i, w) && !At(s, i, w)
  }

  lemma {:induction false} AtBehind(a: string, t: string, i: nat, w: string)
    ensures AtCi(a + t, |a| + i, w) <==> AtCi(t, i, w)
    ensures At(a + t, |a| + i, w) <==> At(t, i, w)
  {
    hide Lower;
    assert i + |w| <= |t| ==> (a + t)[|a| + i..|a| + i + |w|] == t[i..i + |w|];
  }

  lemma {:induction false} LeaksBehind(a: string, t: string, w: string)
    ensures Leaks(t, w) ==> Leaks(a + t, w)
    ensures OccursCi(t, w) ==> OccursCi(a + t, w)
  {
    hide AtCi, At;
    if i: nat :| AtCi(t, i, w) && !At(t, i, w) {
      AtBehind(a, t, i, w);
      assert AtCi(a + t, |a| + i, w) && !At(a + t, |a| + i, w);
    }
    if i: nat :| AtCi(t, i, w) {
      AtBehind(a, t, i, w);
      assert AtCi(a + t, |a| + i, w);
    }
  }

  lemma {:induction false} LeaksOut(s: string, tag: string, i: nat)
    requires '<' !in tag && AtCi(EscapeClose(s, tag), i, "</" + tag)
    ensures Leaks(s, "</" + tag) && !At(EscapeClose(s, tag), i, "</" + tag)
    decreases |s|
  {
    hide AtCi, At, EscapeClose;
    var w := "</" + tag;
    if s == "" {
      assert EscapeClose(s, tag) == "" by { EscapeEmpty(tag); }
      AtFits("", i, w);
      assert false;
    }
    EscapeStep(s, tag);
    if StartsWith(s, w) {
      var p, t := "<\\/" + tag, s[|w|..];
      NothingInside(tag, EscapeClose(t, tag), i);
      AtBehind(p, EscapeClose(t, tag), i - |p|, w);
      LeaksOut(t, tag, i - |p|);
      LeaksBehind(w, t, w);
    } else if i == 0 {
      EscapedHead(s, tag);
      ExactIsCi(s, 0, w);
      ExactIsCi(EscapeClose(s, tag), 0, w);
    } else {
      AtBehind([s[0]], EscapeClose(s[1..], tag), i - 1, w);
      LeaksOut(s[1..], tag, i - 1);
      LeaksBehind([s[0]], s[1..], w);
    }
  }

  lemma {:induction false} EscapeEmpty(tag: string)
    ensures EscapeClose("", tag) == ""
  {
  }

  lemma {:induction false} LeaksThrough(s: string, tag: string, i: nat)
    requires '<' !in tag && AtCi(s, i, "</" + tag) && !At(s, i, "</" + tag)
    ensures OccursCi(EscapeClose(s, tag), "</" + tag)
    decreases |s|
  {
    hide AtCi, At, EscapeClose;
    var w := "</" + tag;
    AtFits(s, i, w);
    EscapeStep(s, tag);
    if StartsWith(s, w) {
      var t := s[|w|..];
      ExactIsCi(s, 0, w);
      NothingInside(tag, t, i);
      AtBehind(w, t, i - |w|, w);
      LeaksThrough(t, tag, i - |w|);
      LeaksBehind("<\\/" + tag, EscapeClose(t, tag), w);
    } else if i == 0 {
      EscapedHead(s, tag);
    } else {
      AtBehind([s[0]], s[1..], i - 1, w);
      LeaksThrough(s[1..], tag, i - 1);
      LeaksBehind([s[0]], EscapeClose(s[1..], tag), w);
    }
  }

  /** No escaped text contains the lower-case closing tag. */
  lemma {:induction false} NoLowerClose(s: string, tag: string)
    requires '<' !in tag
    ensures !Occurs(EscapeClose(s, tag), "</" + tag)
  {
    hide AtCi, At, EscapeClose;
    forall i: nat ensures !At(EscapeClose(s, tag), i, "</" + tag) {
      ExactIsCi(EscapeClose(s, tag), i, "</" + tag);
      if AtCi(EscapeClose(s, tag), i, "</" + tag) {
        LeaksOut(s, tag, i);
      }
    }
  }

  /** An inlined body can end its element early exactly when the file has a closing tag that is not all lower case. */
  lemma {:induction false} LeaksIff(s: string, tag: string)
    requires '<' !in tag
    ensures OccursCi(EscapeClose(s, tag), "</" + tag) <==> Leaks(s, "</" + tag)
  {
    hide AtCi, At, EscapeClose;
    if i: nat :| AtCi(EscapeClose(s, tag), i, "</" + tag) {
      LeaksOut(s, tag, i);
    }
    if i: nat :| AtCi(s, i, "</" + tag) && !At(s, i, "</" + tag) {
      LeaksThrough(s, tag, i);
    }
  }

  lemma {:induction false} UpperCaseLeaks()
    ensures OccursCi(EscapeClose("</SCRIPT", "script"), "</script")
  {
    var s, w := "</SCRIPT", "</script";
    assert s[0..8] == s && w == "</" + "script";
    assert Lower(s) == w && Lower(w) == w;
    assert AtCi(s, 0, w) && !At(s, 0, w);
    LeaksIff(s, "script");
  }
}
