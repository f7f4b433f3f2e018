/**
  The content hash of scripts/catalog-pin/core.ts: the walk of a directory, the byte sort of its files
  and the framed stream that is hashed.  SHA-256 is a parameter: the claims are about the stream.
*/
module ContentHash {
  import opened Utf8

  /** Lower-case hex of a SHA-256: 64 bytes. */
  type Digest = f: Bytes -> Bytes | forall b :: |f(b)| == 64 witness b => seq(64, i => 48)

  /** A directory entry as `readdirSync` and `statSync` show it; `Other` is neither file nor directory. */
  datatype Node = File(content: Bytes) | Dir(entries: seq<Entry>) | Other

  type Entry = (string, Node)

  /** A file the walk found: its relative path and its bytes. */
  type Found = (string, Bytes)

  const GIT := ".git"

  // ----- What a directory holds, whatever order it is listed in -----

  predicate ValidName(name: string) {
    name != "" && '/' !in name && 0 as char !in name
  }

  /** Entries in a listing and all below it: what the recursion descends on. */
  function Size(entries: seq<Entry>): nat {
    if entries == [] then 0 else SizeOne(entries[0]) + Size(entries[1..])
  }

  function SizeOne(entry: Entry): nat {
    match entry.1 case Dir(children) => 1 + Size(children) case _ => 1
  }

  lemma {:induction false} SizeAt(entries: seq<Entry>, i: nat)
    requires i < |entries|
    ensures SizeOne(entries[i]) <= Size(entries)
  {
    if i > 0 {
      SizeAt(entries[1..], i - 1);
    }
  }

  /** What every file system grants: proper names, no two alike in one directory. */
  ghost predicate ValidDir(entries: seq<Entry>) {
    && (forall i :: 0 <= i < |entries| ==> ValidName(entries[i].0))
    && (forall i, j :: 0 <= i < j < |entries| ==> entries[i].0 != entries[j].0)
    && (forall i :: 0 <= i < |entries| ==> ValidBelow(entries[i]))
  }

  ghost predicate ValidBelow(entry: Entry) {
    match entry.1 case Dir(children) => ValidDir(children) case _ => true
  }

  /** Following the names `comps` from the directory, none of them `.git`, leads to a file with this content. */
  ghost predicate HasFile(entries: seq<Entry>, comps: seq<string>, content: Bytes)
    decreases |comps|, 0
  {
    && comps != [] && comps[0] != ".git"
    && exists i :: 0 <= i < |entries| && entries[i].0 == comps[0] && LeadsTo(entries[i].1, comps[1..], content)
  }

  ghost predicate LeadsTo(node: Node, comps: seq<string>, content: Bytes)
    decreases |comps|, 1
  {
    match node
    case File(c) => comps == [] && c == content
    case Dir(entries) => comps != [] && HasFile(entries, comps, content)
    case Other => false
  }

  /** What the hash is meant to depend on. */
  ghost predicate HasDigest(dir: seq<Entry>, comps: seq<string>, digest: Digest, d: Bytes) {
    exists content :: HasFile(dir, comps, content) && digest(content) == d
  }

  ghost predicate SameDigests(a: seq<Entry>, b: seq<Entry>, digest: Digest) {
    forall comps, d :: HasDigest(a, comps, digest, d) <==> HasDigest(b, comps, digest, d)
  }

  // ----- The walk -----

  function Rel(prefix: string, name: string): string {
    if prefix != "" then prefix + "/" + name else name
  }

  /** Everything the walk pushes, in the order it meets it. */
  function Walk(entries: seq<Entry>, prefix: string): seq<Found> {
    if entries == [] then []
    else WalkOne(entries[0], prefix) + Walk(entries[1..], prefix)
  }

  function WalkOne(entry: Entry, prefix: string): seq<Found> {
    if entry.0 == GIT then []
    else match entry.1
         case Dir(children) => Walk(children, Rel(prefix, entry.0))
         case File(content) => [(Rel(prefix, entry.0), content)]
         case Other => []
  }

  class Walker {
    var out: seq<Found>

    constructor ()
      ensures out == []
    {
      out := [];
    }

    method Visit(cur: seq<Entry>, prefix: string)
      modifies this
      ensures out == old(out) + Walk(cur, prefix)
      decreases Size(cur)
    {
      for i := 0 to |cur|
        invariant out + Walk(cur[i..], prefix) == old(out) + Walk(cur, prefix)
      {
        ghost var rest := cur[i..];
        assert rest[0] == cur[i] && rest[1..] == cur[i + 1..];
        var (name, st) := cur[i];
        if name == GIT {
          continue;
        }
        var rel := Rel(prefix, name);
        if st.Dir? {
          SizeAt(cur, i);
          Visit(st.entries, rel);
        } else if st.File? {
          out := out + [(rel, st.content)];
        }
      }
      assert cur[|cur|..] == [];
    }
  }

  // ----- Relative paths -----

  function RelAll(prefix: string, comps: seq<string>): string
    decreases |comps|
  {
    if comps == [] then prefix else RelAll(Rel(prefix, comps[0]), comps[1..])
  }

  ghost predicate ValidComps(comps: seq<string>) {
    forall i :: 0 <= i < |comps| ==> ValidName(comps[i])
  }

  function Tail(comps: seq<string>): string {
    if comps == [] then "" else "/" + comps[0] + Tail(comps[1..])
  }

  lemma {:induction false} RelAllTail(prefix: string, comps: seq<string>)
    requires prefix != ""
    ensures RelAll(prefix, comps) == prefix + Tail(comps)
    decreases |comps|
  {
    if comps == [] {
      assert prefix + "" == prefix;
    } else {
      RelAllTail(Rel(prefix, comps[0]), comps[1..]);
      assert prefix + "/" + comps[0] + Tail(comps[1..]) == prefix + ("/" + comps[0] + Tail(comps[1..]));
    }
  }

  /** A name ends where the first slash, or the text, does. */
  lemma {:induction false} NameUnique(a: string, x: string, b: string, y: string)
    requires '/' !in a && '/' !in b && a + x == b + y
    requires (x == "" || x[0] == '/') && (y == "" || y[0] == '/')
    ensures a == b && x == y
  {
    var s := a + x;
    assert forall i :: 0 <= i < |a| ==> s[i] != '/';
    assert forall i :: 0 <= i < |b| ==> s[i] != '/' by {
      assert forall i :: 0 <= i < |b| ==> (b + y)[i] == b[i];
    }
    assert |a| < |s| ==> s[|a|] == '/';
    assert |b| < |s| ==> (b + y)[|b|] == '/';
    assert |a| == |b|;
    assert a == s[..|a|] == b && x == s[|a|..] == y;
  }

  lemma {:induction false} TailUnique(a: seq<string>, b: seq<string>)
    requires ValidComps(a) && ValidComps(b) && Tail(a) == Tail(b)
    ensures a == b
  {
    if a != [] && b != [] {
      assert Tail(a)[1..] == a[0] + Tail(a[1..]) && Tail(b)[1..] == b[0] + Tail(b[1..]);
      NameUnique(a[0], Tail(a[1..]), b[0], Tail(b[1..]));
      TailUnique(a[1..], b[1..]);
      assert a == [a[0]] + a[1..] && b == [b[0]] + b[1..];
    }
  }

  lemma {:induction false} RelAllStart(prefix: string, comps: seq<string>)
    requires comps != []
    ensures prefix != "" || comps[0] != "" ==>
              RelAll(prefix, comps) == (if prefix == "" then "" else prefix + "/") + (comps[0] + Tail(comps[1..]))
  {
    var first, rest := comps[0], Tail(comps[1..]);
    if prefix != "" {
      RelAllTail(prefix + "/" + first, comps[1..]);
      Regroup(prefix, "/", first, rest);
    } else if first != "" {
      RelAllTail(first, comps[1..]);
      assert "" + (first + rest) == first + rest;
    }
  }

  lemma {:induction false} Regroup(a: string, b: string, c: string, d: string)
    ensures a + b + c + d == (a + b) + (c + d)
  {
  }

  lemma {:induction false} CancelLeft(start: string, x: string, y: string)
    requires start + x == start + y
    ensures x == y
  {
    assert (start + x)[|start|..] == x && (start + y)[|start|..] == y;
  }

  /** Below one directory, different components give different relative paths. */
  lemma {:induction false} RelUnique(prefix: string, a: seq<string>, b: seq<string>)
    requires ValidComps(a) && ValidComps(b) && a != [] && b != []
    requires RelAll(prefix, a) == RelAll(prefix, b)
    ensures a == b
  {
    RelAllStart(prefix, a);
    RelAllStart(prefix, b);
    CancelLeft(if prefix == "" then "" else prefix + "/", a[0] + Tail(a[1..]), b[0] + Tail(b[1..]));
    NameUnique(a[0], Tail(a[1..]), b[0], Tail(b[1..]));
    TailUnique(a[1..], b[1..]);
    assert a == [a[0]] + a[1..] && b == [b[0]] + b[1..];
  }

  // ----- What the walk finds -----

  /** Every path the walk yields is the relative path of a file below the directory. */
  lemma {:induction false} WalkSound(entries: seq<Entry>, prefix: string, f: Found) returns (comps: seq<string>)
    requires ValidDir(entries) && f in Walk(entries, prefix)
    ensures ValidComps(comps) && HasFile(entries, comps, f.1) && f.0 == RelAll(prefix, comps)
    decreases Size(entries)
  {
    assert Size(entries) == SizeOne(entries[0]) + Size(entries[1..]);
    if f in WalkOne(entries[0], prefix) {
      var (name, node) := entries[0];
      if node.Dir? {
        var below := WalkSound(node.entries, Rel(prefix, name), f);
        comps := [name] + below;
        assert comps[1..] == below;
        assert LeadsTo(entries[0].1, comps[1..], f.1);
      } else {
        comps := [name];
        assert LeadsTo(entries[0].1, comps[1..], f.1);
        assert RelAll(Rel(prefix, name), comps[1..]) == Rel(prefix, name);
      }
    } else {
      comps := WalkSound(entries[1..], prefix, f);
      var i :| 0 <= i < |entries[1..]| && entries[1..][i].0 == comps[0] && LeadsTo(entries[1..][i].1, comps[1..], f.1);
      assert entries[i + 1].0 == comps[0];
    }
  }

  lemma {:induction false} WalkComplete(entries: seq<Entry>, prefix: string, comps: seq<string>, content: Bytes)
    requires HasFile(entries, comps, content)
    ensures (RelAll(prefix, comps), content) in Walk(entries, prefix)
    decreases Size(entries)
  {
    assert Size(entries) == SizeOne(entries[0]) + Size(entries[1..]);
    var i :| 0 <= i < |entries| && entries[i].0 == comps[0] && LeadsTo(entries[i].1, comps[1..], content);
    if i == 0 {
      var (name, node) := entries[0];
      if node.Dir? {
        WalkComplete(node.entries, Rel(prefix, name), comps[1..], content);
      }
      assert (RelAll(prefix, comps), content) in WalkOne(entries[0], prefix);
    } else {
      assert entries[1..][i - 1] == entries[i];
      WalkComplete(entries[1..], prefix, comps, content);
    }
  }

  ghost predicate DistinctKeys(fs: seq<Found>) {
    forall i, j :: 0 <= i < j < |fs| ==> fs[i].0 != fs[j].0
  }

  lemma {:induction false} DistinctAppend(a: seq<Found>, b: seq<Found>)
    requires DistinctKeys(a) && DistinctKeys(b)
    requires forall f, g :: f in a && g in b ==> f.0 != g.0
    ensures DistinctKeys(a + b)
  {
    var all := a + b;
    forall i, j | 0 <= i < j < |all|
      ensures all[i].0 != all[j].0
    {
      if i < |a| && j >= |a| {
        assert all[i] in a && all[j] in b;
      }
    }
  }

  /** Files under different names of one directory have different relative paths. */
  lemma {:induction false} WalkApart(entries: seq<Entry>, prefix: string, f: Found, g: Found)
    requires entries != [] && ValidDir(entries)
    requires f in WalkOne(entries[0], prefix) && g in Walk(entries[1..], prefix)
    ensures f.0 != g.0
  {
    var first := entries[..1];
    assert first[0] == entries[0] && first[1..] == [];
    assert Walk(first, prefix) == WalkOne(entries[0], prefix) + Walk([], prefix);
    var a := WalkSound(first, prefix, f);
    var b := WalkSound(entries[1..], prefix, g);
    assert a[0] == entries[0].0;
    var i :| 0 <= i < |entries[1..]| && entries[1..][i].0 == b[0];
    assert entries[i + 1].0 == b[0];
    if f.0 == g.0 {
      RelUnique(prefix, a, b);
    }
  }

  lemma {:induction false} WalkDistinct(entries: seq<Entry>, prefix: string)
    requires ValidDir(entries)
    ensures DistinctKeys(Walk(entries, prefix))
    decreases Size(entries)
  {
    if entries != [] {
      assert Size(entries) == SizeOne(entries[0]) + Size(entries[1..]);
      WalkDistinct(entries[1..], prefix);
      var (name, node) := entries[0];
      if node.Dir? {
        WalkDistinct(node.entries, Rel(prefix, name));
      }
      forall f, g | f in WalkOne(entries[0], prefix) && g in Walk(entries[1..], prefix)
        ensures f.0 != g.0
      {
        WalkApart(entries, prefix, f, g);
      }
      DistinctAppend(WalkOne(entries[0], prefix), Walk(entries[1..], prefix));
    }
  }

  // ----- The byte sort -----

  predicate KeyLess(f: Found, g: Found) {
    Less(Encode(f.0), Encode(g.0))
  }

  /** The stable sort by UTF-8 bytes: `f` goes before everything that is not smaller. */
  function InsertSorted(f: Found, fs: seq<Found>): seq<Found> {
    if fs == [] || !KeyLess(fs[0], f) then [f] + fs else [fs[0]] + InsertSorted(f, fs[1..])
  }

  function Sort(fs: seq<Found>): seq<Found> {
    if fs == [] then [] else InsertSorted(fs[0], Sort(fs[1..]))
  }

  ghost predicate Ordered(fs: seq<Found>) {
    forall i, j :: 0 <= i < j < |fs| ==> !KeyLess(fs[j], fs[i])
  }

  lemma {:induction false} NotLessTransitive(f: Found, g: Found, h: Found)
    requires !KeyLess(g, f) && !KeyLess(h, g)
    ensures !KeyLess(h, f)
  {
    LessTotal(Encode(f.0), Encode(g.0));
    LessTotal(Encode(g.0), Encode(h.0));
    if KeyLess(h, f) {
      if KeyLess(f, g) {
        LessTransitive(Encode(h.0), Encode(f.0), Encode(g.0));
      }
    }
  }

  lemma {:induction false} InsertSortedElems(f: Found, fs: seq<Found>)
    ensures multiset(InsertSorted(f, fs)) == multiset([f] + fs)
    ensures forall g :: g in InsertSorted(f, fs) ==> g == f || g in fs
  {
    if fs != [] && KeyLess(fs[0], f) {
      InsertSortedElems(f, fs[1..]);
      assert fs == [fs[0]] + fs[1..];
    }
  }

  lemma {:induction false} InsertSortedOk(f: Found, fs: seq<Found>)
    requires Ordered(fs)
    ensures Ordered(InsertSorted(f, fs)) && multiset(InsertSorted(f, fs)) == multiset([f] + fs)
  {
    hide KeyLess;
    InsertSortedElems(f, fs);
    if fs == [] {
    } else if !KeyLess(fs[0], f) {
      forall j | 1 <= j < |fs|
        ensures !KeyLess(fs[j], f)
      {
        NotLessTransitive(f, fs[0], fs[j]);
      }
    } else {
      var rest := InsertSorted(f, fs[1..]);
      InsertSortedOk(f, fs[1..]);
      InsertSortedElems(f, fs[1..]);
      LessBoth(fs[0], f);
      forall j | 0 <= j < |rest|
        ensures !KeyLess(rest[j], fs[0])
      {
        assert rest[j] in rest;
      }
    }
  }

  lemma {:induction false} LessBoth(f: Found, g: Found)
    requires KeyLess(f, g)
    ensures !KeyLess(g, f)
  {
    LessTotal(Encode(f.0), Encode(g.0));
  }

  lemma {:induction false} SortOk(fs: seq<Found>)
    ensures Ordered(Sort(fs)) && multiset(Sort(fs)) == multiset(fs)
  {
    if fs != [] {
      SortOk(fs[1..]);
      InsertSortedOk(fs[0], Sort(fs[1..]));
      assert fs == [fs[0]] + fs[1..];
    }
  }

  /** The entries of one path, in their order. */
  function Under(fs: seq<Found>, rel: string): seq<Found> {
    if fs == [] then []
    else (if fs[0].0 == rel then [fs[0]] else []) + Under(fs[1..], rel)
  }

  /** The sort keeps the order of entries with one path. */
  lemma {:induction false} SortStable(fs: seq<Found>, rel: string)
    ensures Under(Sort(fs), rel) == Under(fs, rel)
  {
    if fs != [] {
      SortStable(fs[1..], rel);
      InsertStable(fs[0], Sort(fs[1..]), rel);
    }
  }

  lemma {:induction false} InsertStable(f: Found, fs: seq<Found>, rel: string)
    ensures Under(InsertSorted(f, fs), rel) == (if f.0 == rel then [f] else []) + Under(fs, rel)
  {
    if fs == [] || !KeyLess(fs[0], f) {
      assert ([f] + fs)[1..] == fs;
    } else {
      InsertStable(f, fs[1..], rel);
      assert ([fs[0]] + InsertSorted(f, fs[1..]))[1..] == InsertSorted(f, fs[1..]);
      LessTotal(Encode(f.0), Encode(f.0));
    }
  }

  /** Where the sort puts one path before another, the code points of the two say so. */
  lemma {:induction false} SortedByCodePoints(fs: seq<Found>, i: nat, j: nat)
    requires i < j < |Sort(fs)|
    ensures var s, t := Sort(fs)[i].0, Sort(fs)[j].0; s == t || exists k: nat :: PrecedesAt(s, t, k)
  {
    SortOk(fs);
    var sorted := Sort(fs);
    assert !KeyLess(sorted[j], sorted[i]);
    LessTotal(Encode(sorted[i].0), Encode(sorted[j].0));
    EncodedOrder(sorted[i].0, sorted[j].0);
    if Encode(sorted[i].0) == Encode(sorted[j].0) {
      EncodeInjective(sorted[i].0, sorted[j].0);
    }
  }

  // ----- The framed stream -----

  /** A sorted line of the stream: relative path and content digest. */
  type Line = (string, Bytes)

  function Lines(fs: seq<Found>, digest: Digest): (ls: seq<Line>)
    ensures |ls| == |fs| && forall i :: 0 <= i < |fs| ==> ls[i] == (fs[i].0, digest(fs[i].1))
  {
    seq(|fs|, i requires 0 <= i < |fs| => (fs[i].0, digest(fs[i].1)))
  }

  function Frame(l: Line): Bytes {
    Encode(l.0) + [0] + l.1 + [10]
  }

  function Frames(ls: seq<Line>): Bytes {
    if ls == [] then [] else Frames(ls[..|ls| - 1]) + Frame(ls[|ls| - 1])
  }

  /** What `hashEntries` feeds to SHA-256. */
  function StreamOf(entries: seq<Found>, digest: Digest): Bytes {
    Frames(Lines(Sort(entries), digest))
  }

  lemma {:induction false} FramesNext(lines: seq<Line>, n: nat)
    requires n < |lines|
    ensures Frames(lines[..n + 1]) == Frames(lines[..n]) + Encode(lines[n].0) + [0] + lines[n].1 + [10]
  {
    assert lines[..n + 1][..n] == lines[..n];
    AppendFrame(Frames(lines[..n]), Encode(lines[n].0), lines[n].1);
  }

  lemma {:induction false} AppendFrame(h: Bytes, rel: Bytes, d: Bytes)
    ensures h + (rel + [0] + d + [10]) == h + rel + [0] + d + [10]
  {
  }

  method HashEntries(entries: seq<Found>, digest: Digest) returns (h: Bytes)
    ensures h == StreamOf(entries, digest)
  {
    hide Sort, Encode, Frames;
    var sorted := Sort(entries);
    ghost var lines := Lines(sorted, digest);
    h := [];
    assert h == Frames([]) by {
      NoFrames();
    }
    for n := 0 to |sorted|
      invariant h == Frames(lines[..n])
    {
      var (rel, bytes) := sorted[n];
      FramesNext(lines, n);
      h := h + Encode(rel);
      h := h + [0];
      h := h + digest(bytes);
      h := h + [10];
    }
    assert lines[..|sorted|] == lines;
  }

  lemma {:induction false} NoFrames()
    ensures Frames([]) == []
  {
  }

  /** A directory's stream: walk, sort, hash (which sorts again). */
  function DirStream(dir: seq<Entry>, digest: Digest): Bytes {
    StreamOf(Sort(Walk(dir, "")), digest)
  }

  /** A single file is hashed under the empty path. */
  function FileStream(content: Bytes, digest: Digest): Bytes {
    StreamOf([("", content)], digest)
  }

  method ContentHashDir(dir: seq<Entry>, digest: Digest) returns (h: Bytes)
    ensures h == DirStream(dir, digest)
  {
    hide Sort, Walk, StreamOf;
    var walker := new Walker();
    walker.Visit(dir, "");
    assert walker.out == Walk(dir, "");
    h := HashEntries(Sort(walker.out), digest);
  }

  // ----- The stream can be read back -----

  ghost predicate ReadableLine(l: Line) {
    0 as char !in l.0 && |l.1| == 64
  }

  ghost predicate Readable(ls: seq<Line>) {
    forall i :: 0 <= i < |ls| ==> ReadableLine(ls[i])
  }

  function FramesFront(ls: seq<Line>): Bytes {
    if ls == [] then [] else Frame(ls[0]) + FramesFront(ls[1..])
  }

  lemma {:induction false} FramesAreFront(ls: seq<Line>)
    ensures Frames(ls) == FramesFront(ls)
  {
    if |ls| > 1 {
      var last := |ls| - 1;
      FramesAreFront(ls[..last]);
      FramesAreFront(ls[1..]);
      FramesAreFront(ls[1..last]);
      assert ls[..last][1..] == ls[1..last] && ls[1..][..last - 1] == ls[1..last];
      assert ls[..last][0] == ls[0] && ls[1..][last - 1] == ls[last];
    } else if |ls| == 1 {
      assert ls[..0] == [] && ls[1..] == [];
    }
  }

  /** The NUL ends the path, the digest has its 64 bytes, the newline closes the line. */
  lemma {:induction false} FrameUnique(l: Line, x: Bytes, m: Line, y: Bytes)
    requires ReadableLine(l) && ReadableLine(m) && Frame(l) + x == Frame(m) + y
    ensures l == m && x == y
  {
    var all := Frame(l) + x;
    var p, q := Encode(l.0), Encode(m.0);
    NoZeroByte(l.0);
    NoZeroByte(m.0);
    assert all[|p|] == 0 && (Frame(m) + y)[|q|] == 0;
    assert forall i :: 0 <= i < |p| ==> all[i] == p[i];
    assert forall i :: 0 <= i < |q| ==> (Frame(m) + y)[i] == q[i];
    assert |p| == |q|;
    assert p == all[..|p|] && q == (Frame(m) + y)[..|p|];
    EncodeInjective(l.0, m.0);
    assert l.1 == all[|p| + 1..|p| + 65] && m.1 == (Frame(m) + y)[|p| + 1..|p| + 65];
    assert x == all[|p| + 66..] && y == (Frame(m) + y)[|p| + 66..];
  }

  lemma {:induction false} FramesUnique(a: seq<Line>, b: seq<Line>)
    requires Readable(a) && Readable(b) && FramesFront(a) == FramesFront(b)
    ensures a == b
  {
    if a != [] && b != [] {
      FrameUnique(a[0], FramesFront(a[1..]), b[0], FramesFront(b[1..]));
      FramesUnique(a[1..], b[1..]);
      assert a == [a[0]] + a[1..] && b == [b[0]] + b[1..];
    }
  }

  // ----- Sorted lists of one set of lines are one list -----

  ghost predicate StrictlyOrdered(ls: seq<Line>) {
    forall i, j :: 0 <= i < j < |ls| ==> Less(Encode(ls[i].0), Encode(ls[j].0))
  }

  lemma {:induction false} FirstUnique(a: seq<Line>, b: seq<Line>)
    requires StrictlyOrdered(a) && StrictlyOrdered(b) && a != [] && b != []
    requires forall l :: l in a <==> l in b
    ensures a[0] == b[0]
  {
    assert b[0] in b && a[0] in a;
    var i :| 0 <= i < |a| && a[i] == b[0];
    var j :| 0 <= j < |b| && b[j] == a[0];
    LessTotal(Encode(a[0].0), Encode(b[0].0));
  }

  lemma {:induction false} SomeLine(ls: seq<Line>)
    ensures ls != [] ==> exists l :: l in ls
  {
    if ls != [] {
      assert ls[0] in ls;
    }
  }

  lemma {:induction false} SortedUnique(a: seq<Line>, b: seq<Line>)
    requires StrictlyOrdered(a) && StrictlyOrdered(b)
    requires forall l :: l in a <==> l in b
    ensures a == b
  {
    SomeLine(a);
    SomeLine(b);
    if a != [] {
      FirstUnique(a, b);
      forall l
        ensures l in a[1..] <==> l in a && l != a[0]
        ensures l in b[1..] <==> l in b && l != b[0]
      {
        LessTotal(Encode(l.0), Encode(l.0));
        assert a == [a[0]] + a[1..] && b == [b[0]] + b[1..];
      }
      SortedUnique(a[1..], b[1..]);
      assert a == [a[0]] + a[1..] && b == [b[0]] + b[1..];
    }
  }

  // ----- What the stream of a directory says -----

  lemma {:induction false} HasFileValid(entries: seq<Entry>, comps: seq<string>, content: Bytes)
    requires ValidDir(entries) && HasFile(entries, comps, content)
    ensures ValidComps(comps)
    decreases |comps|
  {
    var i :| 0 <= i < |entries| && entries[i].0 == comps[0] && LeadsTo(entries[i].1, comps[1..], content);
    assert ValidBelow(entries[i]);
    if entries[i].1.Dir? {
      HasFileValid(entries[i].1.entries, comps[1..], content);
    }
    assert comps == [comps[0]] + comps[1..];
  }

  /** The sorted lines of a directory. */
  function DirLines(dir: seq<Entry>, digest: Digest): seq<Line> {
    Lines(Sort(Sort(Walk(dir, ""))), digest)
  }

  lemma {:induction false} DirLinesAre(dir: seq<Entry>, digest: Digest, comps: seq<string>, d: Bytes)
    requires ValidDir(dir) && ValidComps(comps) && comps != []
    ensures (RelAll("", comps), d) in DirLines(dir, digest) <==> HasDigest(dir, comps, digest, d)
  {
    var found, sorted, lines := Walk(dir, ""), Sort(Sort(Walk(dir, ""))), DirLines(dir, digest);
    SortedWalk(dir);
    if HasDigest(dir, comps, digest, d) {
      var content :| HasFile(dir, comps, content) && digest(content) == d;
      WalkComplete(dir, "", comps, content);
      var i :| 0 <= i < |sorted| && sorted[i] == (RelAll("", comps), content);
      assert lines[i] == (RelAll("", comps), d);
    }
    if (RelAll("", comps), d) in lines {
      var i :| 0 <= i < |lines| && lines[i] == (RelAll("", comps), d);
      var other := WalkSound(dir, "", sorted[i]);
      RelUnique("", comps, other);
    }
  }

  lemma {:induction false} SortedWalk(dir: seq<Entry>)
    ensures forall f :: f in Sort(Sort(Walk(dir, ""))) <==> f in Walk(dir, "")
    ensures multiset(Sort(Sort(Walk(dir, "")))) == multiset(Walk(dir, ""))
  {
    var found, once, twice := Walk(dir, ""), Sort(Walk(dir, "")), Sort(Sort(Walk(dir, "")));
    SortOk(found);
    SortOk(once);
    forall f
      ensures f in twice <==> f in found
    {
      assert f in twice <==> f in multiset(twice);
      assert f in found <==> f in multiset(found);
    }
  }

  lemma {:induction false} DistinctByMultiset(a: seq<Found>, b: seq<Found>)
    requires DistinctKeys(a) && multiset(a) == multiset(b)
    ensures DistinctKeys(b)
  {
    forall i, j | 0 <= i < j < |b|
      ensures b[i].0 != b[j].0
    {
      if b[i] == b[j] {
        TwiceIn(b, i, j);
        OnceIn(a, b[i]);
      } else {
        assert b[i] in multiset(a) && b[j] in multiset(a);
        assert b[i] in a && b[j] in a;
      }
    }
  }

  lemma {:induction false} TwiceIn(s: seq<Found>, i: nat, j: nat)
    requires i < j < |s| && s[i] == s[j]
    ensures multiset(s)[s[i]] >= 2
  {
    assert s == s[..j] + [s[j]] + s[j + 1..];
    assert s[i] in s[..j];
  }

  lemma {:induction false} OnceIn(s: seq<Found>, f: Found)
    requires DistinctKeys(s)
    ensures multiset(s)[f] <= 1
  {
    if s != [] {
      OnceIn(s[1..], f);
      assert s == [s[0]] + s[1..];
      if f == s[0] {
        assert f !in s[1..];
      }
    }
  }

  lemma {:induction false} DirLinesOrdered(dir: seq<Entry>, digest: Digest)
    requires ValidDir(dir)
    ensures StrictlyOrdered(DirLines(dir, digest)) && Readable(DirLines(dir, digest))
  {
    var sorted, lines := Sort(Sort(Walk(dir, ""))), DirLines(dir, digest);
    SortedWalk(dir);
    WalkDistinct(dir, "");
    DistinctByMultiset(Walk(dir, ""), sorted);
    SortOk(Sort(Walk(dir, "")));
    forall i, j | 0 <= i < j < |lines|
      ensures Less(Encode(lines[i].0), Encode(lines[j].0))
    {
      LessTotal(Encode(sorted[i].0), Encode(sorted[j].0));
      if Encode(sorted[i].0) == Encode(sorted[j].0) {
        EncodeInjective(sorted[i].0, sorted[j].0);
      }
    }
    forall i | 0 <= i < |lines|
      ensures ReadableLine(lines[i])
    {
      assert sorted[i] in sorted;
      var comps := WalkSound(dir, "", sorted[i]);
      NoNulInRel("", comps);
    }
  }

  lemma {:induction false} NoNulInRel(prefix: string, comps: seq<string>)
    requires ValidComps(comps) && 0 as char !in prefix
    ensures 0 as char !in RelAll(prefix, comps) && |RelAll(prefix, comps)| >= |prefix| + |comps|
    decreases |comps|
  {
    if comps != [] {
      NoNulInRel(Rel(prefix, comps[0]), comps[1..]);
    }
  }

  /**
    Two directories give the same stream exactly when the same relative paths hold the same content
    digests: enumeration order and `.git` do not matter, and nothing else is lost.
  */
  lemma {:induction false} StreamIff(a: seq<Entry>, b: seq<Entry>, digest: Digest)
    requires ValidDir(a) && ValidDir(b)
    ensures DirStream(a, digest) == DirStream(b, digest) <==> SameDigests(a, b, digest)
  {
    var x, y := DirLines(a, digest), DirLines(b, digest);
    DirLinesOrdered(a, digest);
    DirLinesOrdered(b, digest);
    FramesAreFront(x);
    FramesAreFront(y);
    if DirStream(a, digest) == DirStream(b, digest) {
      FramesUnique(x, y);
      forall comps, d
        ensures HasDigest(a, comps, digest, d) <==> HasDigest(b, comps, digest, d)
      {
        DigestsFromLines(a, b, digest, comps, d);
        DigestsFromLines(b, a, digest, comps, d);
      }
    }
    if SameDigests(a, b, digest) {
      forall l
        ensures l in x <==> l in y
      {
        LinesFromDigests(a, b, digest, l);
        LinesFromDigests(b, a, digest, l);
      }
      SortedUnique(x, y);
    }
  }

  lemma {:induction false} DigestsFromLines(a: seq<Entry>, b: seq<Entry>, digest: Digest, comps: seq<string>, d: Bytes)
    requires ValidDir(a) && ValidDir(b) && DirLines(a, digest) == DirLines(b, digest)
    ensures HasDigest(a, comps, digest, d) ==> HasDigest(b, comps, digest, d)
  {
    if HasDigest(a, comps, digest, d) {
      var content :| HasFile(a, comps, content) && digest(content) == d;
      HasFileValid(a, comps, content);
      DirLinesAre(a, digest, comps, d);
      DirLinesAre(b, digest, comps, d);
    }
  }

  lemma {:induction false} LinesFromDigests(a: seq<Entry>, b: seq<Entry>, digest: Digest, l: Line)
    requires ValidDir(a) && ValidDir(b) && SameDigests(a, b, digest)
    ensures l in DirLines(a, digest) ==> l in DirLines(b, digest)
  {
    if l in DirLines(a, digest) {
      var sorted := Sort(Sort(Walk(a, "")));
      var i :| 0 <= i < |sorted| && l == (sorted[i].0, digest(sorted[i].1));
      SortedWalk(a);
      assert sorted[i] in sorted;
      var comps := WalkSound(a, "", sorted[i]);
      DirLinesAre(a, digest, comps, l.1);
      DirLinesAre(b, digest, comps, l.1);
    }
  }

  /** A file hashed on its own never streams like a directory. */
  lemma {:induction false} FileIsNoDir(content: Bytes, dir: seq<Entry>, digest: Digest)
    requires ValidDir(dir)
    ensures FileStream(content, digest) != DirStream(dir, digest)
  {
    var single := Lines(Sort([("", content)]), digest);
    assert [("", content)][1..] == [];
    assert Sort([("", content)]) == [("", content)];
    assert single == [("", digest(content))];
    var lines, sorted := DirLines(dir, digest), Sort(Sort(Walk(dir, "")));
    DirLinesOrdered(dir, digest);
    FramesAreFront(single);
    FramesAreFront(lines);
    if FileStream(content, digest) == DirStream(dir, digest) {
      FramesUnique(single, lines);
      SortedWalk(dir);
      assert sorted[0] in sorted;
      var comps := WalkSound(dir, "", sorted[0]);
      NoNulInRel("", comps);
    }
  }

  // ----- Listings of one tree -----

  /** Every entry of `a` other than `.git` is listed in `b`, below it too. */
  ghost predicate Covers(a: seq<Entry>, b: seq<Entry>) {
    forall i :: 0 <= i < |a| && a[i].0 != ".git" ==> exists j :: 0 <= j < |b| && CoversEntry(a[i], b[j])
  }

  ghost predicate CoversEntry(e: Entry, f: Entry) {
    && e.0 == f.0
    && match (e.1, f.1)
       case (Dir(x), Dir(y)) => Covers(x, y)
       case (File(x), File(y)) => x == y
       case (Other, Other) => true
       case _ => false
  }

  lemma {:induction false} CoversFiles(a: seq<Entry>, b: seq<Entry>, comps: seq<string>, content: Bytes)
    requires Covers(a, b) && HasFile(a, comps, content)
    ensures HasFile(b, comps, content)
    decreases |comps|
  {
    var i :| 0 <= i < |a| && a[i].0 == comps[0] && LeadsTo(a[i].1, comps[1..], content);
    var j :| 0 <= j < |b| && CoversEntry(a[i], b[j]);
    if a[i].1.Dir? {
      CoversFiles(a[i].1.entries, b[j].1.entries, comps[1..], content);
    }
    assert LeadsTo(b[j].1, comps[1..], content);
  }

  /** Listing a tree in another order, or changing anything under `.git`, leaves the stream as it was. */
  lemma {:induction false} OrderAndGitIgnored(a: seq<Entry>, b: seq<Entry>, digest: Digest)
    requires ValidDir(a) && ValidDir(b) && Covers(a, b) && Covers(b, a)
    ensures DirStream(a, digest) == DirStream(b, digest)
  {
    forall comps, d
      ensures HasDigest(a, comps, digest, d) <==> HasDigest(b, comps, digest, d)
    {
      if content :| HasFile(a, comps, content) && digest(content) == d {
        CoversFiles(a, b, comps, content);
      }
      if content :| HasFile(b, comps, content) && digest(content) == d {
        CoversFiles(b, a, comps, content);
      }
    }
    StreamIff(a, b, digest);
  }
}
