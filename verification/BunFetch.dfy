/**
  The fetched Bun runtime of src-tauri/src/runtime.rs: download, verify, unzip, sidecar, seed.  SHA-256
  and zip decoding are parameters.  The process may die between any two writes to the disk, and inside
  each of them.
*/
module BunFetch {
  import opened Wrappers
  import opened Text
  import Utf8

  type Bytes = Utf8.Bytes

  /** One entry of an archive as the loop sees it; `content` is what copying it would write. */
  datatype ZipEntry = ZipEntry(name: string, isFile: bool, content: Bytes)

  /** The pin and the two decoders. */
  datatype Release = Release(pin: string, binName: string, sha: Bytes -> string, unzip: Bytes -> Option<seq<ZipEntry>>)

  // ----- What is extracted -----

  /** The part of an entry name after its last slash. */
  function Tail(name: string): string
    decreases |name|
  {
    if name == "" || name[|name| - 1] == '/' then "" else Tail(name[..|name| - 1]) + [name[|name| - 1]]
  }

  predicate IsBinary(e: ZipEntry, binName: string) {
    e.isFile && Tail(e.name) == binName
  }

  /** The content of the first file entry that is the binary. */
  function FirstBinary(entries: seq<ZipEntry>, binName: string): (r: Option<Bytes>)
    ensures r.None? <==> forall e :: e in entries ==> !IsBinary(e, binName)
  {
    if entries == [] then None
    else if IsBinary(entries[0], binName) then Some(entries[0].content)
    else FirstBinary(entries[1..], binName)
  }

  /** A file named `binName`, in whatever folder. */
  ghost predicate NamesBinary(e: ZipEntry, binName: string) {
    e.isFile && (e.name == binName || EndsWith(e.name, "/" + binName))
  }

  /** `entries[i]` is the first such file, and this is what it holds. */
  ghost predicate IsFirstBinary(entries: seq<ZipEntry>, binName: string, i: nat, content: Bytes) {
    && i < |entries| && NamesBinary(entries[i], binName) && entries[i].content == content
    && forall j :: 0 <= j < i ==> !NamesBinary(entries[j], binName)
  }

  lemma {:induction false} TailIs(name: string, binName: string)
    requires '/' !in binName
    ensures Tail(name) == binName <==> name == binName || EndsWith(name, "/" + binName)
    decreases |name|
  {
    if name != "" && name[|name| - 1] != '/' {
      var init, last := name[..|name| - 1], name[|name| - 1];
      assert name == init + [last];
      if binName != "" {
        var front := binName[..|binName| - 1];
        TailIs(init, front);
        assert binName == front + [binName[|binName| - 1]];
        assert Tail(name)[..|Tail(name)| - 1] == Tail(init);
        EndsPush(init, "/" + front, last, binName[|binName| - 1]);
        assert "/" + binName == "/" + front + [binName[|binName| - 1]];
      }
    } else if name != "" && binName == "" {
      assert name[|name| - 1..] == "/";
    }
  }

  lemma {:induction false} EndsPush(s: string, end: string, c: char, d: char)
    ensures EndsWith(s + [c], end + [d]) <==> EndsWith(s, end) && c == d
  {
    if |end| <= |s| {
      var k := |s| - |end|;
      assert (s + [c])[k..] == s[k..] + [c];
      assert (s[k..] + [c])[..|end|] == s[k..] && (end + [d])[..|end|] == end;
      assert (s[k..] + [c])[|end|] == c && (end + [d])[|end|] == d;
    }
  }

  lemma {:induction false} NoSlash(name: string)
    ensures '/' !in Tail(name)
    decreases |name|
  {
    if name != "" {
      NoSlash(name[..|name| - 1]);
    }
  }

  /** What an archive gives is the content of its first file named like the binary, in whatever folder. */
  lemma {:induction false} FirstBinaryIs(entries: seq<ZipEntry>, binName: string)
    requires '/' !in binName
    ensures match FirstBinary(entries, binName)
            case None => forall i :: 0 <= i < |entries| ==> !NamesBinary(entries[i], binName)
            case Some(content) => exists i: nat :: IsFirstBinary(entries, binName, i, content)
  {
    hide Tail, NamesBinary;
    if entries != [] {
      var rest := entries[1..];
      FirstBinaryIs(rest, binName);
      NamesIff(entries[0], binName);
      if IsBinary(entries[0], binName) {
        assert FirstBinary(entries, binName) == Some(entries[0].content);
        assert IsFirstBinary(entries, binName, 0, entries[0].content);
      } else if FirstBinary(rest, binName).Some? {
        assert FirstBinary(entries, binName) == FirstBinary(rest, binName);
        var content := FirstBinary(entries, binName).value;
        var i: nat :| IsFirstBinary(rest, binName, i, content);
        assert IsFirstBinary(entries, binName, i + 1, content);
      } else {
        assert forall i :: 1 <= i < |entries| ==> entries[i] == rest[i - 1];
      }
    }
  }

  lemma {:induction false} NamesIff(e: ZipEntry, binName: string)
    requires '/' !in binName
    ensures IsBinary(e, binName) <==> NamesBinary(e, binName)
  {
    hide Tail;
    TailIs(e.name, binName);
  }

  function Extract(rel: Release, zip: Bytes): Option<Bytes> {
    match rel.unzip(zip) case None => None case Some(entries) => FirstBinary(entries, rel.binName)
  }

  /** `bin` is the whole binary of some archive with the pinned hash. */
  ghost predicate Genuine(rel: Release, bin: Bytes) {
    exists zip :: rel.sha(zip) == rel.pin && Extract(rel, zip) == Some(bin)
  }

  // ----- The disk and the process -----

  /** The two files the fetch writes; they outlive the process. */
  datatype Disk = Disk(bin: Option<Bytes>, sidecar: Option<string>)

  /** Where `ensure_bun` stands. */
  datatype Phase =
    | Idle                                   // not running, or ended with an error
    | Fetching(got: Bytes)
    | Copying(zip: Bytes, content: Bytes, n: nat)   // n bytes of content written
    | Marking(zip: Bytes, n: nat)                   // n characters of the sidecar written
    | Unseeded(zip: Bytes)

  datatype Sys = Sys(disk: Disk, seeded: bool, phase: Phase)

  function SidecarText(rel: Release): string {
    rel.pin + "\n"
  }

  /** `fetched_sidecar_matches_pin`. */
  predicate Matches(rel: Release, disk: Disk) {
    disk.sidecar.Some? && Trim(disk.sidecar.value) == rel.pin
  }

  datatype Step =
    | Call                        // ensure_bun is called
    | Chunk(bytes: Bytes)         // the download delivers bytes
    | Verify                      // the stream has ended
    | Write(n: nat)               // up to n more bytes of the file being written reach the disk
    | Close                       // the file being written is complete; go on
    | Fail                        // any error return
    | Die                         // the process dies; a new one starts

  function Min(a: nat, b: nat): nat {
    if a < b then a else b
  }

  /** Hash, archive and entry checks between the last chunk and the first write to the disk. */
  function Verified(rel: Release, sys: Sys, got: Bytes): Sys {
    if rel.sha(got) != rel.pin then sys.(phase := Idle)
    else match Extract(rel, got)
         case None => sys.(phase := Idle)
         case Some(content) => sys.(disk := sys.disk.(bin := Some([])), phase := Copying(got, content, 0))
  }

  function Next(rel: Release, sys: Sys, step: Step): Sys {
    match (step, sys.phase)
    case (Call, Idle) =>
      if sys.seeded then sys
      else if sys.disk.bin.Some? && Matches(rel, sys.disk) then sys.(seeded := true)
      else sys.(phase := Fetching([]))
    case (Chunk(bytes), Fetching(got)) => sys.(phase := Fetching(got + bytes))
    case (Verify, Fetching(got)) => Verified(rel, sys, got)
    case (Write(n), Copying(zip, content, k)) =>
      var m := Min(k + n, |content|);
      sys.(disk := sys.disk.(bin := Some(content[..m])), phase := Copying(zip, content, m))
    case (Close, Copying(zip, content, k)) =>
      if k < |content| then sys
      else sys.(disk := sys.disk.(sidecar := Some("")), phase := Marking(zip, 0))
    case (Write(n), Marking(zip, k)) =>
      var m := Min(k + n, |SidecarText(rel)|);
      sys.(disk := sys.disk.(sidecar := Some(SidecarText(rel)[..m])), phase := Marking(zip, m))
    case (Close, Marking(zip, k)) =>
      if k < |SidecarText(rel)| then sys else sys.(phase := Unseeded(zip))
    case (Close, Unseeded(_)) => sys.(seeded := true, phase := Idle)
    case (Fail, _) => sys.(phase := Idle)
    case (Die, _) => Sys(sys.disk, false, Idle)
    case _ => sys
  }

  function Run(rel: Release, sys: Sys, steps: seq<Step>): Sys {
    if steps == [] then sys else Next(rel, Run(rel, sys, steps[..|steps| - 1]), steps[|steps| - 1])
  }

  // ----- Safety -----

  ghost predicate DiskOk(rel: Release, disk: Disk) {
    Matches(rel, disk) ==> disk.bin.Some? && Genuine(rel, disk.bin.value)
  }

  ghost predicate Inv(rel: Release, sys: Sys) {
    && DiskOk(rel, sys.disk)
    && (sys.seeded ==> sys.phase == Idle && sys.disk.bin.Some? && Genuine(rel, sys.disk.bin.value))
    && match sys.phase
       case Idle => true
       case Fetching(_) => !Matches(rel, sys.disk)
       case Copying(zip, content, n) =>
         && !Matches(rel, sys.disk) && n <= |content|
         && rel.sha(zip) == rel.pin && Extract(rel, zip) == Some(content) && sys.disk.bin == Some(content[..n])
       case Marking(zip, n) =>
         && rel.sha(zip) == rel.pin && Extract(rel, zip).Some? && sys.disk.bin == Extract(rel, zip)
         && n <= |SidecarText(rel)| && sys.disk.sidecar == Some(SidecarText(rel)[..n])
       case Unseeded(zip) =>
         && rel.sha(zip) == rel.pin && Extract(rel, zip).Some? && sys.disk.bin == Extract(rel, zip)
         && sys.disk.sidecar == Some(SidecarText(rel))
  }

  lemma {:induction false} StepKeeps(rel: Release, sys: Sys, step: Step)
    requires Inv(rel, sys)
    ensures Inv(rel, Next(rel, sys, step))
  {
    hide Trim, Extract;
    if sys.phase.Copying? {
      assert sys.phase.content[..|sys.phase.content|] == sys.phase.content;
    } else if sys.phase.Marking? {
      assert SidecarText(rel)[..|SidecarText(rel)|] == SidecarText(rel);
      assert Genuine(rel, sys.disk.bin.value);
    } else if sys.phase.Unseeded? {
      assert Genuine(rel, sys.disk.bin.value);
    }
  }

  /**
    Over every run from a disk that satisfies it, with crashes anywhere: a matching sidecar, or a seeded
    path, means the binary on disk is the complete extract of an archive with the pinned hash.
  */
  lemma {:induction false} TrustedMeansGenuine(rel: Release, disk: Disk, steps: seq<Step>)
    requires DiskOk(rel, disk)
    ensures var end := Run(rel, Sys(disk, false, Idle), steps);
            Matches(rel, end.disk) || end.seeded ==> end.disk.bin.Some? && Genuine(rel, end.disk.bin.value)
  {
    RunKeeps(rel, disk, steps);
  }

  lemma {:induction false} RunKeeps(rel: Release, disk: Disk, steps: seq<Step>)
    requires DiskOk(rel, disk)
    ensures Inv(rel, Run(rel, Sys(disk, false, Idle), steps))
  {
    if steps != [] {
      RunKeeps(rel, disk, steps[..|steps| - 1]);
      StepKeeps(rel, Run(rel, Sys(disk, false, Idle), steps[..|steps| - 1]), steps[|steps| - 1]);
    }
  }

  lemma {:induction false} RunAppend(rel: Release, sys: Sys, a: seq<Step>, b: seq<Step>)
    ensures Run(rel, sys, a + b) == Run(rel, Run(rel, sys, a), b)
  {
    if b == [] {
      assert a + b == a;
    } else {
      RunAppend(rel, sys, a, b[..|b| - 1]);
      assert (a + b)[..|a + b| - 1] == a + b[..|b| - 1];
    }
  }

  /** Whatever a boot would trust now is genuine. */
  ghost predicate Trustworthy(rel: Release, sys: Sys) {
    sys.seeded || (sys.disk.bin.Some? && Matches(rel, sys.disk)) ==> sys.disk.bin.Some? && Genuine(rel, sys.disk.bin.value)
  }

  ghost predicate SafeFrom(rel: Release, disk: Disk) {
    forall steps :: Trustworthy(rel, Run(rel, Sys(disk, false, Idle), steps))
  }

  /**
    The condition on the first disk is needed: given a pinned archive whose binary is not genuine when cut
    short, every run is safe exactly if a matching sidecar never stands without the binary it vouches for.
    A fetch does not remove the old sidecar, so one left behind without its binary vouches for a partial copy.
  */
  lemma {:induction false} SafeFromIff(rel: Release, disk: Disk, zip: Bytes, m: nat)
    requires rel.sha(zip) == rel.pin && Extract(rel, zip).Some?
    requires m <= |Extract(rel, zip).value| && !Genuine(rel, Extract(rel, zip).value[..m])
    ensures SafeFrom(rel, disk) <==> DiskOk(rel, disk)
  {
    hide Trim, Run, Extract;
    if DiskOk(rel, disk) {
      forall steps ensures Trustworthy(rel, Run(rel, Sys(disk, false, Idle), steps)) {
        TrustedMeansGenuine(rel, disk, steps);
      }
    } else if disk.bin.Some? {
      NoSteps(rel, Sys(disk, false, Idle));
      assert !Trustworthy(rel, Run(rel, Sys(disk, false, Idle), []));
    } else {
      var steps := CrashWhileCopying(rel, disk, zip, m);
      assert !Trustworthy(rel, Run(rel, Sys(disk, false, Idle), steps));
    }
  }

  lemma {:induction false} CrashWhileCopying(rel: Release, disk: Disk, zip: Bytes, m: nat) returns (steps: seq<Step>)
    requires disk.bin.None? && Matches(rel, disk)
    requires rel.sha(zip) == rel.pin && Extract(rel, zip).Some? && m <= |Extract(rel, zip).value|
    ensures Run(rel, Sys(disk, false, Idle), steps) == Sys(Disk(Some(Extract(rel, zip).value[..m]), disk.sidecar), true, Idle)
  {
    hide Trim, Run, Extract;
    var start := Sys(disk, false, Idle);
    FirstStep(rel, start, Call);
    steps := [Call];
    var rest := [Chunk(zip), Verify, Write(m), Die, Call];
    for i := 0 to |rest|
      invariant |steps| == i + 1
      invariant Run(rel, start, steps) == CrashAt(rel, disk, zip, m, i)
    {
      assert [] + zip == zip;
      OneMore(rel, start, steps, rest[i]);
      steps := steps + [rest[i]];
    }
  }

  /** The states that crash goes through. */
  ghost function CrashAt(rel: Release, disk: Disk, zip: Bytes, m: nat, i: nat): Sys
    requires Extract(rel, zip).Some? && m <= |Extract(rel, zip).value|
  {
    var content := Extract(rel, zip).value;
    if i == 0 then Sys(disk, false, Fetching([]))
    else if i == 1 then Sys(disk, false, Fetching(zip))
    else if i == 2 then Sys(disk.(bin := Some([])), false, Copying(zip, content, 0))
    else if i == 3 then Sys(disk.(bin := Some(content[..m])), false, Copying(zip, content, m))
    else Sys(disk.(bin := Some(content[..m])), i == 5, Idle)
  }

  /** A sidecar vouches for the binary exactly if it holds the pin and nothing but whitespace around it. */
  lemma {:induction false} MatchesIff(rel: Release, disk: Disk)
    requires Trimmed(rel.pin)
    ensures Matches(rel, disk) <==>
            disk.sidecar.Some?
            && exists a, b :: AllWhitespace(a) && AllWhitespace(b) && disk.sidecar.value == a + rel.pin + b
  {
    hide Trim;
    if Matches(rel, disk) {
      var a, b := TrimSplits(disk.sidecar.value);
      assert disk.sidecar.value == a + rel.pin + b;
    }
    if disk.sidecar.Some? {
      if a, b :| AllWhitespace(a) && AllWhitespace(b) && disk.sidecar.value == a + rel.pin + b {
        TrimIs(a, rel.pin, b);
      }
    }
  }

  /** A sidecar cut short by a crash is trusted exactly when all of the pin made it to the disk. */
  lemma {:induction false} SidecarTrustedIff(rel: Release, bin: Option<Bytes>, m: nat)
    requires Trimmed(rel.pin) && m <= |SidecarText(rel)|
    ensures Matches(rel, Disk(bin, Some(SidecarText(rel)[..m]))) <==> m >= |rel.pin|
  {
    var text := SidecarText(rel)[..m];
    if m >= |rel.pin| {
      var end := text[|rel.pin|..];
      assert AllWhitespace(end);
      assert text == "" + rel.pin + end;
      TrimIs("", rel.pin, end);
    }
  }

  // ----- ensure_bun in one process -----

  /** How the outside world answers one call: every fallible operation, in source order. */
  datatype Answers = Answers(
    requestOk: bool,
    chunks: seq<Option<Bytes>>,   // None is a stream error
    createOk: bool,
    copied: nat,                  // bytes of the binary that reach the disk
    chmodOk: bool,
    marked: nat)                  // characters of the sidecar that reach the disk

  /** The whole download, unless the stream breaks. */
  function Download(chunks: seq<Option<Bytes>>): Option<Bytes> {
    if chunks == [] then Some([])
    else match Download(chunks[..|chunks| - 1])
         case None => None
         case Some(got) => (match chunks[|chunks| - 1] case None => None case Some(c) => Some(got + c))
  }

  lemma {:induction false} BrokenStays(chunks: seq<Option<Bytes>>, i: nat)
    requires i < |chunks| && chunks[i].None?
    ensures Download(chunks).None?
  {
    if i < |chunks| - 1 {
      BrokenStays(chunks[..|chunks| - 1], i);
    }
  }

  lemma {:induction false} FirstStep(rel: Release, sys: Sys, step: Step)
    ensures Run(rel, sys, [step]) == Next(rel, sys, step)
  {
    assert [step][..0] == [];
    assert Run(rel, sys, []) == sys;
  }

  lemma {:induction false} NoSteps(rel: Release, sys: Sys)
    ensures Run(rel, sys, []) == sys
  {
  }

  lemma {:induction false} OneMore(rel: Release, sys: Sys, steps: seq<Step>, step: Step)
    ensures Run(rel, sys, steps + [step]) == Next(rel, Run(rel, sys, steps), step)
  {
    assert (steps + [step])[..|steps|] == steps;
  }

  function ChunkSteps(chunks: seq<Option<Bytes>>): seq<Step>
    requires Download(chunks).Some?
  {
    if chunks == [] then [] else ChunkSteps(chunks[..|chunks| - 1]) + [Chunk(chunks[|chunks| - 1].value)]
  }

  lemma {:induction false} ChunksRun(rel: Release, sys: Sys, steps: seq<Step>, chunks: seq<Option<Bytes>>)
    requires Download(chunks).Some? && Run(rel, sys, steps).phase == Fetching([])
    ensures Run(rel, sys, steps + ChunkSteps(chunks)) == Run(rel, sys, steps).(phase := Fetching(Download(chunks).value))
  {
    if chunks == [] {
      assert steps + [] == steps;
    } else {
      var init := chunks[..|chunks| - 1];
      ChunksRun(rel, sys, steps, init);
      var last := Chunk(chunks[|chunks| - 1].value);
      OneMore(rel, sys, steps + ChunkSteps(init), last);
      assert steps + ChunkSteps(chunks) == steps + ChunkSteps(init) + [last];
    }
  }

  class Runtime {
    const rel: Release
    var disk: Disk
    var seeded: bool

    constructor (rel: Release, disk: Disk)
      ensures this.rel == rel && this.disk == disk && !seeded
    {
      this.rel, this.disk, this.seeded := rel, disk, false;
    }

    /** The call ends with this archive on disk, marked and seeded. */
    ghost predicate Installs(a: Answers, zip: Bytes) {
      && a.requestOk && Download(a.chunks) == Some(zip)
      && rel.sha(zip) == rel.pin && Extract(rel, zip).Some?
      && a.createOk && a.copied >= |Extract(rel, zip).value| && a.chmodOk && a.marked >= |SidecarText(rel)|
    }

    method ReadStream(chunks: seq<Option<Bytes>>) returns (got: Option<Bytes>)
      ensures got == Download(chunks)
    {
      var bytes: Bytes := [];
      for i := 0 to |chunks|
        invariant Download(chunks[..i]) == Some(bytes)
      {
        assert chunks[..i + 1][..i] == chunks[..i];
        match chunks[i]
        case None =>
          BrokenStays(chunks, i);
          return None;
        case Some(c) =>
          bytes := bytes + c;
      }
      assert chunks[..|chunks|] == chunks;
      got := Some(bytes);
    }

    /** The first file of that name, in whatever folder; a name with a slash in it is never found. */
    method FindBinary(entries: seq<ZipEntry>) returns (found: Option<Bytes>)
      ensures found == FirstBinary(entries, rel.binName)
      ensures '/' !in rel.binName ==>
                match found
                case None => forall i :: 0 <= i < |entries| ==> !NamesBinary(entries[i], rel.binName)
                case Some(content) => exists i: nat :: IsFirstBinary(entries, rel.binName, i, content)
      ensures '/' in rel.binName ==> found == None
    {
      hide Tail, NamesBinary;
      forall e ensures IsBinary(e, rel.binName) ==> '/' !in rel.binName {
        NoSlash(e.name);
      }
      if '/' !in rel.binName {
        FirstBinaryIs(entries, rel.binName);
      }
      for i := 0 to |entries|
        invariant FirstBinary(entries, rel.binName) == FirstBinary(entries[i..], rel.binName)
      {
        assert entries[i..][1..] == entries[i + 1..];
        if !entries[i].isFile {
          continue;
        }
        if Tail(entries[i].name) == rel.binName {
          return Some(entries[i].content);
        }
      }
      return None;
    }

    /** Write the binary and then its sidecar, having verified the archive. */
    method Install(zip: Bytes, content: Bytes, a: Answers, ghost start: Sys, ghost before: seq<Step>)
      returns (ok: bool, ghost steps: seq<Step>)
      requires Run(rel, start, before) == Sys(disk.(bin := Some([])), false, Copying(zip, content, 0))
      modifies this
      ensures ok <==> a.copied >= |content| && a.chmodOk && a.marked >= |SidecarText(rel)|
      ensures seeded == (if ok then true else old(seeded))
      ensures ok ==> disk == Disk(Some(content), Some(SidecarText(rel)))
      ensures Run(rel, start, steps) == Sys(disk, ok, Idle)
    {
      hide Run;
      steps := before + [Write(a.copied)];
      OneMore(rel, start, before, Write(a.copied));
      OneMore(rel, start, steps, Fail);
      disk := disk.(bin := Some([]));
      if a.copied < |content| {
        disk := disk.(bin := Some(content[..a.copied]));
        return false, steps + [Fail];
      }
      disk := disk.(bin := Some(content));
      assert content[..|content|] == content;
      if !a.chmodOk {
        return false, steps + [Fail];
      }
      OneMore(rel, start, steps, Close);
      steps := steps + [Close];
      var text := SidecarText(rel);
      OneMore(rel, start, steps, Write(a.marked));
      steps := steps + [Write(a.marked)];
      OneMore(rel, start, steps, Fail);
      if a.marked < |text| {
        disk := disk.(sidecar := Some(text[..a.marked]));
        return false, steps + [Fail];
      }
      disk := disk.(sidecar := Some(text));
      assert text[..|text|] == text;
      OneMore(rel, start, steps, Close);
      OneMore(rel, start, steps + [Close], Close);
      steps := steps + [Close] + [Close];
      seeded := true;
      return true, steps;
    }

    /**
      Already seeded or trusted: nothing is fetched.  Otherwise the call succeeds exactly when every
      operation does and the download is the pinned archive, and then installs its binary; on an error
      nothing is seeded, and an unverified download never touches the disk.
    */
    method EnsureBun(a: Answers) returns (ok: bool, ghost steps: seq<Step>)
      modifies this
      ensures Run(rel, Sys(old(disk), old(seeded), Idle), steps) == Sys(disk, seeded, Idle)
      ensures old(seeded || (disk.bin.Some? && Matches(rel, disk))) ==> ok && seeded && disk == old(disk)
      ensures !old(seeded || (disk.bin.Some? && Matches(rel, disk))) ==>
                && (ok <==> Download(a.chunks).Some? && Installs(a, Download(a.chunks).value))
                && seeded == ok
                && (ok ==> disk == Disk(Extract(rel, Download(a.chunks).value), Some(rel.pin + "\n")))
                && (Download(a.chunks).None? || rel.sha(Download(a.chunks).value) != rel.pin ==> disk == old(disk))
    {
      hide Run, Trim;
      ghost var start := Sys(disk, seeded, Idle);
      steps := [];
      NoSteps(rel, start);
      if seeded {
        return true, steps;
      }
      steps := [Call];
      FirstStep(rel, start, Call);
      if disk.bin.Some? && Matches(rel, disk) {
        seeded := true;
        return true, steps;
      }
      var got := ReadStream(a.chunks);
      if !a.requestOk || got.None? {
        OneMore(rel, start, steps, Fail);
        steps := steps + [Fail];
        return false, steps;
      }
      var bytes := got.value;
      ChunksRun(rel, start, steps, a.chunks);
      steps := steps + ChunkSteps(a.chunks);
      ghost var fetched := steps;
      OneMore(rel, start, fetched, Verify);
      OneMore(rel, start, fetched, Fail);
      steps := fetched + [Verify];
      if rel.sha(bytes) != rel.pin {
        return false, steps;
      }
      var entries := rel.unzip(bytes);
      if entries.None? {
        return false, steps;
      }
      var found := FindBinary(entries.value);
      if found.None? {
        return false, steps;
      }
      if !a.createOk {
        return false, fetched + [Fail];
      }
      assert Run(rel, start, steps).phase == Copying(bytes, found.value, 0);
      ok, steps := Install(bytes, found.value, a, start, steps);
    }
  }

  // ----- Progress -----

  const U64_MAX := 0xFFFF_FFFF_FFFF_FFFF

  /** A `Vec<u8>` never holds more than `isize::MAX` bytes. */
  const VEC_MAX := 0x7FFF_FFFF_FFFF_FFFF

  function Sum(lens: seq<nat>): nat {
    if lens == [] then 0 else Sum(lens[..|lens| - 1]) + lens[|lens| - 1]
  }

  /** `+=` on a `u64`. */
  function AddU64(a: nat, b: nat): nat {
    (a + b) % (U64_MAX + 1)
  }

  lemma {:induction false} SumGrows(lens: seq<nat>, i: nat)
    requires i <= |lens|
    ensures Sum(lens[..i]) <= Sum(lens)
    decreases |lens| - i
  {
    if i == |lens| {
      assert lens[..i] == lens;
    } else {
      SumGrows(lens, i + 1);
      assert lens[..i + 1][..i] == lens[..i];
    }
  }

  /** `((downloaded.saturating_mul(100)) / total).min(100)`. */
  function Percent(downloaded: nat, total: nat): (p: nat)
    requires total > 0
    ensures p <= 100
  {
    var product := if downloaded * 100 > U64_MAX then U64_MAX else downloaded * 100;
    var q := product / total;
    if q > 100 then 100 else q
  }

  /** The percentage is the largest whole number up to 100 that the saturated product still reaches. */
  lemma {:induction false} PercentIff(downloaded: nat, total: nat, q: nat)
    requires total > 0
    ensures Percent(downloaded, total) >= q <==>
            q <= 100 && q * total <= (if downloaded * 100 > 0xFFFF_FFFF_FFFF_FFFF then 0xFFFF_FFFF_FFFF_FFFF else downloaded * 100)
  {
    QuotientAtLeast(if downloaded * 100 > U64_MAX then U64_MAX else downloaded * 100, total, q);
  }

  lemma {:induction false} MulMonotone(a: nat, b: nat, t: nat)
    ensures a >= b ==> a * t >= b * t
  {
    if a >= b {
      assert a * t == b * t + (a - b) * t;
    }
  }

  lemma {:induction false} QuotientAtLeast(x: nat, t: nat, q: nat)
    requires t > 0
    ensures x / t >= q <==> x >= q * t
  {
    var d := x / t;
    assert d * t <= x < d * t + t;
    MulMonotone(d, q, t);
    MulMonotone(q, d + 1, t);
    assert (d + 1) * t == d * t + t;
  }

  lemma {:induction false} PercentMonotone(a: nat, b: nat, total: nat)
    requires a <= b && total > 0
    ensures Percent(a, total) <= Percent(b, total)
  {
    var x := if a * 100 > U64_MAX then U64_MAX else a * 100;
    var y := if b * 100 > U64_MAX then U64_MAX else b * 100;
    QuotientAtLeast(x, total, x / total);
    QuotientAtLeast(y, total, x / total);
  }

  /** 100 is reached exactly by a full download whose total, times 100, fits in 64 bits. */
  lemma {:induction false} HundredIff(downloaded: nat, total: nat)
    requires total > 0
    ensures Percent(downloaded, total) == 100 <==> downloaded >= total && total * 100 <= 0xFFFF_FFFF_FFFF_FFFF
  {
    var product := if downloaded * 100 > U64_MAX then U64_MAX else downloaded * 100;
    QuotientAtLeast(product, total, 100);
  }

  ghost predicate StrictlyRising(ps: seq<nat>) {
    forall i, j :: 0 <= i < j < |ps| ==> ps[i] < ps[j]
  }

  lemma {:induction false} RisingIsShort(ps: seq<nat>)
    requires StrictlyRising(ps) && ps != []
    ensures ps[|ps| - 1] >= ps[0] + |ps| - 1
  {
    if |ps| > 1 {
      RisingIsShort(ps[..|ps| - 1]);
    }
  }

  /**
    The percentages sent for a stream of chunks: they start at 0, rise strictly, stay within 100, and
    end at what has been downloaded, so at most 101 are sent.
  */
  method EmitProgress(total: Option<nat>, lens: seq<nat>) returns (sent: seq<nat>)
    requires Sum(lens) <= VEC_MAX
    ensures sent != [] && sent[0] == 0 && StrictlyRising(sent) && |sent| <= 101
    ensures forall i :: 0 <= i < |sent| ==> sent[i] <= 100
    ensures total.Some? && total.value > 0 ==> sent[|sent| - 1] == Percent(Sum(lens), total.value)
    ensures total.None? || total.value == 0 ==> sent == [0]
  {
    hide Percent, Sum, AddU64, StrictlyRising;
    sent := [0];
    var downloaded: nat := 0;
    var lastPct := 0;
    ProgressStarts(lens, total);
    for i := 0 to |lens|
      invariant downloaded == Sum(lens[..i])
      invariant sent != [] && sent[0] == 0 && StrictlyRising(sent) && sent[|sent| - 1] == lastPct
      invariant forall k :: 0 <= k < |sent| ==> sent[k] <= 100
      invariant total.Some? && total.value > 0 ==> lastPct == Percent(downloaded, total.value)
      invariant total.None? || total.value == 0 ==> sent == [0]
    {
      ghost var before := downloaded;
      SumNext(lens, i);
      downloaded := AddU64(downloaded, lens[i]);
      if total.Some? {
        if total.value > 0 {
          PercentMonotone(before, downloaded, total.value);
          var pct := Percent(downloaded, total.value);
          if pct != lastPct {
            PushRising(sent, pct);
            lastPct := pct;
            sent := sent + [pct];
          }
        }
      }
    }
    assert lens[..|lens|] == lens;
    RisingIsShort(sent);
  }

  lemma {:induction false} ProgressStarts(lens: seq<nat>, total: Option<nat>)
    ensures Sum(lens[..0]) == 0 && StrictlyRising([0])
    ensures total.Some? && total.value > 0 ==> Percent(0, total.value) == 0
  {
    assert lens[..0] == [];
    if total.Some? && total.value > 0 {
      QuotientAtLeast(0, total.value, 1);
    }
  }

  /** The running total never wraps. */
  lemma {:induction false} SumNext(lens: seq<nat>, i: nat)
    requires i < |lens| && Sum(lens) <= VEC_MAX
    ensures Sum(lens[..i + 1]) == AddU64(Sum(lens[..i]), lens[i]) == Sum(lens[..i]) + lens[i]
  {
    assert lens[..i + 1][..i] == lens[..i];
    SumGrows(lens, i + 1);
  }

  lemma {:induction false} PushRising(ps: seq<nat>, p: nat)
    requires StrictlyRising(ps) && ps != [] && ps[|ps| - 1] < p
    ensures StrictlyRising(ps + [p])
  {
  }
}
