/**
  What a viewer preview mount may serve, src-tauri/src/viewer_guard.rs.  Paths are canonical: the normal
  components below `/`, so `starts_with` is the prefix order.
*/
module ViewerGuard {
  import opened Wrappers
  import opened Text

  type Path = seq<string>

  const NOT_CONTAINED := "preview root does not contain the file"
  const NO_DIRECTORY := "preview file has no directory"
  const ROOT_ABOVE_PROJECT := "preview root is above the project root; refusing to widen the viewer mount beyond it"

  datatype MountScope = Tree | SingleFile(only: Path)

  /** The host's side of the decision: the roots of its projects and the home directory. */
  datatype Host = Host(roots: seq<Path>, home: Option<Path>)

  function Parent(p: Path): Option<Path> {
    if p == [] then None else Some(p[..|p| - 1])
  }

  // ----- The project root -----

  /** A root that can bound the file: below `/`, neither home nor above it, and containing the file. */
  predicate Eligible(r: Path, file: Path, home: Option<Path>) {
    r != [] && (home.None? || !(r <= home.value)) && r <= file
  }

  function EligibleOf(roots: seq<Path>, file: Path, home: Option<Path>): seq<Path> {
    if roots == [] then []
    else (if Eligible(roots[0], file, home) then [roots[0]] else []) + EligibleOf(roots[1..], file, home)
  }

  /** `max_by_key`: the last of the longest. */
  function Deepest(roots: seq<Path>): Option<Path> {
    if roots == [] then None
    else
      var last := roots[|roots| - 1];
      match Deepest(roots[..|roots| - 1])
      case None => Some(last)
      case Some(best) => if |best| > |last| then Some(best) else Some(last)
  }

  function ProjectRootOf(file: Path, host: Host): Option<Path> {
    Deepest(EligibleOf(host.roots, file, host.home))
  }

  // ----- The mount -----

  predicate IsBroadDir(dir: Path, home: Option<Path>) {
    || |dir| <= 1
    || Parent(dir).None?
    || (home.Some? && dir <= home.value)
    || (Parent(dir).Some? &&
        (Parent(dir).value == ["home"] || (home.Some? && Parent(home.value) == Parent(dir))))
  }

  function ResolveMount(root: Path, file: Path, host: Host): Result<MountScope> {
    if !(root <= file) then Err(NOT_CONTAINED)
    else match Parent(file)
         case None => Err(NO_DIRECTORY)
         case Some(ownDir) =>
           var project := ProjectRootOf(file, host);
           var bound := if project.Some? then project.value else ownDir;
           if !(bound <= root) then Err(ROOT_ABOVE_PROJECT)
           else if IsBroadDir(bound, host.home) then Ok(SingleFile(file))
           else Ok(Tree)
  }

  // ----- Serving -----

  const SENSITIVE_NAMES :=
    [".ssh", ".claude", ".aws", ".gnupg", ".config", ".netrc", ".git-credentials", ".env", ".docker", ".kube",
     ".azure", ".npmrc", ".pgpass", ".password-store"]

  const KEY_KINDS := ["rsa", "dsa", "ecdsa", "ed25519"]

  predicate IsSensitiveName(name: string) {
    var n := Lower(name);
    || n in SENSITIVE_NAMES
    || StartsWith(n, ".env.")
    || exists i :: 0 <= i < |KEY_KINDS| && StartsWith(n, "id_") && StartsWith(n[3..], KEY_KINDS[i])
  }

  predicate IsSensitivePath(path: Path) {
    exists i :: 0 <= i < |path| && IsSensitiveName(path[i])
  }

  /** `linked`: the target is a file with more than one hard link. */
  predicate MayServe(scope: MountScope, target: Path, linked: bool) {
    !IsSensitivePath(target) && !linked && match scope case Tree => true case SingleFile(only) => target == only
  }

  /** A request under a mount is answered: it resolved inside the root and passes the gate. */
  predicate Serves(root: Path, file: Path, host: Host, target: Path, linked: bool) {
    var mount := ResolveMount(root, file, host);
    mount.Ok? && root <= target && MayServe(mount.value, target, linked)
  }

  /** The names of credentials, in any case. */
  ghost predicate NamesCredential(name: string) {
    var n := Lower(name);
    || n == ".ssh" || n == ".claude" || n == ".aws" || n == ".gnupg" || n == ".config" || n == ".netrc"
    || n == ".git-credentials" || n == ".env" || n == ".docker" || n == ".kube" || n == ".azure" || n == ".npmrc"
    || n == ".pgpass" || n == ".password-store"
    || ".env." <= n || "id_rsa" <= n || "id_dsa" <= n || "id_ecdsa" <= n || "id_ed25519" <= n
  }

  lemma {:induction false} SensitiveNameIff(name: string)
    ensures IsSensitiveName(name) <==> NamesCredential(name)
  {
    hide Lower;
    var n := Lower(name);
    assert KEY_KINDS[0] == "rsa" && KEY_KINDS[1] == "dsa" && KEY_KINDS[2] == "ecdsa" && KEY_KINDS[3] == "ed25519";
    forall i | 0 <= i < |KEY_KINDS|
      ensures "id_" <= n && KEY_KINDS[i] <= n[3..] <==> "id_" + KEY_KINDS[i] <= n
    {
      Prefixed("id_", KEY_KINDS[i], n);
    }
    assert "id_" + "rsa" == "id_rsa" && "id_" + "dsa" == "id_dsa";
    assert "id_" + "ecdsa" == "id_ecdsa" && "id_" + "ed25519" == "id_ed25519";
  }

  lemma {:induction false} Prefixed(a: string, b: string, n: string)
    ensures a <= n && b <= n[|a|..] <==> a + b <= n
  {
    assert (a + b)[..|a|] == a;
    if a <= n {
      assert n == a + n[|a|..];
      assert b <= n[|a|..] ==> n[|a|..] == b + n[|a|..][|b|..] && n == (a + b) + n[|a|..][|b|..];
      assert a + b <= n ==> n[|a|..][..|b|] == n[..|a| + |b|][|a|..] == b;
    }
  }

  /** Below a tree everything is served but hard links and what lies in or is a credential. */
  lemma {:induction false} TreeServesIff(target: Path, linked: bool)
    ensures MayServe(Tree, target, linked) <==> !linked && forall i :: 0 <= i < |target| ==> !NamesCredential(target[i])
  {
    hide NamesCredential, IsSensitiveName;
    forall i | 0 <= i < |target|
      ensures IsSensitiveName(target[i]) <==> NamesCredential(target[i])
    {
      SensitiveNameIff(target[i]);
    }
  }

  // ----- Which root is chosen -----

  lemma {:induction false} EligibleOfIs(roots: seq<Path>, file: Path, home: Option<Path>, r: Path)
    ensures r in EligibleOf(roots, file, home) <==> r in roots && Eligible(r, file, home)
  {
    hide Eligible;
    if roots != [] {
      EligibleOfIs(roots[1..], file, home, r);
      assert r in roots <==> r == roots[0] || r in roots[1..];
    }
  }

  lemma {:induction false} DeepestIs(roots: seq<Path>)
    ensures Deepest(roots) == None <==> roots == []
    ensures Deepest(roots).Some? ==> Deepest(roots).value in roots
    ensures Deepest(roots).Some? ==> forall q :: q in roots ==> |q| <= |Deepest(roots).value|
  {
    if roots != [] {
      var front, last := roots[..|roots| - 1], roots[|roots| - 1];
      DeepestIs(front);
      assert roots == front + [last];
    }
  }

  /** The eligible root that every other eligible root contains. */
  ghost predicate IsProjectRoot(r: Path, file: Path, host: Host) {
    r in host.roots && Eligible(r, file, host.home)
    && forall q :: q in host.roots && Eligible(q, file, host.home) ==> q <= r
  }

  lemma {:induction false} PrefixesNest(p: Path, q: Path, whole: Path)
    requires p <= whole && q <= whole
    ensures p <= q <==> |p| <= |q|
    ensures |p| == |q| ==> p == q
  {
    assert p == whole[..|p|] && q == whole[..|q|];
  }

  /** Nested roots have one deepest: the choice is determined by which roots there are, not by their order. */
  lemma {:induction false} ProjectRootIff(file: Path, host: Host)
    ensures forall r :: ProjectRootOf(file, host) == Some(r) <==> IsProjectRoot(r, file, host)
    ensures ProjectRootOf(file, host) == None <==> forall q :: q in host.roots ==> !Eligible(q, file, host.home)
  {
    var roots := EligibleOf(host.roots, file, host.home);
    forall q ensures q in roots <==> q in host.roots && Eligible(q, file, host.home) {
      EligibleOfIs(host.roots, file, host.home, q);
    }
    DeepestIs(roots);
    if roots != [] {
      assert roots[0] in roots;
      var best := Deepest(roots).value;
      forall q | q in roots ensures q <= best && (best <= q ==> q == best) {
        PrefixesNest(q, best, file);
      }
      assert IsProjectRoot(best, file, host);
      forall r | IsProjectRoot(r, file, host) ensures r == best {
        assert best <= r;
      }
    }
  }

  /** Order and repetition of the project roots make no difference. */
  lemma {:induction false} OrderOfRootsIgnored(root: Path, file: Path, a: Host, b: Host)
    requires a.home == b.home && forall r :: r in a.roots <==> r in b.roots
    ensures ResolveMount(root, file, a) == ResolveMount(root, file, b)
  {
    hide Eligible, IsBroadDir, ProjectRootOf;
    ProjectRootIff(file, a);
    ProjectRootIff(file, b);
    if ProjectRootOf(file, a).Some? {
      assert IsProjectRoot(ProjectRootOf(file, a).value, file, b);
    }
  }

  // ----- The bound -----

  /** How high a root may go. */
  function Bound(file: Path, host: Host): Path
    requires file != []
  {
    var project := ProjectRootOf(file, host);
    if project.Some? then project.value else file[..|file| - 1]
  }

  lemma {:induction false} BoundContains(file: Path, host: Host)
    requires file != []
    ensures Bound(file, host) <= file
  {
    ProjectRootIff(file, host);
    if ProjectRootOf(file, host).Some? {
      assert IsProjectRoot(ProjectRootOf(file, host).value, file, host);
    }
  }

  /** A mount is granted exactly to the roots between the bound and the file, and its scope is the bound's. */
  lemma {:induction false} MountIff(root: Path, file: Path, host: Host)
    ensures ResolveMount(root, file, host).Ok? <==> file != [] && Bound(file, host) <= root && root <= file
    ensures ResolveMount(root, file, host) == Ok(Tree)
       <==> file != [] && Bound(file, host) <= root && root <= file && !IsBroadDir(Bound(file, host), host.home)
    ensures ResolveMount(root, file, host).Ok? && ResolveMount(root, file, host) != Ok(Tree) ==>
              ResolveMount(root, file, host) == Ok(SingleFile(file))
    ensures ResolveMount(root, file, host) == Err(NOT_CONTAINED) <==> !(root <= file)
    ensures ResolveMount(root, file, host) == Err(ROOT_ABOVE_PROJECT)
       <==> root <= file && file != [] && !(Bound(file, host) <= root)
  {
    assert |NOT_CONTAINED| != |NO_DIRECTORY| && |NOT_CONTAINED| != |ROOT_ABOVE_PROJECT|;
    assert |NO_DIRECTORY| != |ROOT_ABOVE_PROJECT|;
  }

  /** One project bounds a file it holds, unless it is `/` or holds home; otherwise the file's own directory does. */
  lemma {:induction false} OneProject(r: Path, file: Path, home: Option<Path>)
    requires file != []
    ensures Bound(file, Host([r], home))
         == if |r| > 0 && r <= file && !(home.Some? && r <= home.value) then r else file[..|file| - 1]
  {
    hide ProjectRootOf;
    var host := Host([r], home);
    ProjectRootIff(file, host);
    if Eligible(r, file, home) {
      assert IsProjectRoot(r, file, host);
    }
  }

  /**
    A granted mount is a tree exactly if its bound lies at least two levels down, does not hold home, and lies
    neither directly below `/home` nor beside home.
  */
  lemma {:induction false} TreeIff(root: Path, file: Path, host: Host)
    requires ResolveMount(root, file, host).Ok?
    ensures file != []
    ensures var b := Bound(file, host);
            ResolveMount(root, file, host) == Ok(Tree) <==>
              && |b| >= 2
              && !(|b| == 2 && b[0] == "home")
              && (host.home.Some? ==>
                    var h := host.home.value;
                    !(b <= h) && !(|b| == |h| && b[..|b| - 1] == h[..|b| - 1]))
  {
    hide ProjectRootOf;
    MountIff(root, file, host);
    var b := Bound(file, host);
    assert |b| == 2 ==> (b[..1] == ["home"] <==> b[0] == "home");
  }

  /** Going down towards the file never changes the answer. */
  lemma {:induction false} NarrowingKeeps(root: Path, narrower: Path, file: Path, host: Host)
    requires ResolveMount(root, file, host).Ok? && root <= narrower && narrower <= file
    ensures ResolveMount(narrower, file, host) == ResolveMount(root, file, host)
  {
    hide IsBroadDir, ProjectRootOf, ResolveMount;
    MountIff(root, file, host);
    MountIff(narrower, file, host);
    assert Bound(file, host) <= root <= narrower;
  }

  /**
    A tree is only ever served from a directory that contains the previewed file and is neither home, nor
    above it, nor another user's home, nor at the top of the file system.
  */
  lemma {:induction false} TreeIsNarrow(root: Path, file: Path, host: Host)
    requires ResolveMount(root, file, host) == Ok(Tree)
    ensures root <= file && |root| > 1 && root[..|root| - 1] != ["home"]
    ensures host.home.Some? ==> !(root <= host.home.value) && Parent(root) != Parent(host.home.value)
  {
    hide ProjectRootOf, IsBroadDir;
    MountIff(root, file, host);
    NotBroadBelow(Bound(file, host), root, host.home);
  }

  /** What lies below a directory that is not broad is not broad either. */
  lemma {:induction false} NotBroadBelow(dir: Path, below: Path, home: Option<Path>)
    requires !IsBroadDir(dir, home) && dir <= below
    ensures !IsBroadDir(below, home) && |below| > 1 && below[..|below| - 1] != ["home"]
    ensures home.Some? ==> !(below <= home.value) && Parent(below) != Parent(home.value)
  {
    var up := below[..|below| - 1];
    assert dir != below ==> dir <= up by {
      assert dir != below ==> |dir| < |below|;
      assert dir == below[..|dir|];
      assert |dir| <= |up| ==> up[..|dir|] == below[..|dir|];
    }
    if home.Some? {
      var h := home.value;
      assert below <= h ==> dir <= h;
      assert h != [] && up == h[..|h| - 1] && dir <= up ==> dir <= h;
      assert home.value == [] ==> Parent(home.value) == None;
    }
    assert up == ["home"] && dir <= up ==> |dir| <= 1;
  }

  /** Whatever is served is the previewed file, or lies in a tree of that kind; it is never a credential. */
  lemma {:induction false} ServedIsSafe(root: Path, file: Path, host: Host, target: Path, linked: bool)
    requires Serves(root, file, host, target, linked)
    ensures !linked && forall i :: 0 <= i < |target| ==> !IsSensitiveName(target[i])
    ensures target != file ==>
              && |root| > 1 && root <= target && !IsBroadDir(root, host.home)
              && (host.home.Some? ==> !(target <= host.home.value))
  {
    hide IsSensitiveName, IsBroadDir, ProjectRootOf;
    MountIff(root, file, host);
    if target != file {
      NotBroadBelow(Bound(file, host), root, host.home);
      NotBroadBelow(root, target, host.home);
    }
  }

  // ----- Dropping a project root -----

  function Without(roots: seq<Path>, gone: Path): seq<Path> {
    if roots == [] then []
    else (if roots[0] == gone then [] else [roots[0]]) + Without(roots[1..], gone)
  }

  lemma {:induction false} WithoutIs(roots: seq<Path>, gone: Path, r: Path)
    ensures r in Without(roots, gone) <==> r in roots && r != gone
  {
    if roots != [] {
      WithoutIs(roots[1..], gone, r);
      assert r in roots <==> r == roots[0] || r in roots[1..];
    }
  }

  /** Some request is answered with one set of roots and not with the other. */
  ghost predicate Loosens(file: Path, host: Host, fewer: Host) {
    exists root, target: Path :: Serves(root, file, fewer, target, false) && !Serves(root, file, host, target, false)
  }

  /** What `Serves` comes to, by the bound. */
  lemma {:induction false} ServesIff(root: Path, file: Path, host: Host, target: Path)
    requires file != []
    ensures Serves(root, file, host, target, false) <==>
              && Bound(file, host) <= root && root <= file && root <= target && !IsSensitivePath(target)
              && (IsBroadDir(Bound(file, host), host.home) ==> target == file)
  {
    hide IsSensitivePath, IsBroadDir, ProjectRootOf, ResolveMount, Bound;
    MountIff(root, file, host);
  }

  lemma {:induction false} SensitiveBelow(path: Path, below: Path)
    requires path <= below && IsSensitivePath(path)
    ensures IsSensitivePath(below)
  {
    hide IsSensitiveName;
    var i :| 0 <= i < |path| && IsSensitiveName(path[i]);
    assert below[i] == path[i];
  }

  /** Every sensitive name begins with a dot or with `id_`. */
  lemma {:induction false} Innocent(name: string)
    requires name != "" && LowerChar(name[0]) != '.' && LowerChar(name[0]) != 'i'
    ensures !IsSensitiveName(name)
  {
    var n := Lower(name);
    forall k | 0 <= k < |SENSITIVE_NAMES|
      ensures SENSITIVE_NAMES[k][0] == '.'
    {
    }
  }

  lemma {:induction false} NewFile(file: Path)
    ensures IsSensitivePath(file + ["x"]) <==> IsSensitivePath(file)
  {
    hide IsSensitiveName;
    Innocent("x");
    if IsSensitivePath(file) {
      SensitiveBelow(file, file + ["x"]);
    }
  }

  /**
    Exactly when more is served under one bound than under another: below a broad one only the file itself
    can be served, below any other everything that no credential name leads to.
  */
  lemma {:induction false} LoosensIff(file: Path, host: Host, fewer: Host)
    requires file != [] && host.home == fewer.home
    ensures var a, b := Bound(file, host), Bound(file, fewer);
            Loosens(file, host, fewer) <==>
              if IsBroadDir(b, host.home) then !(a <= b) && !IsSensitivePath(file)
              else !IsSensitivePath(b) && (!(a <= b) || IsBroadDir(a, host.home))
  {
    hide ProjectRootOf, IsBroadDir, Serves, Bound, IsSensitivePath;
    var a, b := Bound(file, host), Bound(file, fewer);
    BoundContains(file, fewer);
    forall root: Path, target: Path, h: Host
      ensures Serves(root, file, h, target, false) <==>
                && Bound(file, h) <= root && root <= file && root <= target && !IsSensitivePath(target)
                && (IsBroadDir(Bound(file, h), h.home) ==> target == file)
    {
      ServesIff(root, file, h, target);
    }
    if IsBroadDir(b, host.home) {
      assert !(a <= b) && !IsSensitivePath(file) ==> Serves(b, file, fewer, file, false) && !Serves(b, file, host, file, false);
    } else {
      var target := if b == file then file + ["x"] else b;
      NewFile(file);
      assert b <= target && target != file;
      assert !IsSensitivePath(b) && (!(a <= b) || IsBroadDir(a, host.home)) ==>
          Serves(b, file, fewer, target, false) && !Serves(b, file, host, target, false);
    }
    if root, target: Path :| Serves(root, file, fewer, target, false) && !Serves(root, file, host, target, false) {
      assert b <= root <= target;
      if IsSensitivePath(b) {
        SensitiveBelow(b, target);
      }
    }
  }

  /**
    Exactly when dropping a project root lets more be served: it was the root in force, and either the bound
    goes up, because another root holds the file too or the root was the file, or a broad root gives way to a
    directory that is not; and something there may be served.
  */
  lemma {:induction false} DroppingLoosensIff(file: Path, host: Host, gone: Path)
    requires file != []
    ensures var fewer := host.(roots := Without(host.roots, gone));
            var next := Bound(file, fewer);
            Loosens(file, host, fewer) <==>
              && IsProjectRoot(gone, file, host)
              && if (exists q :: q in host.roots && q != gone && Eligible(q, file, host.home)) || gone == file
                 then !IsSensitivePath(if IsBroadDir(next, host.home) then file else next)
                 else IsBroadDir(gone, host.home) && !IsBroadDir(next, host.home) && !IsSensitivePath(next)
  {
    hide IsBroadDir, ProjectRootOf, Loosens, IsSensitivePath;
    var fewer := host.(roots := Without(host.roots, gone));
    forall r
      ensures r in fewer.roots <==> r in host.roots && r != gone
    {
      WithoutIs(host.roots, gone, r);
    }
    LoosensIff(file, host, fewer);
    if IsProjectRoot(gone, file, host) {
      DropChosen(file, host, fewer, gone);
    } else {
      KeepChosen(file, host, fewer, gone);
      assert Bound(file, host) <= Bound(file, fewer);
    }
  }

  lemma {:induction false} KeepChosen(file: Path, host: Host, fewer: Host, gone: Path)
    requires file != [] && host.home == fewer.home && !IsProjectRoot(gone, file, host)
    requires forall r :: r in fewer.roots <==> r in host.roots && r != gone
    ensures Bound(file, fewer) == Bound(file, host)
  {
    hide IsBroadDir, ProjectRootOf, Eligible;
    ProjectRootIff(file, host);
    ProjectRootIff(file, fewer);
    if ProjectRootOf(file, host).Some? {
      assert IsProjectRoot(ProjectRootOf(file, host).value, file, fewer);
    }
  }

  lemma {:induction false} DropChosen(file: Path, host: Host, fewer: Host, gone: Path)
    requires file != [] && host.home == fewer.home && IsProjectRoot(gone, file, host)
    requires forall r :: r in fewer.roots <==> r in host.roots && r != gone
    ensures Bound(file, host) == gone
    ensures if exists q :: q in host.roots && q != gone && Eligible(q, file, host.home)
            then !(gone <= Bound(file, fewer))
            else Bound(file, fewer) == file[..|file| - 1] && (gone <= Bound(file, fewer) <==> gone != file)
  {
    hide IsBroadDir, ProjectRootOf;
    ProjectRootIff(file, host);
    ProjectRootIff(file, fewer);
    if ProjectRootOf(file, fewer).Some? {
      var best := ProjectRootOf(file, fewer).value;
      assert IsProjectRoot(best, file, fewer);
      PrefixesNest(best, gone, file);
    } else {
      PrefixesNest(gone, file[..|file| - 1], file);
      PrefixesNest(gone, file, file);
    }
  }

  /** Nested projects: without the inner root, the outer one's whole tree opens up. */
  lemma {:induction false} InnerRootMatters()
    ensures var file := ["h", "proj", "inner", "b.html"];
            Loosens(file, Host([["h", "proj"], ["h", "proj", "inner"]], None), Host([["h", "proj"]], None))
  {
    hide IsSensitiveName, Bound, Loosens;
    var file, inner, outer := ["h", "proj", "inner", "b.html"], ["h", "proj", "inner"], ["h", "proj"];
    var host, fewer := Host([outer, inner], None), Host([outer], None);
    assert outer <= inner && inner <= file && outer <= file;
    assert outer in host.roots && inner in host.roots && outer in fewer.roots;
    BoundIs(file, host, inner);
    BoundIs(file, fewer, outer);
    Innocent("h");
    Innocent("proj");
    assert !IsSensitivePath(outer);
    assert |inner| > |outer| && outer[..1] == ["h"] && |"h"| != |"home"|;
    assert ["h"][0] != ["home"][0];
    assert !IsBroadDir(outer, None);
    LoosensIff(file, host, fewer);
  }

  lemma {:induction false} BoundIs(file: Path, host: Host, r: Path)
    requires file != [] && IsProjectRoot(r, file, host)
    ensures Bound(file, host) == r
  {
    hide IsProjectRoot, ProjectRootOf;
    ProjectRootIff(file, host);
  }
}
