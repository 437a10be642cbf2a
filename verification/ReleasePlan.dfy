/**
 * Release plans and the engine that applies them.
 *
 * The hand-off, staging, promotion and cutover plans are the same twelve steps over different roots; the four engines
 * interpret steps in the same way. What one run of such a plan leaves on disk is described by `Installed`.
 */
module ReleasePlan {
  import opened Prelude
  import opened FileTree

  datatype StepKind = EnsureDir | CopyTree | CopyOne | WriteSymlink

  datatype Step = Step(kind: StepKind, target: Path, source: Option<Path>)

  /** The root of an installation and the places its pieces come from. */
  datatype Layout = Layout(root: Path, version: string, tree: Path, promotion: Path, deploy: Path, rollback: Path,
                           handoff: Path)
  {
    function Releases(): Path { root + ["releases"] }

    function VersionRoot(): Path { root + ["releases", version] }

    function Current(): Path { root + ["current"] }

    function Meta(): Path { root + ["shared", "meta"] }

    function MetaFile(name: string): Path { Meta() + [name] }

    function Directories(): seq<Path> {
      [root, Releases(), Meta(), root + ["shared", "tmp"], root + ["shared", "logs"], root + ["shared", "run"]]
    }

    /** Metadata copies as pairs of target and source. */
    function Manifests(): seq<(Path, Path)> {
      [(MetaFile("promotion.json"), promotion), (MetaFile("deploy.json"), deploy),
       (MetaFile("rollback.json"), rollback), (MetaFile("handoff.json"), handoff)]
    }
  }

  function EnsureAll(directories: seq<Path>): seq<Step> {
    seq(|directories|, i requires 0 <= i < |directories| => Step(EnsureDir, directories[i], None))
  }

  function CopyAll(files: seq<(Path, Path)>): seq<Step> {
    seq(|files|, i requires 0 <= i < |files| => Step(CopyOne, files[i].0, Some(files[i].1)))
  }

  function Plan(l: Layout): seq<Step> {
    EnsureAll(l.Directories())
    + [Step(CopyTree, l.VersionRoot(), Some(l.tree))]
    + CopyAll(l.Manifests())
    + [Step(WriteSymlink, l.Current(), Some(l.VersionRoot()))]
  }

  // ---------------------------------------------------------------------------------------------------------------
  // The engine
  // ---------------------------------------------------------------------------------------------------------------

  function RunStep(t: Tree, step: Step): Outcome
    requires step.target != []
  {
    match step.kind
    case EnsureDir => MakeDirectories(t, step.target)
    case CopyTree =>
      if step.source.None? then Outcome(t, Some(MissingSource))
      else
        var made := MakeDirectories(RemovePathIfExists(t, step.target), Parent(step.target));
        if made.error.Some? then made else CopyDirectory(made.tree, step.source.value, step.target)
    case CopyOne =>
      if step.source.None? then Outcome(t, Some(MissingSource))
      else
        var made := MakeDirectories(t, Parent(step.target));
        if made.error.Some? then made else CopyFile(made.tree, step.source.value, step.target)
    case WriteSymlink =>
      if step.source.None? then Outcome(t, Some(MissingSource))
      else MakeLink(RemovePathIfExists(t, step.target), step.source.value, step.target)
  }

  predicate Runnable(steps: seq<Step>) {
    forall i :: 0 <= i < |steps| ==> steps[i].target != []
  }

  /** Steps are run in order until one throws. */
  function RunSteps(t: Tree, steps: seq<Step>): Outcome
    requires Runnable(steps)
    decreases |steps|
  {
    if steps == [] then Outcome(t, None)
    else
      var first := RunStep(t, steps[0]);
      if first.error.Some? then first else RunSteps(first.tree, steps[1..])
  }

  lemma {:induction false} RunStepsAppend(t: Tree, a: seq<Step>, b: seq<Step>)
    requires Runnable(a) && Runnable(b)
    ensures Runnable(a + b)
    ensures RunSteps(t, a).error.Some? ==> RunSteps(t, a + b) == RunSteps(t, a)
    ensures RunSteps(t, a).error.None? ==> RunSteps(t, a + b) == RunSteps(RunSteps(t, a).tree, b)
    decreases |a|
  {
    if a == [] {
      assert a + b == b;
    } else {
      assert (a + b)[1..] == a[1..] + b;
      var first := RunStep(t, a[0]);
      if first.error.None? {
        RunStepsAppend(first.tree, a[1..], b);
      }
    }
  }

  // ---------------------------------------------------------------------------------------------------------------
  // What a plan leaves behind
  // ---------------------------------------------------------------------------------------------------------------

  ghost predicate Disjoint(p: Path, q: Path) {
    !Within(p, q) && !Within(q, p)
  }

  /** `p` is one of `ds` or lies above one. */
  ghost predicate AboveOneOf(ds: seq<Path>, p: Path) {
    exists i :: 0 <= i < |ds| && Within(ds[i], p)
  }

  lemma {:induction false} EnsureAllEffect(t: Tree, ds: seq<Path>)
    requires WellFormed(t) && Runnable(EnsureAll(ds))
    requires forall i :: 0 <= i < |ds| ==> Clear(t, ds[i])
    ensures RunSteps(t, EnsureAll(ds)).error == None
    ensures WellFormed(RunSteps(t, EnsureAll(ds)).tree)
    ensures forall p ::
      Lookup(RunSteps(t, EnsureAll(ds)).tree, p) == if AboveOneOf(ds, p) then Some(Dir) else Lookup(t, p)
    decreases |ds|
  {
    if ds != [] {
      assert EnsureAll(ds)[1..] == EnsureAll(ds[1..]);
      assert EnsureAll(ds)[0].target == ds[0];
      MakeDirectoriesEffect(t, ds[0]);
      var u := MakeDirectories(t, ds[0]).tree;
      forall i | 0 <= i < |ds[1..]| ensures Clear(u, ds[1..][i]) {
        assert Clear(t, ds[i + 1]);
        forall q | Within(ds[i + 1], q) && q in u ensures u[q] == Dir {
          assert Lookup(u, q) == Some(u[q]);
        }
      }
      EnsureAllEffect(u, ds[1..]);
      forall p ensures AboveOneOf(ds, p) <==> Within(ds[0], p) || AboveOneOf(ds[1..], p) {
        if AboveOneOf(ds[1..], p) {
          var i :| 0 <= i < |ds[1..]| && Within(ds[1..][i], p);
          assert Within(ds[i + 1], p);
        }
        if AboveOneOf(ds, p) && !Within(ds[0], p) {
          var i :| 0 <= i < |ds| && Within(ds[i], p);
          assert Within(ds[1..][i - 1], p);
        }
      }
    }
  }

  /** Every target may be overwritten by a file, and no source is a target. */
  ghost predicate CanReceive(t: Tree, files: seq<(Path, Path)>) {
    forall i :: 0 <= i < |files| ==>
      && files[i].0 != [] && Parent(files[i].0) in t && t[Parent(files[i].0)] == Dir
      && (files[i].0 in t ==> t[files[i].0].File?)
      && (files[i].1 in t ==> t[files[i].1].File?)
      && forall j :: 0 <= j < |files| ==> files[i].1 != files[j].0
  }

  ghost predicate AllPresent(t: Tree, files: seq<(Path, Path)>) {
    forall i :: 0 <= i < |files| ==> files[i].1 in t
  }

  predicate IsTarget(files: seq<(Path, Path)>, p: Path) {
    exists i :: 0 <= i < |files| && files[i].0 == p
  }

  predicate DistinctTargets(files: seq<(Path, Path)>) {
    forall i, j :: 0 <= i < j < |files| ==> files[i].0 != files[j].0
  }

  lemma CopyOneEffect(t: Tree, file: (Path, Path))
    requires WellFormed(t) && CanReceive(t, [file]) && file.0 != []
    ensures var step := Step(CopyOne, file.0, Some(file.1));
      RunStep(t, step) == if file.1 in t then Outcome(t[file.0 := t[file.1]], None) else Outcome(t, Some(NotFound))
    ensures file.1 in t ==> WellFormed(t[file.0 := t[file.1]])
  {
    assert [file][0] == file;
    assert [file][0].1 != [file][0].0;
    MakeExistingDirectory(t, Parent(file.0));
    if file.1 in t {
      ReplaceKeepsWellFormed(t, file.0, t[file.1]);
    }
  }

  lemma TargetsSplit(files: seq<(Path, Path)>, p: Path)
    requires files != []
    ensures IsTarget(files, p) <==> p == files[0].0 || IsTarget(files[1..], p)
  {
    if IsTarget(files[1..], p) {
      var i :| 0 <= i < |files[1..]| && files[1..][i].0 == p;
      assert files[i + 1].0 == p;
    }
    if IsTarget(files, p) && p != files[0].0 {
      var i :| 0 <= i < |files| && files[i].0 == p;
      assert files[1..][i - 1].0 == p;
    }
  }

  /** What the copies of `files` make of `t`. */
  ghost predicate CopiesDone(t: Tree, files: seq<(Path, Path)>, done: Outcome) {
    && (done.error == None <==> AllPresent(t, files))
    && WellFormed(done.tree)
    && (forall p :: !IsTarget(files, p) ==> Lookup(done.tree, p) == Lookup(t, p))
    && (forall p :: IsTarget(files, p) && p in done.tree ==> done.tree[p].File?)
    && (AllPresent(t, files) ==>
          forall i :: 0 <= i < |files| ==> Lookup(done.tree, files[i].0) == Lookup(t, files[i].1))
  }

  /** The copies succeed exactly when every source is there, and touch nothing but their targets. */
  lemma {:induction false} CopyAllEffect(t: Tree, files: seq<(Path, Path)>)
    requires WellFormed(t) && CanReceive(t, files) && DistinctTargets(files)
    ensures Runnable(CopyAll(files))
    ensures CopiesDone(t, files, RunSteps(t, CopyAll(files)))
    decreases |files|
  {
    if files != [] {
      assert CopyAll(files)[1..] == CopyAll(files[1..]);
      assert CanReceive(t, [files[0]]) && files[0].0 != [];
      CopyOneEffect(t, files[0]);
      if files[0].1 in t {
        var u := t[files[0].0 := t[files[0].1]];
        CopyRestCanReceive(t, files);
        CopyAllEffect(u, files[1..]);
        CopiesCompose(t, files, RunSteps(u, CopyAll(files[1..])));
      } else {
        forall p | IsTarget(files, p) && p in t ensures t[p].File? {
          var i :| 0 <= i < |files| && files[i].0 == p;
        }
      }
    }
  }

  lemma CopiesCompose(t: Tree, files: seq<(Path, Path)>, done: Outcome)
    requires CanReceive(t, files) && DistinctTargets(files) && files != [] && files[0].1 in t
    requires CopiesDone(t[files[0].0 := t[files[0].1]], files[1..], done)
    ensures CopiesDone(t, files, done)
  {
    var u, rest := t[files[0].0 := t[files[0].1]], files[1..];
    assert forall i :: 0 < i < |files| ==> rest[i - 1] == files[i];
    forall i | 0 <= i < |files| ensures Lookup(u, files[i].1) == Lookup(t, files[i].1) {
      assert files[i].1 != files[0].0;
    }
    assert AllPresent(t, files) <==> AllPresent(u, rest) by {
      forall i | 0 <= i < |files| ensures files[i].1 in u <==> files[i].1 in t {
        assert Lookup(u, files[i].1) == Lookup(t, files[i].1);
      }
      assert forall i :: 0 <= i < |rest| ==> rest[i] == files[i + 1];
    }
    forall p ensures IsTarget(files, p) <==> p == files[0].0 || IsTarget(rest, p) {
      TargetsSplit(files, p);
    }
    assert !IsTarget(rest, files[0].0);
    if AllPresent(t, files) {
      forall i | 0 <= i < |files| ensures Lookup(done.tree, files[i].0) == Lookup(t, files[i].1) {
        if i > 0 {
          assert rest[i - 1] == files[i];
        }
      }
    }
    forall p | IsTarget(files, p) && p in done.tree ensures done.tree[p].File? {
      if p == files[0].0 {
        assert Lookup(done.tree, p) == Lookup(u, p);
        assert files[0].1 in t;
      }
    }
  }

  lemma CopyRestCanReceive(t: Tree, files: seq<(Path, Path)>)
    requires CanReceive(t, files) && files != [] && files[0].1 in t
    ensures CanReceive(t[files[0].0 := t[files[0].1]], files[1..])
  {
    var u := t[files[0].0 := t[files[0].1]];
    forall i | 0 <= i < |files[1..]|
      ensures var f := files[1..][i];
        && f.0 != [] && Parent(f.0) in u && u[Parent(f.0)] == Dir
        && (f.0 in u ==> u[f.0].File?)
        && (f.1 in u ==> u[f.1].File?)
        && forall j :: 0 <= j < |files[1..]| ==> f.1 != files[1..][j].0
    {
      assert files[1..][i] == files[i + 1];
      assert Parent(files[i + 1].0) != files[0].0;
    }
  }

  /** The sources up to this one are there, so the copies get this far. */
  ghost predicate IsReached(t: Tree, files: seq<(Path, Path)>, i: nat)
    requires i < |files|
  {
    forall j :: 0 <= j <= i ==> files[j].1 in t
  }

  /** The first copy of several. */
  lemma FirstCopy(t: Tree, files: seq<(Path, Path)>)
    requires WellFormed(t) && CanReceive(t, files) && files != []
    ensures Runnable(CopyAll(files)) && Runnable(CopyAll(files[1..]))
    ensures RunSteps(t, CopyAll(files)) ==
      if files[0].1 in t then RunSteps(t[files[0].0 := t[files[0].1]], CopyAll(files[1..]))
      else Outcome(t, Some(NotFound))
    ensures files[0].1 in t ==> WellFormed(t[files[0].0 := t[files[0].1]])
  {
    assert CopyAll(files)[1..] == CopyAll(files[1..]);
    assert CanReceive(t, [files[0]]);
    CopyOneEffect(t, files[0]);
  }

  lemma FirstTargetIsKept(t: Tree, files: seq<(Path, Path)>)
    requires WellFormed(t) && CanReceive(t, files) && DistinctTargets(files) && files != []
    ensures Runnable(CopyAll(files[1..]))
    ensures Lookup(RunSteps(t, CopyAll(files[1..])).tree, files[0].0) == Lookup(t, files[0].0)
  {
    var rest := files[1..];
    assert forall j :: 0 <= j < |rest| ==> rest[j] == files[j + 1];
    CopyAllEffect(t, rest);
    assert !IsTarget(rest, files[0].0);
  }

  lemma SameTargetsCanReceive(t: Tree, files: seq<(Path, Path)>)
    requires CanReceive(t, files) && files != [] && files[0].1 in t
    ensures CanReceive(t[files[0].0 := t[files[0].1]], files)
  {
    forall i | 0 <= i < |files| ensures Parent(files[i].0) != files[0].0 && files[i].1 != files[0].0 {
    }
  }

  /** Wherever the copies stop: the targets reached hold their sources, the others what they held. */
  lemma {:induction false} CopiesStopAt(t: Tree, files: seq<(Path, Path)>, i: nat)
    requires WellFormed(t) && CanReceive(t, files) && DistinctTargets(files) && i < |files|
    ensures Runnable(CopyAll(files))
    ensures Lookup(RunSteps(t, CopyAll(files)).tree, files[i].0) ==
      Lookup(t, if IsReached(t, files, i) then files[i].1 else files[i].0)
    decreases |files|
  {
    FirstCopy(t, files);
    if files[0].1 in t {
      var u := t[files[0].0 := t[files[0].1]];
      if i == 0 {
        SameTargetsCanReceive(t, files);
        FirstTargetIsKept(u, files);
      } else {
        CopyRestCanReceive(t, files);
        CopiesStopAt(u, files[1..], i - 1);
        ReachedInRest(t, files, i);
      }
    }
  }

  lemma ReachedInRest(t: Tree, files: seq<(Path, Path)>, i: nat)
    requires CanReceive(t, files) && DistinctTargets(files) && 0 < i < |files| && files[0].1 in t
    ensures var u := t[files[0].0 := t[files[0].1]];
      && (IsReached(u, files[1..], i - 1) <==> IsReached(t, files, i))
      && Lookup(u, files[i].1) == Lookup(t, files[i].1) && Lookup(u, files[i].0) == Lookup(t, files[i].0)
  {
    var u, rest := t[files[0].0 := t[files[0].1]], files[1..];
    forall j | 0 <= j < |files| ensures files[j].1 in u <==> files[j].1 in t {
      assert files[j].1 != files[0].0;
    }
    assert forall j :: 0 <= j < |rest| ==> rest[j] == files[j + 1];
    if IsReached(u, rest, i - 1) {
      forall j | 0 <= j <= i ensures files[j].1 in t {
        assert j > 0 ==> rest[j - 1].1 in u;
      }
    }
  }

  /** The plan without its last step. */
  function Preparation(l: Layout): seq<Step> {
    EnsureAll(l.Directories()) + [Step(CopyTree, l.VersionRoot(), Some(l.tree))]
  }

  function Sources(l: Layout): seq<Path> {
    [l.tree, l.promotion, l.deploy, l.rollback, l.handoff]
  }

  /** What the plan needs of the disk, the presence of its sources aside. */
  ghost predicate Ready(t: Tree, l: Layout) {
    && WellFormed(t)
    && (forall i :: 0 <= i < 6 ==> Clear(t, l.Directories()[i]))
    && (l.VersionRoot() in t ==> Exists(t, l.VersionRoot()))
    && (forall i :: 0 <= i < 4 ==> l.Manifests()[i].0 in t ==> t[l.Manifests()[i].0].File?)
    && (forall i :: 0 <= i < 4 ==> l.Manifests()[i].1 in t ==> t[l.Manifests()[i].1].File?)
    && (forall i :: 0 <= i < 5 ==> Disjoint(l.root, Sources(l)[i]))
  }

  lemma PlacesAreApart(l: Layout)
    ensures Parent(l.VersionRoot()) == l.Releases() && Parent(l.Current()) == l.root
    ensures !AboveOneOf(l.Directories(), l.VersionRoot()) && !AboveOneOf(l.Directories(), l.Current())
    ensures forall i :: 0 <= i < 6 ==>
      !Within(l.Directories()[i], l.VersionRoot()) && !Within(l.Directories()[i], l.Current())
    ensures forall i :: 0 <= i < 6 ==> !Within(l.Directories()[i], l.Current())
    ensures !Within(l.VersionRoot(), l.Current()) && !Within(l.Current(), l.VersionRoot())
    ensures DistinctTargets(l.Manifests())
    ensures forall i :: 0 <= i < 4 ==>
      var target := l.Manifests()[i].0;
      && Parent(target) == l.Meta()
      && !Within(target, l.VersionRoot()) && !Within(target, l.Current()) && !AboveOneOf(l.Directories(), target)
  {
    var n := |l.root|;
    assert l.VersionRoot()[n] == "releases" && l.Current()[n] == "current";
    forall i | 0 <= i < 6
      ensures !Within(l.Directories()[i], l.VersionRoot()) && !Within(l.Directories()[i], l.Current())
      ensures |l.Directories()[i]| <= n + 2
    {
      var d := l.Directories()[i];
      assert |d| == n || (d[n] == "shared" && |d| == n + 2) || (d[n] == "releases" && |d| == n + 1);
    }
    assert l.MetaFile("promotion.json")[n + 2] == "promotion.json";
    assert l.MetaFile("deploy.json")[n + 2] == "deploy.json";
    assert l.MetaFile("rollback.json")[n + 2] == "rollback.json";
    assert l.MetaFile("handoff.json")[n + 2] == "handoff.json";
    assert "promotion.json"[0] == 'p' && "deploy.json"[0] == 'd';
    assert "rollback.json"[0] == 'r' && "handoff.json"[0] == 'h';
    forall i | 0 <= i < 4
      ensures var target := l.Manifests()[i].0;
        && Parent(target) == l.Meta()
        && !Within(target, l.VersionRoot()) && !Within(target, l.Current()) && !AboveOneOf(l.Directories(), target)
    {
      var target := l.Manifests()[i].0;
      assert target[n] == "shared" && |target| == n + 3;
    }
  }

  /** What is at `p` once the directories are there and the version's tree has been replaced. */
  ghost function Prepared(t: Tree, l: Layout, p: Path): Option<Node> {
    if Within(p, l.VersionRoot()) then AfterCopy(t, l.tree, l.VersionRoot(), p)
    else if AboveOneOf(l.Directories(), p) then Some(Dir)
    else Lookup(t, p)
  }

  lemma DirectoriesEffect(t: Tree, l: Layout)
    requires Ready(t, l)
    ensures Runnable(EnsureAll(l.Directories()))
    ensures var made := RunSteps(t, EnsureAll(l.Directories()));
      && made.error == None && WellFormed(made.tree)
      && (forall p :: Lookup(made.tree, p) == if AboveOneOf(l.Directories(), p) then Some(Dir) else Lookup(t, p))
      && (l.VersionRoot() in made.tree ==> Exists(made.tree, l.VersionRoot()))
      && Lookup(made.tree, l.Releases()) == Some(Dir)
      && (forall p :: (exists i :: 0 <= i < 5 && Within(p, Sources(l)[i])) ==> Lookup(made.tree, p) == Lookup(t, p))
  {
    var ds := l.Directories();
    assert Runnable(EnsureAll(ds)) by {
      forall i | 0 <= i < |ds| ensures EnsureAll(ds)[i].target != [] {
        RootIsNotEmpty(t, l);
      }
    }
    EnsureAllEffect(t, ds);
    var u := RunSteps(t, EnsureAll(ds)).tree;
    forall q | q in t ensures Lookup(u, q) == Lookup(t, q) {
      if AboveOneOf(ds, q) {
        var i :| 0 <= i < |ds| && Within(ds[i], q);
        assert Clear(t, ds[i]);
      }
    }
    PlacesAreApart(l);
    if l.VersionRoot() in u {
      assert Lookup(u, l.VersionRoot()) == Lookup(t, l.VersionRoot());
      ExistsIsMonotone(t, u, l.VersionRoot(), 40);
    }
    assert Within(ds[1], l.Releases());
    assert AboveOneOf(ds, l.Releases());
    forall p, i | 0 <= i < 5 && Within(p, Sources(l)[i]) ensures Lookup(u, p) == Lookup(t, p) {
      SourcesAreNotTouched(l, i, p);
    }
  }

  lemma RootIsNotEmpty(t: Tree, l: Layout)
    requires Ready(t, l)
    ensures l.root != []
  {
    assert Disjoint(l.root, Sources(l)[0]);
  }

  lemma SourcesAreNotTouched(l: Layout, i: nat, p: Path)
    requires i < 5 && Disjoint(l.root, Sources(l)[i]) && Within(p, Sources(l)[i])
    ensures !AboveOneOf(l.Directories(), p) && !Within(p, l.VersionRoot()) && !Within(p, l.Current())
    ensures !Within(p, l.root)
  {
    var source := Sources(l)[i];
    assert !Within(p, l.root);
    forall d | 0 <= d < |l.Directories()| ensures !Within(l.Directories()[d], p) {
      assert Within(l.Directories()[d], l.root);
    }
    assert Within(l.VersionRoot(), l.root) && Within(l.Current(), l.root);
  }

  /** After the directories, the version's tree is replaced exactly when its source is there. */
  lemma SourceIsNotInTheVersion(t: Tree, l: Layout)
    requires Ready(t, l)
    ensures !Within(l.VersionRoot(), l.tree) && !Within(l.tree, l.VersionRoot())
  {
    assert Sources(l)[0] == l.tree && Within(l.VersionRoot(), l.root);
    AncestorsCompare(l.VersionRoot(), l.root, l.tree);
  }

  lemma AncestorsCompare(p: Path, a: Path, b: Path)
    ensures Within(p, a) && Within(p, b) ==> Within(a, b) || Within(b, a)
  {
  }

  /** The disk when the tree is about to be copied: directories made, the version's old tree gone. */
  lemma ClearedForCopy(t: Tree, l: Layout)
    requires Ready(t, l)
    ensures Runnable(EnsureAll(l.Directories()))
    ensures var made := RunSteps(t, EnsureAll(l.Directories()));
      var cleared := Remove(made.tree, l.VersionRoot());
      && made.error == None && WellFormed(made.tree) && WellFormed(cleared)
      && RemovePathIfExists(made.tree, l.VersionRoot()) == cleared
      && MakeDirectories(cleared, l.Releases()) == Outcome(cleared, None)
      && Lookup(cleared, l.Releases()) == Some(Dir)
      && Lookup(cleared, l.tree) == Lookup(t, l.tree)
      && l.VersionRoot() != [] && l.VersionRoot() !in cleared && Parent(l.VersionRoot()) == l.Releases()
  {
    var vr := l.VersionRoot();
    DirectoriesEffect(t, l);
    PlacesAreApart(l);
    var made := RunSteps(t, EnsureAll(l.Directories())).tree;
    if vr !in made {
      RemoveAbsent(made, vr);
    }
    RemoveKeepsWellFormed(made, vr);
    assert Lookup(Remove(made, vr), l.Releases()) == Some(Dir);
    MakeExistingDirectory(Remove(made, vr), l.Releases());
    SourcesAreNotTouched(l, 0, l.tree);
    SourceIsNotInTheVersion(t, l);
    assert Lookup(made, l.tree) == Lookup(t, l.tree);
  }

  lemma CopiedLookups(t: Tree, l: Layout, p: Path)
    requires Ready(t, l) && Runnable(EnsureAll(l.Directories())) && l.tree in t
    ensures var cleared := Remove(RunSteps(t, EnsureAll(l.Directories())).tree, l.VersionRoot());
      AfterCopy(cleared, l.tree, l.VersionRoot(), p) == Prepared(t, l, p)
  {
    var vr := l.VersionRoot();
    DirectoriesEffect(t, l);
    if Within(p, vr) {
      var origin := Rebase(p, vr, l.tree);
      SourcesAreNotTouched(l, 0, origin);
      assert Lookup(RunSteps(t, EnsureAll(l.Directories())).tree, origin) == Lookup(t, origin);
    }
  }

  lemma UncopiedLookups(t: Tree, l: Layout, p: Path)
    requires Ready(t, l) && Runnable(EnsureAll(l.Directories())) && l.tree !in t
    ensures var cleared := Remove(RunSteps(t, EnsureAll(l.Directories())).tree, l.VersionRoot());
      Lookup(cleared, p) == Prepared(t, l, p)
  {
    DirectoriesEffect(t, l);
    if Within(p, l.VersionRoot()) {
      MissingSourceCopiesNothing(t, l, p);
    }
  }

  lemma RunOneStep(t: Tree, step: Step)
    requires step.target != []
    ensures Runnable([step]) && RunSteps(t, [step]) == RunStep(t, step)
  {
    assert [step][1..] == [];
  }

  lemma CopyStepIsCopy(made: Tree, tree: Path, target: Path)
    requires target != []
    requires var cleared := Remove(made, target);
      RemovePathIfExists(made, target) == cleared && MakeDirectories(cleared, Parent(target)) == Outcome(cleared, None)
    ensures RunStep(made, Step(CopyTree, target, Some(tree))) == CopyDirectory(Remove(made, target), tree, target)
  {
  }

  lemma PreparationIsCopy(t: Tree, l: Layout)
    requires Ready(t, l)
    ensures Runnable(Preparation(l)) && Runnable(EnsureAll(l.Directories()))
    ensures var cleared := Remove(RunSteps(t, EnsureAll(l.Directories())).tree, l.VersionRoot());
      RunSteps(t, Preparation(l)) == CopyDirectory(cleared, l.tree, l.VersionRoot())
  {
    var copy := Step(CopyTree, l.VersionRoot(), Some(l.tree));
    ClearedForCopy(t, l);
    RunStepsAppend(t, EnsureAll(l.Directories()), [copy]);
    var made := RunSteps(t, EnsureAll(l.Directories())).tree;
    RunOneStep(made, copy);
    CopyStepIsCopy(made, l.tree, l.VersionRoot());
  }

  /** `done` is the outcome of the preparation. */
  ghost predicate IsPrepared(t: Tree, l: Layout, done: Outcome) {
    && WellFormed(done.tree)
    && done.error == (if l.tree in t then None else Some(NotFound))
    && forall p :: Lookup(done.tree, p) == Prepared(t, l, p)
  }

  lemma PresentSourceIsCopied(t: Tree, l: Layout, cleared: Tree)
    requires Ready(t, l) && Runnable(EnsureAll(l.Directories())) && l.tree in t
    requires cleared == Remove(RunSteps(t, EnsureAll(l.Directories())).tree, l.VersionRoot())
    ensures IsPrepared(t, l, CopyDirectory(cleared, l.tree, l.VersionRoot()))
  {
    ClearedForCopy(t, l);
    SourceIsNotInTheVersion(t, l);
    CopyDirectoryEffect(cleared, l.tree, l.VersionRoot());
    forall p ensures AfterCopy(cleared, l.tree, l.VersionRoot(), p) == Prepared(t, l, p) {
      CopiedLookups(t, l, p);
    }
  }

  lemma MissingSourceIsNotCopied(t: Tree, l: Layout, cleared: Tree)
    requires Ready(t, l) && Runnable(EnsureAll(l.Directories())) && l.tree !in t
    requires cleared == Remove(RunSteps(t, EnsureAll(l.Directories())).tree, l.VersionRoot())
    ensures IsPrepared(t, l, CopyDirectory(cleared, l.tree, l.VersionRoot()))
  {
    ClearedForCopy(t, l);
    forall p ensures Lookup(cleared, p) == Prepared(t, l, p) {
      UncopiedLookups(t, l, p);
    }
  }

  lemma PreparationEffect(t: Tree, l: Layout)
    requires Ready(t, l)
    ensures Runnable(Preparation(l)) && IsPrepared(t, l, RunSteps(t, Preparation(l)))
  {
    PreparationIsCopy(t, l);
    var cleared := Remove(RunSteps(t, EnsureAll(l.Directories())).tree, l.VersionRoot());
    if l.tree in t {
      PresentSourceIsCopied(t, l, cleared);
    } else {
      MissingSourceIsNotCopied(t, l, cleared);
    }
  }

  lemma MissingSourceCopiesNothing(t: Tree, l: Layout, p: Path)
    requires WellFormed(t) && l.tree !in t && Within(p, l.VersionRoot())
    ensures AfterCopy(t, l.tree, l.VersionRoot(), p) == None
  {
    var origin := Rebase(p, l.VersionRoot(), l.tree);
    if origin in t && origin != l.tree {
      AncestorsAreDirectories(t, origin, l.tree);
    }
  }

  /** The plan up to the link. */
  function Body(l: Layout): seq<Step> {
    Preparation(l) + CopyAll(l.Manifests())
  }

  predicate ManifestsPresent(t: Tree, l: Layout) {
    forall i :: 0 <= i < 4 ==> l.Manifests()[i].1 in t
  }

  /** What the steps before the link make of `t`, when they run to `done`. */
  ghost predicate BodyDone(t: Tree, l: Layout, done: Outcome) {
    && WellFormed(done.tree)
    && (done.error == None <==> l.tree in t && ManifestsPresent(t, l))
    && (forall p :: !IsTarget(l.Manifests(), p) ==> Lookup(done.tree, p) == Prepared(t, l, p))
    && (forall p :: IsTarget(l.Manifests(), p) && p in done.tree ==> done.tree[p].File?)
    && (done.error == None ==>
          forall i :: 0 <= i < 4 ==> Lookup(done.tree, l.Manifests()[i].0) == Lookup(t, l.Manifests()[i].1))
  }

  lemma ManifestsCanBeCopied(t: Tree, l: Layout, prepared: Tree)
    requires Ready(t, l)
    requires forall p :: Lookup(prepared, p) == Prepared(t, l, p)
    ensures CanReceive(prepared, l.Manifests())
    ensures forall i :: 0 <= i < 4 ==> Lookup(prepared, l.Manifests()[i].1) == Lookup(t, l.Manifests()[i].1)
    ensures forall i :: 0 <= i < 4 ==> Lookup(prepared, l.Manifests()[i].0) == Lookup(t, l.Manifests()[i].0)
  {
    PlacesAreApart(l);
    var ms := l.Manifests();
    assert Within(l.Directories()[2], l.Meta());
    assert Lookup(prepared, l.Meta()) == Some(Dir) by {
      assert l.Meta()[|l.root|] == "shared" && l.VersionRoot()[|l.root|] == "releases";
      assert AboveOneOf(l.Directories(), l.Meta());
    }
    forall i | 0 <= i < 4
      ensures Lookup(prepared, ms[i].1) == Lookup(t, ms[i].1)
      ensures Lookup(prepared, ms[i].0) == Lookup(t, ms[i].0)
      ensures forall j :: 0 <= j < 4 ==> ms[i].1 != ms[j].0
    {
      assert Sources(l)[i + 1] == ms[i].1;
      SourcesAreNotTouched(l, i + 1, ms[i].1);
      assert forall j :: 0 <= j < 4 ==> Within(ms[j].0, l.root);
    }
  }

  lemma BodyEffect(t: Tree, l: Layout)
    requires Ready(t, l)
    ensures Runnable(Body(l)) && BodyDone(t, l, RunSteps(t, Body(l)))
  {
    PlacesAreApart(l);
    PreparationEffect(t, l);
    var prepared := RunSteps(t, Preparation(l)).tree;
    ManifestsCanBeCopied(t, l, prepared);
    CopyAllEffect(prepared, l.Manifests());
    RunStepsAppend(t, Preparation(l), CopyAll(l.Manifests()));
    if l.tree in t {
      assert ManifestsPresent(t, l) <==> AllPresent(prepared, l.Manifests());
    } else {
      forall p | IsTarget(l.Manifests(), p) && p in prepared ensures prepared[p].File? {
        var i :| 0 <= i < 4 && l.Manifests()[i].0 == p;
      }
    }
  }

  /** What is at a manifest's place after a run: the source's file if the run got that far, else what was there. */
  ghost function ManifestAfter(t: Tree, l: Layout, i: nat): Option<Node>
    requires i < 4
  {
    Lookup(t, if l.tree in t && IsReached(t, l.Manifests(), i) then l.Manifests()[i].1 else l.Manifests()[i].0)
  }

  lemma BodyStopsAt(t: Tree, l: Layout, i: nat)
    requires Ready(t, l) && i < 4
    ensures Runnable(Body(l))
    ensures Lookup(RunSteps(t, Body(l)).tree, l.Manifests()[i].0) == ManifestAfter(t, l, i)
  {
    PlacesAreApart(l);
    PreparationEffect(t, l);
    var prepared, ms := RunSteps(t, Preparation(l)).tree, l.Manifests();
    ManifestsCanBeCopied(t, l, prepared);
    CopyAllEffect(prepared, ms);
    CopiesStopAt(prepared, ms, i);
    RunStepsAppend(t, Preparation(l), CopyAll(ms));
    forall j | 0 <= j < 4 ensures ms[j].1 in prepared <==> ms[j].1 in t {
      assert Lookup(prepared, ms[j].1) == Lookup(t, ms[j].1);
    }
    assert IsReached(prepared, ms, i) <==> IsReached(t, ms, i);
  }

  /** The source a manifest at `p` is copied from. */
  function ManifestSource(l: Layout, p: Path): Path {
    if p == l.MetaFile("promotion.json") then l.promotion
    else if p == l.MetaFile("deploy.json") then l.deploy
    else if p == l.MetaFile("rollback.json") then l.rollback
    else l.handoff
  }

  /** What is at `p` after a complete run of the plan. */
  ghost function Expected(t: Tree, l: Layout, p: Path): Option<Node> {
    if Within(p, l.Current()) then (if p == l.Current() then Some(Link(l.VersionRoot())) else None)
    else if IsTarget(l.Manifests(), p) then Lookup(t, ManifestSource(l, p))
    else Prepared(t, l, p)
  }

  ghost predicate Installed(t: Tree, u: Tree, l: Layout) {
    forall p :: Lookup(u, p) == Expected(t, l, p)
  }

  ghost predicate SourcesPresent(t: Tree, l: Layout) {
    l.tree in t && ManifestsPresent(t, l)
  }

  /** The link step finds `current` absent or resolvable, so that it can replace it. */
  ghost predicate CanRelink(t: Tree, l: Layout)
    requires Ready(t, l)
  {
    BodyEffect(t, l);
    l.Current() in t ==> Exists(RunSteps(t, Body(l)).tree, l.Current())
  }

  /** After the body nothing is in the way of the link step. */
  lemma LinkStepIsReady(t: Tree, l: Layout)
    requires Ready(t, l)
    ensures Runnable(Body(l))
    ensures var b := RunSteps(t, Body(l)).tree;
      RunSteps(t, Body(l)).error == None ==>
        && WellFormed(b) && l.Current() != [] && Parent(l.Current()) == l.root && Lookup(b, l.root) == Some(Dir)
        && Lookup(b, l.Current()) == Lookup(t, l.Current())
  {
    PlacesAreApart(l);
    BodyEffect(t, l);
    NotATarget(l, l.Current());
    NotATarget(l, l.root);
    assert Within(l.Directories()[0], l.root);
    assert AboveOneOf(l.Directories(), l.root);
  }

  /** The tree with the link in place. */
  function Relinked(b: Tree, l: Layout): Tree {
    Remove(b, l.Current())[l.Current() := Link(l.VersionRoot())]
  }

  lemma LinkStepEffect(b: Tree, l: Layout)
    requires WellFormed(b) && l.Current() != [] && Parent(l.Current()) == l.root && Lookup(b, l.root) == Some(Dir)
    ensures var done := RunStep(b, Step(WriteSymlink, l.Current(), Some(l.VersionRoot())));
      if l.Current() in b ==> Exists(b, l.Current()) then done == Outcome(Relinked(b, l), None) && WellFormed(done.tree)
      else done == Outcome(b, Some(AlreadyExists))
  {
    if l.Current() in b ==> Exists(b, l.Current()) {
      if l.Current() !in b {
        RemoveAbsent(b, l.Current());
      }
      RemoveKeepsWellFormed(b, l.Current());
      ReplaceKeepsWellFormed(Remove(b, l.Current()), l.Current(), Link(l.VersionRoot()));
    }
  }

  lemma RelinkedIsInstalled(t: Tree, l: Layout)
    requires Ready(t, l) && Runnable(Body(l)) && RunSteps(t, Body(l)).error == None
    ensures Installed(t, Relinked(RunSteps(t, Body(l)).tree, l), l)
  {
    BodyEffect(t, l);
    var b := RunSteps(t, Body(l)).tree;
    forall p ensures Lookup(Relinked(b, l), p) == Expected(t, l, p) {
      if IsTarget(l.Manifests(), p) {
        TargetHasItsSource(t, l, b, p);
      }
    }
  }

  /** A run completes exactly when the sources are there and `current` does not dangle when it is replaced. */
  lemma PlanEffect(t: Tree, l: Layout)
    requires Ready(t, l)
    ensures Runnable(Plan(l)) && Runnable(Body(l))
    ensures var done := RunSteps(t, Plan(l));
      && WellFormed(done.tree)
      && (done.error == None <==> SourcesPresent(t, l) && CanRelink(t, l))
      && (done.error == None ==> Installed(t, done.tree, l))
      && (SourcesPresent(t, l) && !CanRelink(t, l) ==> done.error == Some(AlreadyExists))
      && (done.error != None ==> done.tree == RunSteps(t, Body(l)).tree)
  {
    BodyEffect(t, l);
    LinkStepIsReady(t, l);
    var link := Step(WriteSymlink, l.Current(), Some(l.VersionRoot()));
    assert Plan(l) == Body(l) + [link];
    RunStepsAppend(t, Body(l), [link]);
    var body := RunSteps(t, Body(l));
    if body.error == None {
      assert RunSteps(body.tree, [link]) == RunStep(body.tree, link);
      LinkStepEffect(body.tree, l);
      RelinkedIsInstalled(t, l);
    }
  }

  lemma NotATarget(l: Layout, p: Path)
    requires |p| <= |l.root| + 2
    ensures !IsTarget(l.Manifests(), p)
  {
    forall i | 0 <= i < 4 ensures l.Manifests()[i].0 != p {
      assert |l.Manifests()[i].0| == |l.root| + 3;
    }
  }

  lemma TargetIsNotCurrent(l: Layout, p: Path)
    requires IsTarget(l.Manifests(), p)
    ensures !Within(p, l.Current()) && !Within(l.Current(), p)
  {
    var i :| 0 <= i < 4 && l.Manifests()[i].0 == p;
    assert p[|l.root|] == "shared" && l.Current()[|l.root|] == "current";
  }

  lemma TargetHasItsSource(t: Tree, l: Layout, b: Tree, p: Path)
    requires IsTarget(l.Manifests(), p)
    requires forall i :: 0 <= i < 4 ==> Lookup(b, l.Manifests()[i].0) == Lookup(t, l.Manifests()[i].1)
    ensures Lookup(b, p) == Lookup(t, ManifestSource(l, p))
    ensures !Within(p, l.Current()) && !Within(l.Current(), p)
  {
    TargetIsNotCurrent(l, p);
    var i :| 0 <= i < 4 && l.Manifests()[i].0 == p;
    ManifestSourceIsListed(l, i);
  }

  // ---------------------------------------------------------------------------------------------------------------
  // Main results
  // ---------------------------------------------------------------------------------------------------------------

  lemma VersionTreeIsTheSourceTree(t: Tree, u: Tree, l: Layout, below: Path)
    requires Installed(t, u, l)
    ensures Lookup(u, l.VersionRoot() + below) == if Copied(below) then Lookup(t, l.tree + below) else None
  {
    var p := l.VersionRoot() + below;
    assert p[|l.VersionRoot()|..] == below && Within(p, l.VersionRoot());
    assert p[|l.root|] == "releases";
    NotUnderReleases(l, p);
    assert Lookup(u, p) == Expected(t, l, p);
  }

  lemma ManifestIsItsSource(t: Tree, u: Tree, l: Layout, i: nat)
    requires Installed(t, u, l) && i < 4
    ensures Lookup(u, l.Manifests()[i].0) == Lookup(t, l.Manifests()[i].1)
  {
    var p := l.Manifests()[i].0;
    assert IsTarget(l.Manifests(), p);
    assert p[|l.root|] == "shared" && l.Current()[|l.root|] == "current";
    assert Lookup(u, p) == Expected(t, l, p);
    ManifestSourceIsListed(l, i);
  }

  lemma ManifestSourceIsListed(l: Layout, i: nat)
    requires i < 4
    ensures ManifestSource(l, l.Manifests()[i].0) == l.Manifests()[i].1 == Sources(l)[i + 1]
  {
    PlacesAreApart(l);
    var ms := l.Manifests();
    assert ms[0] == (l.MetaFile("promotion.json"), l.promotion);
    assert ms[1] == (l.MetaFile("deploy.json"), l.deploy);
    assert ms[2] == (l.MetaFile("rollback.json"), l.rollback);
    assert ms[3] == (l.MetaFile("handoff.json"), l.handoff);
  }

  lemma RestOfTheDiskIsUntouched(t: Tree, u: Tree, l: Layout, p: Path)
    requires Installed(t, u, l) && Disjoint(p, l.root)
    ensures Lookup(u, p) == Lookup(t, p)
  {
    forall i | 0 <= i < 6 ensures !Within(l.Directories()[i], p) {
      assert Within(l.Directories()[i], l.root);
    }
    assert forall i :: 0 <= i < 4 ==> Within(l.Manifests()[i].0, l.root);
    assert Within(l.VersionRoot(), l.root) && Within(l.Current(), l.root);
    assert Lookup(u, p) == Expected(t, l, p);
  }

  /** The six directories of an installation. */
  ghost predicate HasDirectories(u: Tree, root: Path) {
    && Lookup(u, root) == Some(Dir) && Lookup(u, root + ["releases"]) == Some(Dir)
    && forall name :: name in {"meta", "tmp", "logs", "run"} ==> Lookup(u, root + ["shared", name]) == Some(Dir)
  }

  /** The four metadata files are their sources. */
  ghost predicate HasManifests(t: Tree, u: Tree, l: Layout) {
    && Lookup(u, l.root + ["shared", "meta", "promotion.json"]) == Lookup(t, l.promotion)
    && Lookup(u, l.root + ["shared", "meta", "deploy.json"]) == Lookup(t, l.deploy)
    && Lookup(u, l.root + ["shared", "meta", "rollback.json"]) == Lookup(t, l.rollback)
    && Lookup(u, l.root + ["shared", "meta", "handoff.json"]) == Lookup(t, l.handoff)
  }

  /** The version is its source without anything under `.tmp`; other versions are as they were. */
  ghost predicate HasVersion(t: Tree, u: Tree, root: Path, version: string, source: Path) {
    forall v: string, below: Path :: HasBelow(t, u, root, version, source, v, below)
  }

  /** What is at one path below the directory of version `v`. */
  ghost predicate HasBelow(t: Tree, u: Tree, root: Path, version: string, source: Path, v: string, below: Path) {
    Lookup(u, root + ["releases", v] + below) ==
      if v != version then Lookup(t, root + ["releases", v] + below)
      else if ".tmp" in below then None
      else Lookup(t, source + below)
  }

  lemma DirectoriesByName(t: Tree, u: Tree, l: Layout)
    requires Installed(t, u, l)
    ensures HasDirectories(u, l.root)
  {
    DirectoryIsMade(t, u, l, l.root, 0);
    DirectoryIsMade(t, u, l, l.root + ["releases"], 1);
    DirectoryIsMade(t, u, l, l.root + ["shared", "meta"], 2);
    DirectoryIsMade(t, u, l, l.root + ["shared", "tmp"], 3);
    DirectoryIsMade(t, u, l, l.root + ["shared", "logs"], 4);
    DirectoryIsMade(t, u, l, l.root + ["shared", "run"], 5);
  }

  lemma DirectoryIsMade(t: Tree, u: Tree, l: Layout, d: Path, i: nat)
    requires Installed(t, u, l) && i < 6 && d == l.Directories()[i]
    ensures Lookup(u, d) == Some(Dir)
  {
    PlacesAreApart(l);
    assert |d| <= |l.root| + 2;
    NotATarget(l, d);
    assert !Within(d, l.VersionRoot()) && !Within(d, l.Current()) && AboveOneOf(l.Directories(), d);
    assert Lookup(u, d) == Expected(t, l, d);
  }

  lemma ManifestsByName(t: Tree, u: Tree, l: Layout)
    requires Installed(t, u, l)
    ensures HasManifests(t, u, l)
  {
    var ms := l.Manifests();
    assert l.root + ["shared", "meta", "promotion.json"] == ms[0].0;
    assert l.root + ["shared", "meta", "deploy.json"] == ms[1].0;
    assert l.root + ["shared", "meta", "rollback.json"] == ms[2].0;
    assert l.root + ["shared", "meta", "handoff.json"] == ms[3].0;
    ManifestIsItsSource(t, u, l, 0);
    ManifestIsItsSource(t, u, l, 1);
    ManifestIsItsSource(t, u, l, 2);
    ManifestIsItsSource(t, u, l, 3);
  }

  lemma VersionsByName(t: Tree, u: Tree, l: Layout)
    requires Installed(t, u, l)
    ensures HasVersion(t, u, l.root, l.version, l.tree)
  {
    forall v: string, below: Path ensures HasBelow(t, u, l.root, l.version, l.tree, v, below) {
      if v == l.version {
        VersionTreeIsTheSourceTree(t, u, l, below);
      } else {
        OtherVersionsAreUntouched(t, u, l, v, below);
        assert l.root + ["releases", v] + below == l.Releases() + [v] + below;
      }
    }
  }

  lemma LinkByName(t: Tree, u: Tree, l: Layout)
    requires Installed(t, u, l)
    ensures Lookup(u, l.root + ["current"]) == Some(Link(l.root + ["releases", l.version]))
  {
    assert l.root + ["current"] == l.Current() && l.root + ["releases", l.version] == l.VersionRoot();
    assert Lookup(u, l.Current()) == Expected(t, l, l.Current());
  }

  /**
   * A complete run: the six directories are there, `current` links to the version, the version's tree is the source
   * tree without anything under `.tmp`, each metadata file is its source, and other versions and the rest of the disk
   * are as they were.
   */
  lemma CompleteRun(t: Tree, l: Layout)
    requires Ready(t, l) && SourcesPresent(t, l) && CanRelink(t, l)
    ensures Runnable(Plan(l)) && RunSteps(t, Plan(l)).error == None
    ensures var u := RunSteps(t, Plan(l)).tree;
      && HasDirectories(u, l.root) && HasVersion(t, u, l.root, l.version, l.tree) && HasManifests(t, u, l)
      && Lookup(u, l.root + ["current"]) == Some(Link(l.root + ["releases", l.version]))
      && (forall p :: Disjoint(p, l.root) ==> Lookup(u, p) == Lookup(t, p))
  {
    PlanEffect(t, l);
    var u := RunSteps(t, Plan(l)).tree;
    DirectoriesByName(t, u, l);
    ManifestsByName(t, u, l);
    VersionsByName(t, u, l);
    LinkByName(t, u, l);
    forall p | Disjoint(p, l.root) {
      RestOfTheDiskIsUntouched(t, u, l, p);
    }
  }

  /** What any run leaves at the places the plan is about, wherever it stopped. */
  lemma RunStopsExactly(t: Tree, l: Layout)
    requires Ready(t, l)
    ensures Runnable(Plan(l))
    ensures var done := RunSteps(t, Plan(l));
      && Lookup(done.tree, l.VersionRoot()) == Lookup(t, l.tree)
      && Lookup(done.tree, l.Current()) ==
           (if done.error == None then Some(Link(l.VersionRoot())) else Lookup(t, l.Current()))
      && (forall i :: 0 <= i < 4 ==> Lookup(done.tree, l.Manifests()[i].0) == ManifestAfter(t, l, i))
      && (forall v: string :: v != l.version ==>
            Lookup(done.tree, l.Releases() + [v]) == Lookup(t, l.Releases() + [v]))
  {
    PlanEffect(t, l);
    BodyEffect(t, l);
    PlacesAreApart(l);
    var done, vr := RunSteps(t, Plan(l)), l.VersionRoot();
    NotATarget(l, vr);
    NotATarget(l, l.Current());
    assert vr[|vr|..] == [] && Rebase(vr, vr, l.tree) == l.tree;
    if done.error == None {
      assert Lookup(done.tree, vr) == Expected(t, l, vr);
      assert Lookup(done.tree, l.Current()) == Expected(t, l, l.Current());
    }
    forall i | 0 <= i < 4 ensures Lookup(done.tree, l.Manifests()[i].0) == ManifestAfter(t, l, i) {
      BodyStopsAt(t, l, i);
      if done.error == None {
        ManifestIsItsSource(t, done.tree, l, i);
      }
    }
    forall v: string | v != l.version
      ensures Lookup(done.tree, l.Releases() + [v]) == Lookup(t, l.Releases() + [v])
    {
      OtherVersionsAreUntouched(t, done.tree, l, v, []);
      assert l.Releases() + [v] + [] == l.Releases() + [v];
    }
  }

  lemma NotUnderReleases(l: Layout, p: Path)
    requires |p| > |l.root| && p[|l.root|] == "releases"
    ensures !IsTarget(l.Manifests(), p)
    ensures |p| > |l.root| + 1 ==> !AboveOneOf(l.Directories(), p)
    ensures !Within(p, l.Current())
  {
    assert l.Current()[|l.root|] == "current";
    forall i | 0 <= i < 4 ensures l.Manifests()[i].0 != p {
      assert l.Manifests()[i].0[|l.root|] == "shared";
    }
    if |p| > |l.root| + 1 {
      forall i | 0 <= i < 6 ensures !Within(l.Directories()[i], p) {
        var d := l.Directories()[i];
        assert |d| > |l.root| + 1 ==> d[|l.root|] == "shared";
      }
    }
  }

  lemma OtherVersionsAreUntouched(t: Tree, u: Tree, l: Layout, v: string, below: Path)
    requires v != l.version
    requires Installed(t, u, l) || forall p :: !IsTarget(l.Manifests(), p) ==> Lookup(u, p) == Prepared(t, l, p)
    ensures Lookup(u, l.Releases() + [v] + below) == Lookup(t, l.Releases() + [v] + below)
  {
    var p := l.Releases() + [v] + below;
    assert p[|l.root|] == "releases" && p[|l.root| + 1] == v && l.VersionRoot()[|l.root| + 1] == l.version;
    NotUnderReleases(l, p);
    if Installed(t, u, l) {
      assert Lookup(u, p) == Expected(t, l, p);
    }
  }

  /** A link to a version that is there, or to the version being installed, never blocks the link step. */
  lemma VersionLinksCanBeReplaced(t: Tree, l: Layout, v: string)
    requires Ready(t, l) && SourcesPresent(t, l)
    requires !t[l.tree].Link?
    requires Lookup(t, l.Current()) == Some(Link(l.Releases() + [v]))
    requires v == l.version || (l.Releases() + [v] in t && !t[l.Releases() + [v]].Link?)
    ensures CanRelink(t, l)
  {
    BodyEffect(t, l);
    PlacesAreApart(l);
    var b, to := RunSteps(t, Body(l)).tree, l.Releases() + [v];
    NotATarget(l, l.Current());
    assert Lookup(b, l.Current()) == Lookup(t, l.Current());
    if v == l.version {
      assert to == l.VersionRoot();
      NotATarget(l, to);
      assert to[|to|..] == [] && Rebase(to, to, l.tree) == l.tree;
      assert Lookup(b, to) == Lookup(t, l.tree);
    } else {
      OtherVersionsAreUntouched(t, b, l, v, []);
      assert l.Releases() + [v] + [] == to;
    }
    assert Exists(b, to, 39);
  }

  /** A link to a version that is gone and is not the one being installed does. */
  lemma DanglingLinkBlocks(t: Tree, l: Layout, v: string)
    requires Ready(t, l) && l.Releases() + [v] !in t && v != l.version
    requires Lookup(t, l.Current()) == Some(Link(l.Releases() + [v]))
    ensures !CanRelink(t, l)
  {
    BodyEffect(t, l);
    PlacesAreApart(l);
    var b := RunSteps(t, Body(l)).tree;
    NotATarget(l, l.Current());
    assert Lookup(b, l.Current()) == Lookup(t, l.Current());
    OtherVersionsAreUntouched(t, b, l, v, []);
    assert l.Releases() + [v] + [] == l.Releases() + [v];
    assert !Exists(b, l.Releases() + [v], 39);
  }

  lemma SourceLookups(t: Tree, u: Tree, l: Layout, i: nat, p: Path)
    requires Ready(t, l) && Installed(t, u, l) && i < 5 && Within(p, Sources(l)[i])
    ensures Lookup(u, p) == Lookup(t, p)
  {
    SourcesAreNotTouched(l, i, p);
    assert forall j :: 0 <= j < 4 ==> Within(l.Manifests()[j].0, l.root);
    assert Lookup(u, p) == Expected(t, l, p);
  }

  lemma DirectoriesAreClearAfterwards(t: Tree, u: Tree, l: Layout, i: nat)
    requires Ready(t, l) && i < 6
    requires Installed(t, u, l) || forall p :: !IsTarget(l.Manifests(), p) ==> Lookup(u, p) == Prepared(t, l, p)
    ensures Clear(u, l.Directories()[i])
  {
    PlacesAreApart(l);
    var d := l.Directories()[i];
    forall q | Within(d, q) && q in u ensures u[q] == Dir {
      NotATarget(l, q);
      assert !Within(d, l.Current()) && !Within(d, l.VersionRoot());
      assert !Within(q, l.Current()) && !Within(q, l.VersionRoot());
      assert AboveOneOf(l.Directories(), q);
      if Installed(t, u, l) {
        assert Lookup(u, q) == Expected(t, l, q);
      }
    }
  }

  lemma InstallationIsReady(t: Tree, u: Tree, l: Layout)
    requires Ready(t, l) && SourcesPresent(t, l) && Installed(t, u, l) && WellFormed(u) && t[l.tree].Dir?
    ensures Ready(u, l) && SourcesPresent(u, l) && u[l.tree].Dir?
    ensures Lookup(u, l.Current()) == Some(Link(l.Releases() + [l.version]))
  {
    var vr := l.VersionRoot();
    forall i | 0 <= i < 6 ensures Clear(u, l.Directories()[i]) {
      DirectoriesAreClearAfterwards(t, u, l, i);
    }
    assert vr + [] == vr && l.tree + [] == l.tree && vr == l.Releases() + [l.version];
    VersionTreeIsTheSourceTree(t, u, l, []);
    assert Lookup(u, vr) == Some(Dir);
    forall i | 0 <= i < 5 ensures Lookup(u, Sources(l)[i]) == Lookup(t, Sources(l)[i]) {
      SourceLookups(t, u, l, i, Sources(l)[i]);
    }
    assert Sources(l)[0] == l.tree;
    forall i | 0 <= i < 4
      ensures Lookup(u, l.Manifests()[i].0) == Lookup(t, l.Manifests()[i].1) == Lookup(u, l.Manifests()[i].1)
    {
      ManifestIsItsSource(t, u, l, i);
      ManifestSourceIsListed(l, i);
    }
    assert Lookup(u, l.Current()) == Expected(t, l, l.Current());
  }

  lemma SecondInstallationIsTheFirst(t: Tree, u: Tree, w: Tree, l: Layout)
    requires Ready(t, l) && Installed(t, u, l) && Installed(u, w, l)
    ensures u == w
  {
    forall p ensures Lookup(u, p) == Lookup(w, p) {
      assert Lookup(w, p) == Expected(u, l, p) && Lookup(u, p) == Expected(t, l, p);
      if Within(p, l.VersionRoot()) {
        SourceLookups(t, u, l, 0, Rebase(p, l.VersionRoot(), l.tree));
      }
      if IsTarget(l.Manifests(), p) {
        var i :| 0 <= i < 4 && l.Manifests()[i].0 == p;
        ManifestSourceIsListed(l, i);
        SourceLookups(t, u, l, i + 1, ManifestSource(l, p));
      }
    }
    SameLookups(u, w);
  }

  /** Running a plan again changes nothing. */
  lemma SecondRunChangesNothing(t: Tree, l: Layout)
    requires Ready(t, l) && SourcesPresent(t, l) && CanRelink(t, l)
    requires t[l.tree].Dir?
    ensures Runnable(Plan(l))
    ensures var u := RunSteps(t, Plan(l)).tree; RunSteps(u, Plan(l)) == Outcome(u, None)
  {
    PlanEffect(t, l);
    var u := RunSteps(t, Plan(l)).tree;
    InstallationIsReady(t, u, l);
    VersionLinksCanBeReplaced(u, l, l.version);
    PlanEffect(u, l);
    SecondInstallationIsTheFirst(t, u, RunSteps(u, Plan(l)).tree, l);
  }
}
