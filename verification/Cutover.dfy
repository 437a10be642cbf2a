/**
 * Cutover of an emulated release root and its rollback, as functions on the disk, and what any sequence of them keeps.
 *
 * The history and the apply manifest are files of the installation itself, so a clean cutover forgets them.
 */
module Cutover {
  import opened Prelude
  import opened FileTree
  import opened ReleasePlan

  /** The workspace and the target id fix every path. */
  datatype Site = Site(workspace: Path, targetId: string)
  {
    function TargetRoot(): Path { workspace + [".tmp", "control-release-root-cutover-target", targetId] }

    function ReleaseRoot(): Path { TargetRoot() + ["opt", "simplehostman", "release"] }

    function PromotionRoot(): Path {
      workspace + [".tmp", "control-release-root-promotion", targetId, "opt", "simplehostman", "release"]
    }

    function PromotionMeta(name: string): Path { PromotionRoot() + ["shared", "meta", name] }

    function LayoutOf(version: string): Layout {
      Layout(ReleaseRoot(), version, PromotionRoot() + ["releases", version], PromotionMeta("promotion.json"),
             PromotionMeta("deploy.json"), PromotionMeta("rollback.json"), PromotionMeta("handoff.json"))
    }

    function Meta(): Path { ReleaseRoot() + ["shared", "meta"] }

    function Current(): Path { ReleaseRoot() + ["current"] }

    function Releases(): Path { ReleaseRoot() + ["releases"] }

    function ApplyFile(): Path { Meta() + ["cutover-apply.json"] }

    function HistoryFile(): Path { Meta() + ["cutover-history.json"] }
  }

  // ---------------------------------------------------------------------------------------------------------------
  // Reading
  // ---------------------------------------------------------------------------------------------------------------

  /** The resolved target of `current` and the version it stands for. */
  function ResolveCurrent(t: Tree, s: Site): (Option<Path>, Option<string>) {
    if !Exists(t, s.Current()) then (None, None)
    else if !t[s.Current()].Link? then (None, None)
    else
      var resolved := RealPath(t, s.Current());
      var isVersion := Within(resolved, s.Releases()) && resolved != s.Releases();
      (Some(resolved), if isVersion then Some(Base(resolved)) else None)
  }

  function ReadHistory(t: Tree, s: Site): seq<HistoryRecord> {
    match Lookup(t, s.HistoryFile())
    case Some(File(History(records))) => records
    case _ => []
  }

  function ReadApply(t: Tree, s: Site): Option<(string, Option<Path>)> {
    match Lookup(t, s.ApplyFile())
    case Some(File(ApplyManifest(version, candidate))) => Some((version, candidate))
    case _ => None
  }

  /** A file that the JSON reader accepts. */
  predicate IsManifest(t: Tree, p: Path) {
    p in t && t[p].File? && !t[p].content.Text?
  }

  predicate PromotionStatePresent(t: Tree, s: Site) {
    && IsManifest(t, s.PromotionMeta("promotion.json"))
    && IsManifest(t, s.PromotionMeta("deploy.json"))
    && IsManifest(t, s.PromotionMeta("apply.json"))
  }

  // ---------------------------------------------------------------------------------------------------------------
  // Writing
  // ---------------------------------------------------------------------------------------------------------------

  /** Two files written one after the other into the metadata directory. */
  function WriteManifests(t: Tree, s: Site, apply: Option<Content>, records: seq<HistoryRecord>): Outcome {
    var made := MakeDirectories(t, s.Meta());
    if made.error.Some? then made
    else
      var first := if apply.Some? then WriteFile(made.tree, s.ApplyFile(), apply.value) else made;
      if first.error.Some? then first
      else WriteFile(first.tree, s.HistoryFile(), History(records))
  }

  function ApplyCutover(t: Tree, s: Site, version: string, clean: bool): Outcome {
    var start := if clean then Remove(t, s.TargetRoot()) else t;
    if !PromotionStatePresent(start, s) then Outcome(start, Some(MissingState))
    else
      var (candidate, active) := ResolveCurrent(start, s);
      PlanTargets(s.LayoutOf(version));
      var run := RunSteps(start, Plan(s.LayoutOf(version)));
      if run.error.Some? then run
      else
        WriteManifests(run.tree, s, Some(ApplyManifest(version, candidate)),
                       ReadHistory(run.tree, s) + [HistoryRecord(Action.Cutover, version, active)])
  }

  /** The rollback's removal helper looks at the link itself, so it would also remove a dangling one. */
  function ApplyRollback(t: Tree, s: Site): Outcome {
    match ReadApply(t, s)
    case None => Outcome(t, Some(MissingState))
    case Some((version, candidate)) =>
      if candidate.None? then Outcome(t, Some(MissingSource))
      else
        var made := MakeDirectories(t, s.Meta());
        if made.error.Some? then made
        else
          var linked := MakeLink(Remove(made.tree, s.Current()), candidate.value, s.Current());
          if linked.error.Some? then linked
          else
            WriteManifests(linked.tree, s, None,
                           ReadHistory(linked.tree, s)
                           + [HistoryRecord(Action.Rollback, Base(candidate.value), Some(version))])
  }

  lemma PlanTargets(l: Layout)
    requires l.root != []
    ensures Runnable(Plan(l))
  {
  }

  // ---------------------------------------------------------------------------------------------------------------
  // What every cutover and rollback keeps
  // ---------------------------------------------------------------------------------------------------------------

  /** The last cutover on record. */
  function LastCutover(records: seq<HistoryRecord>): Option<HistoryRecord>
    decreases |records|
  {
    if records == [] then None
    else if records[|records| - 1].action == Action.Cutover then Some(records[|records| - 1])
    else LastCutover(records[..|records| - 1])
  }

  /** A cutover records the version before it; a rollback undoes the last cutover. */
  predicate LinkedAt(records: seq<HistoryRecord>, i: nat)
    requires i < |records|
  {
    match records[i].action
    case Cutover => i > 0 ==> records[i].previousVersion == Some(records[i - 1].version)
    case Rollback =>
      var undone := LastCutover(records[..i]);
      && undone.Some?
      && records[i].previousVersion == Some(undone.value.version)
      && Some(records[i].version) == undone.value.previousVersion
  }

  predicate Linked(records: seq<HistoryRecord>) {
    forall i :: 0 <= i < |records| ==> LinkedAt(records, i)
  }

  lemma LinkedGrows(records: seq<HistoryRecord>, last: HistoryRecord)
    requires Linked(records) && LinkedAt(records + [last], |records|)
    ensures Linked(records + [last])
  {
    forall i | 0 <= i < |records + [last]| ensures LinkedAt(records + [last], i) {
      if i < |records| {
        assert LinkedAt(records, i);
        assert (records + [last])[..i] == records[..i];
      }
    }
  }

  /** `current` resolves to version `v`. */
  predicate IsActive(t: Tree, s: Site, v: string) {
    Lookup(t, s.Current()) == Some(Link(s.Releases() + [v])) && s.Releases() + [v] in t
  }

  /** Shape of the emulated root; `l` may be the layout of any version. */
  ghost predicate WellShaped(t: Tree, s: Site) {
    && WellFormed(t)
    && (forall i :: 0 <= i < 6 ==> Clear(t, s.LayoutOf("").Directories()[i]))
    && (forall v: string :: s.Releases() + [v] in t ==> t[s.Releases() + [v]] == Dir)
    && (forall name: string :: s.Meta() + [name] in t ==> t[s.Meta() + [name]].File?)
  }

  ghost predicate HistoryAgrees(t: Tree, s: Site) {
    var records := ReadHistory(t, s);
    && Linked(records)
    && (records == [] ==> ReadApply(t, s) == None)
    && (records != [] ==>
          && IsActive(t, s, records[|records| - 1].version)
          && LastCutover(records).Some?
          && var last := LastCutover(records).value;
             ReadApply(t, s) == Some((last.version, if last.previousVersion.None? then None
                                                    else Some(s.Releases() + [last.previousVersion.value]))))
  }

  /** `current`, if there, resolves to a version. */
  ghost predicate CurrentResolves(t: Tree, s: Site) {
    s.Current() in t ==> exists v :: IsActive(t, s, v)
  }

  /** The version a rollback would return to. */
  function Candidate(t: Tree, s: Site): Option<Path> {
    if ReadApply(t, s).Some? then ReadApply(t, s).value.1 else None
  }

  ghost predicate CandidateIsThere(t: Tree, s: Site) {
    Candidate(t, s).Some? ==> Candidate(t, s).value in t
  }

  /** The invariant between operations. */
  ghost predicate Sound(t: Tree, s: Site) {
    WellShaped(t, s) && CurrentResolves(t, s) && CandidateIsThere(t, s) && HistoryAgrees(t, s)
  }

  /** What the promotion stage leaves for a cutover: directories and files where they belong, if anything. */
  ghost predicate SourcesWellShaped(t: Tree, s: Site, version: string) {
    && (s.LayoutOf(version).tree in t ==> t[s.LayoutOf(version).tree] == Dir)
    && (forall i :: 0 <= i < 4 ==>
          s.LayoutOf(version).Manifests()[i].1 in t ==> t[s.LayoutOf(version).Manifests()[i].1].File?)
  }

  lemma SitePathsAreApart(s: Site, version: string)
    ensures s.ReleaseRoot() != [] && s.LayoutOf(version).root == s.ReleaseRoot()
    ensures forall i :: 0 <= i < 5 ==> Disjoint(s.ReleaseRoot(), Sources(s.LayoutOf(version))[i])
    ensures s.LayoutOf(version).Directories() == s.LayoutOf("").Directories()
    ensures s.LayoutOf(version).VersionRoot() == s.Releases() + [version]
    ensures s.LayoutOf(version).Meta() == s.Meta() && s.LayoutOf(version).Current() == s.Current()
    ensures Within(s.ReleaseRoot(), s.TargetRoot())
  {
    var n := |s.workspace| + 1;
    assert s.ReleaseRoot()[n] == "control-release-root-cutover-target";
    assert s.PromotionRoot()[n] == "control-release-root-promotion";
    assert "control-release-root-cutover-target"[21] == 'c' && "control-release-root-promotion"[21] == 'p';
    forall i | 0 <= i < 5 ensures Disjoint(s.ReleaseRoot(), Sources(s.LayoutOf(version))[i]) {
      assert Sources(s.LayoutOf(version))[i][n] == "control-release-root-promotion";
    }
    assert s.LayoutOf(version).VersionRoot() == s.Releases() + [version];
  }

  lemma LayoutIsReady(t: Tree, s: Site, version: string)
    requires WellShaped(t, s) && SourcesWellShaped(t, s, version)
    ensures Ready(t, s.LayoutOf(version))
  {
    var l := s.LayoutOf(version);
    SitePathsAreApart(s, version);
    assert forall i :: 0 <= i < 4 ==> l.Manifests()[i].0 == s.Meta() + [Base(l.Manifests()[i].0)];
  }

  lemma ResolveActive(t: Tree, s: Site, v: string)
    requires WellShaped(t, s) && IsActive(t, s, v)
    ensures ResolveCurrent(t, s) == (Some(s.Releases() + [v]), Some(v))
  {
    var to := s.Releases() + [v];
    assert Exists(t, to, 39) && RealPath(t, to, 39) == to;
    assert RealPath(t, s.Current()) == to;
  }

  lemma ActiveIsUnique(t: Tree, s: Site, v: string, w: string)
    requires IsActive(t, s, v) && IsActive(t, s, w)
    ensures v == w
  {
    assert (s.Releases() + [v])[|s.Releases()|] == v;
    assert (s.Releases() + [w])[|s.Releases()|] == w;
  }

  /** Cleaning forgets everything, the history included. */
  lemma CleanRootIsSound(t: Tree, s: Site)
    requires WellShaped(t, s)
    ensures Sound(Remove(t, s.TargetRoot()), s)
    ensures s.Current() !in Remove(t, s.TargetRoot()) && ReadHistory(Remove(t, s.TargetRoot()), s) == []
    ensures ReadApply(Remove(t, s.TargetRoot()), s) == None
  {
    var u := Remove(t, s.TargetRoot());
    RemoveKeepsWellFormed(t, s.TargetRoot());
    forall i | 0 <= i < 6 ensures Clear(u, s.LayoutOf("").Directories()[i]) {
      assert Clear(t, s.LayoutOf("").Directories()[i]);
    }
    assert Within(s.Current(), s.TargetRoot()) && Within(s.HistoryFile(), s.TargetRoot());
    assert Within(s.ApplyFile(), s.TargetRoot());
    assert forall v: string :: Within(s.Releases() + [v], s.TargetRoot());
    assert forall name: string :: Within(s.Meta() + [name], s.TargetRoot());
  }

  // ---------------------------------------------------------------------------------------------------------------
  // The steps of a cutover
  // ---------------------------------------------------------------------------------------------------------------

  /** What the tree `u` keeps of `t` when a plan for `version` was run on it, in part or to the end. */
  ghost predicate KeepsRest(t: Tree, u: Tree, s: Site, version: string) {
    && (forall v: string :: v != version ==> Lookup(u, s.Releases() + [v]) == Lookup(t, s.Releases() + [v]))
    && Lookup(u, s.ApplyFile()) == Lookup(t, s.ApplyFile())
    && Lookup(u, s.HistoryFile()) == Lookup(t, s.HistoryFile())
  }

  lemma BookkeepingIsNotPlanned(s: Site, version: string, name: string)
    requires name == "cutover-apply.json" || name == "cutover-history.json"
    ensures var l := s.LayoutOf(version);
      var p := s.Meta() + [name];
      && !IsTarget(l.Manifests(), p) && !Within(p, l.VersionRoot()) && !Within(p, l.Current())
      && !AboveOneOf(l.Directories(), p)
  {
    var l, p := s.LayoutOf(version), s.Meta() + [name];
    var n := |l.root|;
    assert p[n] == "shared" && l.VersionRoot()[n] == "releases" && l.Current()[n] == "current" && |p| == n + 3;
    forall i | 0 <= i < 4 ensures l.Manifests()[i].0 != p {
      assert l.Manifests()[i].0[n + 2] == "promotion.json" || l.Manifests()[i].0[n + 2] == "deploy.json"
          || l.Manifests()[i].0[n + 2] == "rollback.json" || l.Manifests()[i].0[n + 2] == "handoff.json";
      assert |"cutover-apply.json"| == 18 && |"cutover-history.json"| == 20;
    }
    assert forall i :: 0 <= i < 6 ==> |l.Directories()[i]| <= n + 2;
  }

  lemma StepsKeepRest(t: Tree, s: Site, version: string)
    requires WellShaped(t, s) && SourcesWellShaped(t, s, version)
    ensures Runnable(Plan(s.LayoutOf(version))) && Ready(t, s.LayoutOf(version))
    ensures KeepsRest(t, RunSteps(t, Plan(s.LayoutOf(version))).tree, s, version)
  {
    var l := s.LayoutOf(version);
    LayoutIsReady(t, s, version);
    PlanEffect(t, l);
    BodyEffect(t, l);
    SitePathsAreApart(s, version);
    var done := RunSteps(t, Plan(l));
    forall v: string | v != version ensures Lookup(done.tree, s.Releases() + [v]) == Lookup(t, s.Releases() + [v]) {
      OtherVersionsAreUntouched(t, done.tree, l, v, []);
      assert s.Releases() + [v] + [] == s.Releases() + [v];
    }
    BookkeepingIsNotPlanned(s, version, "cutover-apply.json");
    BookkeepingIsNotPlanned(s, version, "cutover-history.json");
    if done.error == None {
      assert Lookup(done.tree, s.ApplyFile()) == Expected(t, l, s.ApplyFile());
      assert Lookup(done.tree, s.HistoryFile()) == Expected(t, l, s.HistoryFile());
    }
  }

  /** What the steps leave at the version's root and at `current`. */
  lemma StepsAtVersionAndCurrent(t: Tree, s: Site, version: string)
    requires WellShaped(t, s) && SourcesWellShaped(t, s, version)
    ensures Runnable(Plan(s.LayoutOf(version)))
    ensures var done := RunSteps(t, Plan(s.LayoutOf(version)));
      && Lookup(done.tree, s.Releases() + [version]) == Lookup(t, s.LayoutOf(version).tree)
      && Lookup(done.tree, s.Current()) ==
           if done.error == None then Some(Link(s.Releases() + [version])) else Lookup(t, s.Current())
  {
    var l := s.LayoutOf(version);
    LayoutIsReady(t, s, version);
    PlanEffect(t, l);
    BodyEffect(t, l);
    SitePathsAreApart(s, version);
    PlacesAreApart(l);
    var u, vr := RunSteps(t, Plan(l)).tree, l.VersionRoot();
    NotATarget(l, vr);
    NotATarget(l, l.Current());
    assert vr[|vr|..] == [] && Rebase(vr, vr, l.tree) == l.tree;
    if RunSteps(t, Plan(l)).error == None {
      assert Lookup(u, vr) == Expected(t, l, vr);
      assert Lookup(u, l.Current()) == Expected(t, l, l.Current());
    }
  }

  lemma MetaPathsAreApart(l: Layout, name: string)
    ensures var p := l.Meta() + [name];
      && !AboveOneOf(l.Directories(), p) && !Within(p, l.VersionRoot()) && !Within(p, l.Current())
  {
    var p := l.Meta() + [name];
    assert p[|l.root|] == "shared" && l.VersionRoot()[|l.root|] == "releases" && l.Current()[|l.root|] == "current";
    forall i | 0 <= i < 6 ensures !Within(l.Directories()[i], p) {
      assert |l.Directories()[i]| < |p|;
    }
  }

  lemma MetaFilesStayFiles(t: Tree, s: Site, version: string, name: string)
    requires WellShaped(t, s) && SourcesWellShaped(t, s, version)
    ensures Runnable(Plan(s.LayoutOf(version)))
    ensures var u := RunSteps(t, Plan(s.LayoutOf(version))).tree;
      s.Meta() + [name] in u ==> u[s.Meta() + [name]].File?
  {
    var l, p := s.LayoutOf(version), s.Meta() + [name];
    LayoutIsReady(t, s, version);
    PlanEffect(t, l);
    BodyEffect(t, l);
    MetaPathsAreApart(l, name);
    var done := RunSteps(t, Plan(l));
    if done.error == None {
      if IsTarget(l.Manifests(), p) {
        var i :| 0 <= i < 4 && l.Manifests()[i].0 == p;
        ManifestIsItsSource(t, done.tree, l, i);
      } else {
        assert Lookup(done.tree, p) == Expected(t, l, p);
      }
    } else if !IsTarget(l.Manifests(), p) {
      assert Lookup(done.tree, p) == Prepared(t, l, p);
    }
  }

  lemma StepsKeepShape(t: Tree, s: Site, version: string)
    requires WellShaped(t, s) && SourcesWellShaped(t, s, version)
    ensures Runnable(Plan(s.LayoutOf(version)))
    ensures WellShaped(RunSteps(t, Plan(s.LayoutOf(version))).tree, s)
  {
    var l := s.LayoutOf(version);
    LayoutIsReady(t, s, version);
    PlanEffect(t, l);
    BodyEffect(t, l);
    SitePathsAreApart(s, version);
    StepsAtVersionAndCurrent(t, s, version);
    StepsKeepRest(t, s, version);
    var u := RunSteps(t, Plan(l)).tree;
    forall i | 0 <= i < 6 ensures Clear(u, s.LayoutOf("").Directories()[i]) {
      DirectoriesAreClearAfterwards(t, u, l, i);
    }
    forall v: string | s.Releases() + [v] in u ensures u[s.Releases() + [v]] == Dir {
      assert v != version ==> Lookup(u, s.Releases() + [v]) == Lookup(t, s.Releases() + [v]);
    }
    forall name: string | s.Meta() + [name] in u ensures u[s.Meta() + [name]].File? {
      MetaFilesStayFiles(t, s, version, name);
    }
  }

  /** Under the invariant the link step cannot fail. */
  lemma StepsSucceedIffSourcesArePresent(t: Tree, s: Site, version: string)
    requires Sound(t, s) && SourcesWellShaped(t, s, version)
    ensures Runnable(Plan(s.LayoutOf(version)))
    ensures RunSteps(t, Plan(s.LayoutOf(version))).error == None <==> SourcesPresent(t, s.LayoutOf(version))
  {
    var l := s.LayoutOf(version);
    LayoutIsReady(t, s, version);
    PlanEffect(t, l);
    SitePathsAreApart(s, version);
    if SourcesPresent(t, l) && s.Current() in t {
      var v :| IsActive(t, s, v);
      VersionLinksCanBeReplaced(t, l, v);
    }
  }

  lemma ManifestIsNoRelease(s: Site, name: string, w: string)
    ensures s.Meta() + [name] != s.Releases() + [w]
  {
    assert (s.Meta() + [name])[|s.ReleaseRoot()|] == "shared";
    assert (s.Releases() + [w])[|s.ReleaseRoot()|] == "releases";
  }

  lemma ManifestKeepsShape(t: Tree, s: Site, name: string, content: Content)
    requires WellShaped(t, s) && Lookup(t, s.Meta()) == Some(Dir)
    ensures WellShaped(t[s.Meta() + [name] := File(content)], s)
  {
    var l, p := s.LayoutOf(""), s.Meta() + [name];
    assert Parent(p) == s.Meta();
    ReplaceKeepsWellFormed(t, p, File(content));
    var u := t[p := File(content)];
    forall w: string | s.Releases() + [w] in u ensures u[s.Releases() + [w]] == Dir {
      ManifestIsNoRelease(s, name, w);
    }
    DirectoriesAreShorter(s, name);
    forall i | 0 <= i < 6 ensures Clear(u, l.Directories()[i]) {
      LongerPathKeepsClear(t, l.Directories()[i], p, File(content));
    }
  }

  lemma DirectoriesAreShorter(s: Site, name: string)
    ensures forall i :: 0 <= i < 6 ==> |s.LayoutOf("").Directories()[i]| < |s.Meta() + [name]|
  {
  }

  lemma WriteOneManifest(t: Tree, s: Site, name: string, content: Content)
    requires WellShaped(t, s) && s.Meta() in t
    ensures WriteFile(t, s.Meta() + [name], content) == Outcome(t[s.Meta() + [name] := File(content)], None)
    ensures WellShaped(t[s.Meta() + [name] := File(content)], s)
  {
    assert Clear(t, s.LayoutOf("").Directories()[2]) && Within(s.Meta(), s.Meta());
    assert Parent(s.Meta() + [name]) == s.Meta() && t[s.Meta()] == Dir;
    ManifestKeepsShape(t, s, name, content);
  }

  lemma LongerPathKeepsClear(t: Tree, d: Path, p: Path, node: Node)
    requires Clear(t, d) && |d| < |p|
    ensures Clear(t[p := node], d)
  {
  }

  lemma BookkeepingFilesDiffer(s: Site)
    ensures s.ApplyFile() != s.HistoryFile()
  {
    assert "cutover-apply.json"[8] == 'a' && "cutover-history.json"[8] == 'h';
    assert Base(s.ApplyFile()) != Base(s.HistoryFile());
  }

  lemma MetaIsReady(t: Tree, s: Site)
    requires WellShaped(t, s) && s.Meta() in t
    ensures MakeDirectories(t, s.Meta()) == Outcome(t, None)
  {
    assert Clear(t, s.LayoutOf("").Directories()[2]) && Within(s.Meta(), s.Meta());
    MakeExistingDirectory(t, s.Meta());
  }

  function WithHistory(t: Tree, s: Site, records: seq<HistoryRecord>): Tree {
    t[s.HistoryFile() := File(History(records))]
  }

  /** The bookkeeping files are written and nothing else changes. */
  lemma WriteManifestsEffect(t: Tree, s: Site, apply: Option<Content>, records: seq<HistoryRecord>)
    requires WellShaped(t, s) && s.Meta() in t
    ensures var u := if apply.Some? then t[s.ApplyFile() := File(apply.value)] else t;
      && WriteManifests(t, s, apply, records) == Outcome(WithHistory(u, s, records), None)
      && WellShaped(WithHistory(u, s, records), s)
  {
    MetaIsReady(t, s);
    var u := t;
    if apply.Some? {
      WriteOneManifest(t, s, "cutover-apply.json", apply.value);
      u := t[s.ApplyFile() := File(apply.value)];
    }
    WriteOneManifest(u, s, "cutover-history.json", History(records));
  }

  lemma ReadsAfterWrites(t: Tree, s: Site, records: seq<HistoryRecord>, version: string, candidate: Option<Path>)
    ensures ReadHistory(WithHistory(t, s, records), s) == records
    ensures ReadApply(WithHistory(t, s, records), s) == ReadApply(t, s)
    ensures ReadApply(t[s.ApplyFile() := File(ApplyManifest(version, candidate))], s) == Some((version, candidate))
  {
    BookkeepingFilesDiffer(s);
  }

  // ---------------------------------------------------------------------------------------------------------------
  // One cutover
  // ---------------------------------------------------------------------------------------------------------------

  /** The version `current` resolves to. */
  function ActiveVersion(t: Tree, s: Site): Option<string> {
    ResolveCurrent(t, s).1
  }

  lemma ActiveVersionOf(t: Tree, s: Site)
    requires Sound(t, s)
    ensures s.Current() !in t ==> ResolveCurrent(t, s) == (None, None)
    ensures s.Current() in t ==>
      exists v :: IsActive(t, s, v) && ResolveCurrent(t, s) == (Some(s.Releases() + [v]), Some(v))
    ensures ActiveVersion(t, s).Some? ==> IsActive(t, s, ActiveVersion(t, s).value)
  {
    if s.Current() in t {
      var v :| IsActive(t, s, v);
      ResolveActive(t, s, v);
    }
  }

  /** The tree after the steps of a successful cutover. */
  lemma StepsAfterSuccess(t: Tree, s: Site, version: string)
    requires Sound(t, s) && SourcesWellShaped(t, s, version) && SourcesPresent(t, s.LayoutOf(version))
    ensures Runnable(Plan(s.LayoutOf(version)))
    ensures var done := RunSteps(t, Plan(s.LayoutOf(version)));
      && done.error == None && WellShaped(done.tree, s) && IsActive(done.tree, s, version) && s.Meta() in done.tree
      && (forall v :: s.Releases() + [v] in t ==> s.Releases() + [v] in done.tree)
      && ReadHistory(done.tree, s) == ReadHistory(t, s)
  {
    var l := s.LayoutOf(version);
    StepsSucceedIffSourcesArePresent(t, s, version);
    StepsAtVersionAndCurrent(t, s, version);
    StepsKeepShape(t, s, version);
    StepsKeepRest(t, s, version);
    var u := RunSteps(t, Plan(l)).tree;
    forall v | s.Releases() + [v] in t ensures s.Releases() + [v] in u {
      assert v != version ==> Lookup(u, s.Releases() + [v]) == Lookup(t, s.Releases() + [v]);
    }
    PlanEffect(t, l);
    MetaIsMade(t, u, l);
  }

  lemma MetaIsMade(t: Tree, u: Tree, l: Layout)
    requires Installed(t, u, l)
    ensures l.Meta() in u
  {
    NotATarget(l, l.Meta());
    assert l.Meta()[|l.root|] == "shared" && l.VersionRoot()[|l.root|] == "releases";
    assert l.Current()[|l.root|] == "current";
    assert Within(l.Directories()[2], l.Meta());
    assert AboveOneOf(l.Directories(), l.Meta());
    assert Lookup(u, l.Meta()) == Expected(t, l, l.Meta());
  }

  lemma LastOfAppended(records: seq<HistoryRecord>, last: HistoryRecord)
    ensures last.action == Action.Cutover ==> LastCutover(records + [last]) == Some(last)
    ensures last.action == Action.Rollback ==> LastCutover(records + [last]) == LastCutover(records)
  {
    assert (records + [last])[..|records|] == records;
  }

  /** History, apply manifest and `current` agree after a cutover's bookkeeping. */
  lemma BookkeepingAgrees(u: Tree, s: Site, version: string, past: seq<HistoryRecord>, active: Option<string>)
    requires IsActive(u, s, version) && Linked(past)
    requires past != [] ==> active == Some(past[|past| - 1].version)
    requires active.Some? ==> s.Releases() + [active.value] in u
    ensures var candidate := if active.Some? then Some(s.Releases() + [active.value]) else None;
      var record := HistoryRecord(Action.Cutover, version, active);
      var after := WithHistory(u[s.ApplyFile() := File(ApplyManifest(version, candidate))], s, past + [record]);
      && CurrentResolves(after, s) && CandidateIsThere(after, s) && HistoryAgrees(after, s)
      && IsActive(after, s, version) && ReadHistory(after, s) == past + [record]
  {
    var candidate := if active.Some? then Some(s.Releases() + [active.value]) else None;
    var record := HistoryRecord(Action.Cutover, version, active);
    var written := u[s.ApplyFile() := File(ApplyManifest(version, candidate))];
    var after := WithHistory(written, s, past + [record]);
    ReadsAfterWrites(u, s, past + [record], version, candidate);
    ReadsAfterWrites(written, s, past + [record], version, candidate);
    LinkedGrows(past, record);
    LastOfAppended(past, record);
    ActiveSurvivesBookkeeping(u, after, s, version);
    if active.Some? {
      BookkeepingIsNoVersion(s, active.value);
    }
  }

  /** The disk after the steps and the bookkeeping of a cutover. */
  function AfterCutover(u: Tree, s: Site, version: string, candidate: Option<Path>, records: seq<HistoryRecord>): Tree {
    WithHistory(u[s.ApplyFile() := File(ApplyManifest(version, candidate))], s, records)
  }

  lemma CutoverTree(t: Tree, s: Site, version: string)
    requires Sound(t, s) && SourcesWellShaped(t, s, version)
    requires PromotionStatePresent(t, s) && SourcesPresent(t, s.LayoutOf(version))
    ensures Runnable(Plan(s.LayoutOf(version)))
    ensures var u := RunSteps(t, Plan(s.LayoutOf(version))).tree;
      var (candidate, active) := ResolveCurrent(t, s);
      var after := AfterCutover(u, s, version, candidate,
                                ReadHistory(t, s) + [HistoryRecord(Action.Cutover, version, active)]);
      && ApplyCutover(t, s, version, false) == Outcome(after, None)
      && WellShaped(after, s)
  {
    StepsAfterSuccess(t, s, version);
    var (candidate, active) := ResolveCurrent(t, s);
    WriteManifestsEffect(RunSteps(t, Plan(s.LayoutOf(version))).tree, s, Some(ApplyManifest(version, candidate)),
                         ReadHistory(t, s) + [HistoryRecord(Action.Cutover, version, active)]);
  }

  lemma ActiveVersionIs(t: Tree, s: Site, v: string)
    requires Sound(t, s) && IsActive(t, s, v)
    ensures ActiveVersion(t, s) == Some(v)
  {
    ResolveActive(t, s, v);
  }

  lemma LastOnRecordIsActive(t: Tree, s: Site)
    requires Sound(t, s) && ReadHistory(t, s) != []
    ensures IsActive(t, s, ReadHistory(t, s)[|ReadHistory(t, s)| - 1].version)
  {
    assert HistoryAgrees(t, s);
  }

  /** What resolves is the directory of the active version, and it is there. */
  lemma ActiveIsThere(t: Tree, s: Site)
    requires Sound(t, s)
    ensures var active := ActiveVersion(t, s);
      && (active.Some? ==> s.Releases() + [active.value] in t)
      && ResolveCurrent(t, s).0 == if active.Some? then Some(s.Releases() + [active.value]) else None
  {
    ActiveVersionOf(t, s);
  }

  lemma ActiveIsLastOnRecord(t: Tree, s: Site)
    requires Sound(t, s) && ReadHistory(t, s) != []
    ensures ActiveVersion(t, s) == Some(ReadHistory(t, s)[|ReadHistory(t, s)| - 1].version)
  {
    LastOnRecordIsActive(t, s);
    ActiveVersionIs(t, s, ReadHistory(t, s)[|ReadHistory(t, s)| - 1].version);
  }

  /** A successful cutover activates its version and records the one that was active. */
  lemma CutoverSucceeds(t: Tree, s: Site, version: string)
    requires Sound(t, s) && SourcesWellShaped(t, s, version)
    requires PromotionStatePresent(t, s) && SourcesPresent(t, s.LayoutOf(version))
    ensures var done := ApplyCutover(t, s, version, false);
      && done.error == None && Sound(done.tree, s) && IsActive(done.tree, s, version)
      && ReadHistory(done.tree, s) ==
           ReadHistory(t, s) + [HistoryRecord(Action.Cutover, version, ActiveVersion(t, s))]
  {
    StepsAfterSuccess(t, s, version);
    ActiveIsThere(t, s);
    if ReadHistory(t, s) != [] {
      ActiveIsLastOnRecord(t, s);
    }
    CutoverTree(t, s, version);
    BookkeepingAgrees(RunSteps(t, Plan(s.LayoutOf(version))).tree, s, version, ReadHistory(t, s), ActiveVersion(t, s));
  }

  // ---------------------------------------------------------------------------------------------------------------
  // A cutover and a rollback, path by path
  // ---------------------------------------------------------------------------------------------------------------

  function RecordsIn(node: Option<Node>): seq<HistoryRecord> {
    match node
    case Some(File(History(records))) => records
    case _ => []
  }

  function TargetIn(node: Option<Node>): Option<Path> {
    match node
    case Some(Link(to)) => Some(to)
    case _ => None
  }

  /** The installation under `root` after a cutover from the promotion under `from`. */
  ghost predicate IsInstalled(t: Tree, u: Tree, root: Path, from: Path, version: string) {
    && HasDirectories(u, root)
    && Lookup(u, root + ["current"]) == Some(Link(root + ["releases", version]))
    && HasVersion(t, u, root, version, from + ["releases", version])
    && (forall name :: name in {"promotion.json", "deploy.json", "rollback.json", "handoff.json"} ==>
          Lookup(u, root + ["shared", "meta", name]) == Lookup(t, from + ["shared", "meta", name]))
  }

  /** The bookkeeping of a cutover: what was active is the rollback candidate and the record's previous version. */
  ghost predicate IsBooked(t: Tree, u: Tree, root: Path, version: string) {
    var candidate := TargetIn(Lookup(t, root + ["current"]));
    var previous := if candidate.None? then None else Some(Base(candidate.value));
    var history := root + ["shared", "meta", "cutover-history.json"];
    && Lookup(u, root + ["shared", "meta", "cutover-apply.json"]) == Some(File(ApplyManifest(version, candidate)))
    && Lookup(u, history) ==
         Some(File(History(RecordsIn(Lookup(t, history)) + [HistoryRecord(Action.Cutover, version, previous)])))
  }

  /** What a successful cutover leaves, with every path written out. */
  lemma CutoverByPath(t: Tree, s: Site, version: string)
    requires Sound(t, s) && SourcesWellShaped(t, s, version)
    requires PromotionStatePresent(t, s) && SourcesPresent(t, s.LayoutOf(version))
    ensures var root := s.workspace
        + [".tmp", "control-release-root-cutover-target", s.targetId, "opt", "simplehostman", "release"];
      var from := s.workspace
        + [".tmp", "control-release-root-promotion", s.targetId, "opt", "simplehostman", "release"];
      var u := ApplyCutover(t, s, version, false).tree;
      IsInstalled(t, u, root, from, version) && IsBooked(t, u, root, version)
  {
    var l := s.LayoutOf(version);
    RootsByName(s);
    LayoutIsReady(t, s, version);
    StepsSucceedIffSourcesArePresent(t, s, version);
    PlanEffect(t, l);
    CutoverTree(t, s, version);
    var u := RunSteps(t, Plan(l)).tree;
    StepsByPath(t, u, s, version);
    var (candidate, active) := ResolveCurrent(t, s);
    var records := ReadHistory(t, s) + [HistoryRecord(Action.Cutover, version, active)];
    BookkeepingKeepsInstallation(t, u, s, version, candidate, records);
    BookkeepingByPath(t, u, s, version, candidate, active);
  }

  lemma RootsByName(s: Site)
    ensures s.ReleaseRoot() ==
      s.workspace + [".tmp", "control-release-root-cutover-target", s.targetId, "opt", "simplehostman", "release"]
    ensures s.PromotionRoot() ==
      s.workspace + [".tmp", "control-release-root-promotion", s.targetId, "opt", "simplehostman", "release"]
  {
  }

  lemma ManifestsByPath(t: Tree, u: Tree, s: Site, version: string)
    requires HasManifests(t, u, s.LayoutOf(version))
    ensures forall name :: name in {"promotion.json", "deploy.json", "rollback.json", "handoff.json"} ==>
      Lookup(u, s.ReleaseRoot() + ["shared", "meta", name]) == Lookup(t, s.PromotionRoot() + ["shared", "meta", name])
  {
    var l := s.LayoutOf(version);
    assert l.promotion == s.PromotionRoot() + ["shared", "meta", "promotion.json"];
    assert l.deploy == s.PromotionRoot() + ["shared", "meta", "deploy.json"];
    assert l.rollback == s.PromotionRoot() + ["shared", "meta", "rollback.json"];
    assert l.handoff == s.PromotionRoot() + ["shared", "meta", "handoff.json"];
  }

  lemma StepsByPath(t: Tree, u: Tree, s: Site, version: string)
    requires Installed(t, u, s.LayoutOf(version))
    ensures IsInstalled(t, u, s.ReleaseRoot(), s.PromotionRoot(), version)
  {
    var l := s.LayoutOf(version);
    assert HasManifests(t, u, l) by {
      ManifestsByName(t, u, l);
    }
    ManifestsByPath(t, u, s, version);
    PiecesAreInstalled(t, u, l);
  }

  lemma PiecesAreInstalled(t: Tree, u: Tree, l: Layout)
    requires Installed(t, u, l)
    ensures HasDirectories(u, l.root) && HasVersion(t, u, l.root, l.version, l.tree)
    ensures Lookup(u, l.root + ["current"]) == Some(Link(l.root + ["releases", l.version]))
  {
    DirectoriesByName(t, u, l);
    VersionsByName(t, u, l);
    LinkByName(t, u, l);
  }

  /** The two bookkeeping files are none of the paths of the installation. */
  lemma BookkeepingIsApart(s: Site)
    ensures s.ApplyFile() == s.ReleaseRoot() + ["shared", "meta", "cutover-apply.json"]
    ensures s.HistoryFile() == s.ReleaseRoot() + ["shared", "meta", "cutover-history.json"]
    ensures forall v: string, below: Path ::
      s.ReleaseRoot() + ["releases", v] + below != s.ApplyFile()
      && s.ReleaseRoot() + ["releases", v] + below != s.HistoryFile()
    ensures forall name :: name in {"promotion.json", "deploy.json", "rollback.json", "handoff.json"} ==>
      s.ReleaseRoot() + ["shared", "meta", name] != s.ApplyFile()
      && s.ReleaseRoot() + ["shared", "meta", name] != s.HistoryFile()
    ensures s.ApplyFile() != s.HistoryFile()
  {
    var n := |s.ReleaseRoot()|;
    assert s.ApplyFile()[n] == "shared" && s.HistoryFile()[n] == "shared";
    assert forall v: string, below: Path :: (s.ReleaseRoot() + ["releases", v] + below)[n] == "releases";
    assert "promotion.json"[0] == 'p' && "deploy.json"[0] == 'd' && "rollback.json"[0] == 'r';
    assert "handoff.json"[0] == 'h' && "cutover-apply.json"[0] == 'c' && "cutover-history.json"[0] == 'c';
    assert forall name: string :: (s.ReleaseRoot() + ["shared", "meta", name])[n + 2] == name;
    BookkeepingFilesDiffer(s);
  }

  /** Two disks that differ in the bookkeeping files only. */
  ghost predicate SameButBookkeeping(u: Tree, after: Tree, s: Site) {
    forall p :: p != s.ApplyFile() && p != s.HistoryFile() ==> Lookup(after, p) == Lookup(u, p)
  }

  lemma BookkeepingKeepsVersion(t: Tree, u: Tree, after: Tree, s: Site, version: string, source: Path)
    requires HasVersion(t, u, s.ReleaseRoot(), version, source) && SameButBookkeeping(u, after, s)
    ensures HasVersion(t, after, s.ReleaseRoot(), version, source)
  {
    var root := s.ReleaseRoot();
    BookkeepingIsApart(s);
    forall v: string, below: Path ensures HasBelow(t, after, root, version, source, v, below) {
      var p := root + ["releases", v] + below;
      assert HasBelow(t, u, root, version, source, v, below);
      assert p[|root|] == "releases" && s.ApplyFile()[|root|] == "shared" && s.HistoryFile()[|root|] == "shared";
      assert Lookup(after, p) == Lookup(u, p);
    }
  }

  lemma BookkeepingKeepsPlaces(u: Tree, after: Tree, s: Site)
    requires HasDirectories(u, s.ReleaseRoot()) && SameButBookkeeping(u, after, s)
    ensures HasDirectories(after, s.ReleaseRoot())
    ensures Lookup(after, s.ReleaseRoot() + ["current"]) == Lookup(u, s.ReleaseRoot() + ["current"])
    ensures forall name :: name in {"promotion.json", "deploy.json", "rollback.json", "handoff.json"} ==>
      Lookup(after, s.ReleaseRoot() + ["shared", "meta", name])
        == Lookup(u, s.ReleaseRoot() + ["shared", "meta", name])
  {
    BookkeepingIsApart(s);
    assert |s.ApplyFile()| == |s.ReleaseRoot()| + 3 && |s.HistoryFile()| == |s.ReleaseRoot()| + 3;
  }

  lemma BookkeepingKeepsInstallation(t: Tree, u: Tree, s: Site, version: string, candidate: Option<Path>,
        records: seq<HistoryRecord>)
    requires IsInstalled(t, u, s.ReleaseRoot(), s.PromotionRoot(), version)
    ensures IsInstalled(t, AfterCutover(u, s, version, candidate, records), s.ReleaseRoot(), s.PromotionRoot(), version)
  {
    var after := AfterCutover(u, s, version, candidate, records);
    assert SameButBookkeeping(u, after, s);
    BookkeepingKeepsVersion(t, u, after, s, version, s.PromotionRoot() + ["releases", version]);
    BookkeepingKeepsPlaces(u, after, s);
  }

  lemma BookkeepingByPath(t: Tree, u: Tree, s: Site, version: string, candidate: Option<Path>, active: Option<string>)
    requires Sound(t, s) && (candidate, active) == ResolveCurrent(t, s)
    ensures IsBooked(t, AfterCutover(u, s, version, candidate,
                                     ReadHistory(t, s) + [HistoryRecord(Action.Cutover, version, active)]),
                     s.ReleaseRoot(), version)
  {
    BookkeepingIsApart(s);
    ActiveVersionOf(t, s);
    assert s.ReleaseRoot() + ["current"] == s.Current();
    if s.Current() in t {
      var v :| IsActive(t, s, v) && ResolveCurrent(t, s) == (Some(s.Releases() + [v]), Some(v));
      assert Base(s.Releases() + [v]) == v;
    }
  }

  /** No file there, or one that is not JSON. */
  ghost predicate CannotBeRead(t: Tree, p: Path) {
    match Lookup(t, p)
    case Some(File(content)) => content.Text?
    case _ => true
  }

  /** If one of the promotion's three state files cannot be read, nothing but the error comes of a cutover. */
  lemma CutoverNeedsPromotion(t: Tree, s: Site, version: string, name: string)
    requires name in {"promotion.json", "deploy.json", "apply.json"}
    requires var from := s.workspace
        + [".tmp", "control-release-root-promotion", s.targetId, "opt", "simplehostman", "release"];
      CannotBeRead(t, from + ["shared", "meta", name])
    ensures ApplyCutover(t, s, version, false) == Outcome(t, Some(MissingState))
  {
    RootsByName(s);
  }

  /** Cleaning takes away the directory of the target, and then the cutover is one without cleaning. */
  lemma CleaningComesFirst(t: Tree, s: Site, version: string)
    ensures ApplyCutover(t, s, version, true) ==
      ApplyCutover(Remove(t, s.workspace + [".tmp", "control-release-root-cutover-target", s.targetId]), s, version,
                   false)
  {
  }

  /** Which version a link `current` to a directory stands for: the one whose directory it is, otherwise none. */
  lemma CurrentByTarget(t: Tree, s: Site, to: Path)
    requires Lookup(t, s.ReleaseRoot() + ["current"]) == Some(Link(to)) && Lookup(t, to) == Some(Dir)
    ensures forall version :: to == s.ReleaseRoot() + ["releases", version] ==>
      ResolveCurrent(t, s) == (Some(to), Some(version))
    ensures !Within(to, s.ReleaseRoot() + ["releases"]) || to == s.ReleaseRoot() + ["releases"] ==>
      ResolveCurrent(t, s) == (Some(to), None)
  {
  }

  /** What a rollback leaves, with every path written out. */
  lemma RollbackByPath(t: Tree, s: Site, version: string, back: string)
    requires Sound(t, s)
    requires var root := s.workspace
        + [".tmp", "control-release-root-cutover-target", s.targetId, "opt", "simplehostman", "release"];
      Lookup(t, root + ["shared", "meta", "cutover-apply.json"]) ==
        Some(File(ApplyManifest(version, Some(root + ["releases", back]))))
    ensures var root := s.workspace
        + [".tmp", "control-release-root-cutover-target", s.targetId, "opt", "simplehostman", "release"];
      var history := root + ["shared", "meta", "cutover-history.json"];
      var done := ApplyRollback(t, s);
      && done.error == None
      && Lookup(done.tree, root + ["current"]) == Some(Link(root + ["releases", back]))
      && Lookup(done.tree, history) ==
           Some(File(History(RecordsIn(Lookup(t, history)) + [HistoryRecord(Action.Rollback, back, Some(version))])))
      && forall p :: p != root + ["current"] && p != history && !Within(p, root + ["current"]) ==>
           Lookup(done.tree, p) == Lookup(t, p)
  {
    RootsByName(s);
    BookkeepingIsApart(s);
    CandidateByPath(t, s, version, back);
    RollbackTree(t, s, back);
    RelinkingByPath(t, s, back, ReadHistory(t, s) + [HistoryRecord(Action.Rollback, back, Some(version))]);
  }

  lemma CandidateByPath(t: Tree, s: Site, version: string, back: string)
    requires Lookup(t, s.ApplyFile()) == Some(File(ApplyManifest(version, Some(s.ReleaseRoot() + ["releases", back]))))
    ensures ReadApply(t, s) == Some((version, Some(s.Releases() + [back])))
  {
    assert s.ReleaseRoot() + ["releases", back] == s.Releases() + [back];
  }

  lemma RelinkingByPath(t: Tree, s: Site, back: string, records: seq<HistoryRecord>)
    ensures var after := WithHistory(Remove(t, s.Current())[s.Current() := Link(s.Releases() + [back])], s, records);
      && Lookup(after, s.ReleaseRoot() + ["current"]) == Some(Link(s.ReleaseRoot() + ["releases", back]))
      && Lookup(after, s.HistoryFile()) == Some(File(History(records)))
      && forall p :: p != s.Current() && p != s.HistoryFile() && !Within(p, s.Current()) ==>
           Lookup(after, p) == Lookup(t, p)
  {
    assert s.ReleaseRoot() + ["releases", back] == s.Releases() + [back];
    assert s.ReleaseRoot() + ["current"] == s.Current();
    BookkeepingIsNoVersion(s, back);
  }

  lemma BookkeepingIsNoVersion(s: Site, v: string)
    ensures s.Releases() + [v] != s.ApplyFile() && s.Releases() + [v] != s.HistoryFile()
    ensures s.Current() != s.ApplyFile() && s.Current() != s.HistoryFile()
  {
    assert |s.ApplyFile()| == |s.ReleaseRoot()| + 3 && |s.HistoryFile()| == |s.ReleaseRoot()| + 3;
  }

  lemma ActiveSurvivesBookkeeping(u: Tree, after: Tree, s: Site, v: string)
    requires forall p :: p != s.ApplyFile() && p != s.HistoryFile() ==> Lookup(after, p) == Lookup(u, p)
    ensures IsActive(after, s, v) <==> IsActive(u, s, v)
  {
    BookkeepingIsNoVersion(s, v);
    assert Lookup(after, s.Current()) == Lookup(u, s.Current());
    assert Lookup(after, s.Releases() + [v]) == Lookup(u, s.Releases() + [v]);
  }

  /** A failed cutover that takes away a version somebody still points at. */
  ghost predicate TakesAway(t: Tree, s: Site, version: string) {
    && PromotionStatePresent(t, s)
    && s.LayoutOf(version).tree !in t
    && (ActiveVersion(t, s) == Some(version) || Candidate(t, s) == Some(s.Releases() + [version]))
  }

  /** A failed cutover keeps history and `current`; it breaks the invariant exactly when it takes away. */
  lemma CutoverFails(t: Tree, s: Site, version: string)
    requires Sound(t, s) && SourcesWellShaped(t, s, version)
    requires !PromotionStatePresent(t, s) || !SourcesPresent(t, s.LayoutOf(version))
    ensures var done := ApplyCutover(t, s, version, false);
      && done.error != None
      && ReadHistory(done.tree, s) == ReadHistory(t, s)
      && Lookup(done.tree, s.Current()) == Lookup(t, s.Current())
      && (Sound(done.tree, s) <==> !TakesAway(t, s, version))
  {
    if PromotionStatePresent(t, s) {
      var l := s.LayoutOf(version);
      StepsSucceedIffSourcesArePresent(t, s, version);
      StepsAtVersionAndCurrent(t, s, version);
      StepsKeepShape(t, s, version);
      StepsKeepRest(t, s, version);
      ActiveVersionOf(t, s);
      var u := RunSteps(t, Plan(l)).tree;
      CurrentAfterFailure(t, u, s, version);
      CandidateAfterFailure(t, u, s, version);
      HistoryAfterFailure(t, u, s, version);
    }
  }

  lemma CurrentAfterFailure(t: Tree, u: Tree, s: Site, version: string)
    requires KeepsRest(t, u, s, version) && Lookup(u, s.Current()) == Lookup(t, s.Current())
    requires s.Current() in t ==> ActiveVersion(t, s).Some?
    requires ActiveVersion(t, s).Some? ==> IsActive(t, s, ActiveVersion(t, s).value)
    ensures CurrentResolves(u, s) <==> (ActiveVersion(t, s) == Some(version) ==> s.Releases() + [version] in u)
    ensures forall v :: IsActive(t, s, v) && v != version ==> IsActive(u, s, v)
  {
    forall v | IsActive(t, s, v) && v != version ensures IsActive(u, s, v) {
      assert Lookup(u, s.Releases() + [v]) == Lookup(t, s.Releases() + [v]);
    }
    if ActiveVersion(t, s).Some? {
      var v := ActiveVersion(t, s).value;
      if s.Releases() + [v] in u {
        assert IsActive(u, s, v);
      }
      forall w | IsActive(u, s, w) ensures w == v {
        assert (s.Releases() + [w])[|s.Releases()|] == w && (s.Releases() + [v])[|s.Releases()|] == v;
      }
    }
  }

  lemma CandidateAfterFailure(t: Tree, u: Tree, s: Site, version: string)
    requires KeepsRest(t, u, s, version) && HistoryAgrees(t, s) && CandidateIsThere(t, s)
    ensures ReadApply(u, s) == ReadApply(t, s)
    ensures CandidateIsThere(u, s) <==>
      (Candidate(t, s) == Some(s.Releases() + [version]) ==> s.Releases() + [version] in u)
  {
    if Candidate(t, s).Some? {
      var w: string :| Candidate(t, s).value == s.Releases() + [w];
      if w != version {
        assert (s.Releases() + [w])[|s.Releases()|] == w && (s.Releases() + [version])[|s.Releases()|] == version;
        assert Lookup(u, s.Releases() + [w]) == Lookup(t, s.Releases() + [w]);
      }
    }
  }

  lemma HistoryAfterFailure(t: Tree, u: Tree, s: Site, version: string)
    requires KeepsRest(t, u, s, version) && HistoryAgrees(t, s)
    requires Lookup(u, s.Current()) == Lookup(t, s.Current())
    ensures ReadHistory(u, s) == ReadHistory(t, s)
    ensures (forall v :: IsActive(t, s, v) ==> IsActive(u, s, v)) ==> HistoryAgrees(u, s)
  {
  }

  // ---------------------------------------------------------------------------------------------------------------
  // Rollback
  // ---------------------------------------------------------------------------------------------------------------

  /** Without a recorded candidate a rollback throws before it changes anything. */
  lemma RollbackWithoutCandidate(t: Tree, s: Site)
    requires Candidate(t, s) == None
    ensures ApplyRollback(t, s).error.Some? && ApplyRollback(t, s).tree == t
  {
  }

  lemma CurrentIsApart(s: Site)
    ensures !Within(s.Meta(), s.Current()) && !Within(s.ReleaseRoot(), s.Current())
    ensures forall v: string :: !Within(s.Releases() + [v], s.Current())
    ensures forall name: string :: !Within(s.Meta() + [name], s.Current())
    ensures forall i :: 0 <= i < 6 ==> s.Current() != s.LayoutOf("").Directories()[i]
    ensures forall i :: 0 <= i < 6 ==> !Within(s.LayoutOf("").Directories()[i], s.Current())
  {
    var n := |s.ReleaseRoot()|;
    assert s.Current()[n] == "current" && s.Meta()[n] == "shared";
    assert forall v: string :: (s.Releases() + [v])[n] == "releases";
    assert forall name: string :: (s.Meta() + [name])[n] == "shared";
    PlacesAreApart(s.LayoutOf(""));
  }

  lemma CurrentIsRelinked(t: Tree, s: Site, to: Path)
    requires WellShaped(t, s) && s.Meta() in t
    ensures var u := Remove(t, s.Current())[s.Current() := Link(to)];
      MakeLink(Remove(t, s.Current()), to, s.Current()) == Outcome(u, None) && WellFormed(u) && s.Meta() in u
  {
    assert Parent(s.Current()) == s.ReleaseRoot();
    AncestorsAreDirectories(t, s.Meta(), s.ReleaseRoot());
    CurrentIsApart(s);
    RemoveKeepsWellFormed(t, s.Current());
    ReplaceKeepsWellFormed(Remove(t, s.Current()), s.Current(), Link(to));
  }

  lemma RelinkKeepsShape(t: Tree, s: Site, to: Path)
    requires WellShaped(t, s) && s.Meta() in t
    ensures var u := Remove(t, s.Current())[s.Current() := Link(to)];
      && MakeLink(Remove(t, s.Current()), to, s.Current()) == Outcome(u, None)
      && WellShaped(u, s) && s.Meta() in u
  {
    var l, u := s.LayoutOf(""), Remove(t, s.Current())[s.Current() := Link(to)];
    CurrentIsRelinked(t, s, to);
    CurrentIsApart(s);
    forall i | 0 <= i < 6 ensures Clear(u, l.Directories()[i]) {
      assert Clear(t, l.Directories()[i]) && !Within(l.Directories()[i], s.Current());
    }
  }

  lemma ApplyFileNeedsMeta(t: Tree, s: Site)
    requires WellShaped(t, s) && s.ApplyFile() in t
    ensures s.Meta() in t
  {
    assert Parent(s.ApplyFile()) == s.Meta();
  }

  /** The tree of a rollback, whatever the state of `current`. */
  lemma RollbackTree(t: Tree, s: Site, back: string)
    requires WellShaped(t, s) && Candidate(t, s) == Some(s.Releases() + [back])
    ensures var u := Remove(t, s.Current())[s.Current() := Link(s.Releases() + [back])];
      var record := HistoryRecord(Action.Rollback, back, Some(ReadApply(t, s).value.0));
      && ApplyRollback(t, s) == Outcome(WithHistory(u, s, ReadHistory(t, s) + [record]), None)
      && WellShaped(WithHistory(u, s, ReadHistory(t, s) + [record]), s)
  {
    var to := s.Releases() + [back];
    assert Base(to) == back;
    ApplyFileNeedsMeta(t, s);
    MetaIsReady(t, s);
    RelinkKeepsShape(t, s, to);
    CurrentIsApart(s);
    var u := Remove(t, s.Current())[s.Current() := Link(to)];
    HistorySurvivesRelinking(t, s, to);
    WriteManifestsEffect(u, s, None,
                         ReadHistory(t, s) + [HistoryRecord(Action.Rollback, back, Some(ReadApply(t, s).value.0))]);
  }

  lemma HistorySurvivesRelinking(t: Tree, s: Site, to: Path)
    ensures ReadHistory(Remove(t, s.Current())[s.Current() := Link(to)], s) == ReadHistory(t, s)
  {
    CurrentIsApart(s);
    assert s.HistoryFile() == s.Meta() + ["cutover-history.json"];
  }

  /** A rollback returns to the version that was active before the last cutover on record, and says so. */
  lemma RollbackSucceeds(t: Tree, s: Site)
    requires Sound(t, s) && Candidate(t, s).Some?
    ensures var done := ApplyRollback(t, s);
      var undone := LastCutover(ReadHistory(t, s));
      && done.error == None && Sound(done.tree, s)
      && undone.Some? && undone.value.previousVersion.Some?
      && IsActive(done.tree, s, undone.value.previousVersion.value)
      && ReadHistory(done.tree, s) ==
           ReadHistory(t, s)
           + [HistoryRecord(Action.Rollback, undone.value.previousVersion.value, Some(undone.value.version))]
  {
    var past := ReadHistory(t, s);
    var undone := LastCutover(past).value;
    var back := undone.previousVersion.value;
    var record := HistoryRecord(Action.Rollback, back, Some(undone.version));
    RollbackTree(t, s, back);
    RelinkedBookkeepingAgrees(t, Remove(t, s.Current())[s.Current() := Link(s.Releases() + [back])], s, record);
  }

  /** The record of a rollback names the version of the record before it exactly when that is the last cutover's. */
  lemma RollbackNamesItsPredecessorExactly(t: Tree, s: Site)
    requires Sound(t, s) && Candidate(t, s).Some?
    ensures var past := ReadHistory(t, s);
      var now := ReadHistory(ApplyRollback(t, s).tree, s);
      && past != [] && now != [] && LastCutover(past).Some?
      && (now[|now| - 1].previousVersion == Some(past[|past| - 1].version) <==>
            past[|past| - 1].version == LastCutover(past).value.version)
  {
    RollbackSucceeds(t, s);
  }

  /**
   * Two rollbacks in a row write the same record twice. Unless the cutover they undo was a re-cut, the second record
   * names a version that was not active before it.
   */
  lemma SecondRollbackRepeatsTheFirst(t: Tree, s: Site)
    requires Sound(t, s) && Candidate(t, s).Some?
    ensures var undone := LastCutover(ReadHistory(t, s)).value;
      var record := HistoryRecord(Action.Rollback, undone.previousVersion.value, Some(undone.version));
      var once := ApplyRollback(t, s).tree;
      var twice := ApplyRollback(once, s).tree;
      && ReadHistory(twice, s) == ReadHistory(t, s) + [record] + [record]
      && (record.previousVersion == Some(record.version) <==> undone.previousVersion == Some(undone.version))
      && ActiveVersion(once, s) == Some(record.version)
  {
    RollbackSucceeds(t, s);
    var once := ApplyRollback(t, s).tree;
    var past := ReadHistory(t, s);
    LastOfAppended(past, ReadHistory(once, s)[|past|]);
    assert HistoryAgrees(once, s);
    RollbackSucceeds(once, s);
    ResolveActive(once, s, LastCutover(past).value.previousVersion.value);
  }

  lemma RelinkedBookkeepingAgrees(t: Tree, u: Tree, s: Site, record: HistoryRecord)
    requires HistoryAgrees(t, s) && CandidateIsThere(t, s) && Candidate(t, s).Some?
    requires LastCutover(ReadHistory(t, s)).Some?
    requires var undone := LastCutover(ReadHistory(t, s)).value;
      && undone.previousVersion.Some?
      && record == HistoryRecord(Action.Rollback, undone.previousVersion.value, Some(undone.version))
    requires u == Remove(t, s.Current())[s.Current() := Link(s.Releases() + [record.version])]
    ensures ReadHistory(u, s) == ReadHistory(t, s)
    ensures var after := WithHistory(u, s, ReadHistory(t, s) + [record]);
      && CurrentResolves(after, s) && CandidateIsThere(after, s) && HistoryAgrees(after, s)
      && IsActive(after, s, record.version) && ReadHistory(after, s) == ReadHistory(t, s) + [record]
  {
    var past, n := ReadHistory(t, s), |s.ReleaseRoot()|;
    var to := s.Releases() + [record.version];
    var after := WithHistory(u, s, past + [record]);
    assert s.Current()[n] == "current" && s.ApplyFile()[n] == "shared" && s.HistoryFile()[n] == "shared";
    assert to[n] == "releases";
    ReadsAfterWrites(u, s, past + [record], record.version, None);
    assert (past + [record])[..|past|] == past;
    LinkedGrows(past, record);
    LastOfAppended(past, record);
    BookkeepingIsNoVersion(s, record.version);
    assert IsActive(after, s, record.version);
  }

  // ---------------------------------------------------------------------------------------------------------------
  // Whole runs
  // ---------------------------------------------------------------------------------------------------------------

  datatype Event = DoCutover(version: string, clean: bool) | DoRollback | DoElsewhere

  /** The rest of the workspace may change in any way between operations. */
  ghost predicate ChangesElsewhere(t: Tree, u: Tree, s: Site) {
    && WellFormed(u)
    && forall p :: Within(p, s.TargetRoot()) || Within(s.TargetRoot(), p) ==> Lookup(u, p) == Lookup(t, p)
  }

  /** The one case that breaks the invariant: a failing, unclean cutover of a version that is still pointed at. */
  ghost predicate Harmless(t: Tree, s: Site, event: Event) {
    event.DoCutover? ==> SourcesWellShaped(t, s, event.version) && (event.clean || !TakesAway(t, s, event.version))
  }

  ghost predicate Performs(t: Tree, u: Tree, s: Site, event: Event) {
    match event
    case DoCutover(version, clean) => u == ApplyCutover(t, s, version, clean).tree
    case DoRollback => u == ApplyRollback(t, s).tree
    case DoElsewhere => ChangesElsewhere(t, u, s)
  }

  lemma CutoverKeepsSound(t: Tree, s: Site, version: string, clean: bool)
    requires Sound(t, s) && SourcesWellShaped(t, s, version)
    ensures Sound(ApplyCutover(t, s, version, clean).tree, s) <==> clean || !TakesAway(t, s, version)
  {
    if clean {
      var start := Remove(t, s.TargetRoot());
      CleanRootIsSound(t, s);
      SourcesSurviveCleaning(t, s, version);
      assert ApplyCutover(t, s, version, true) == ApplyCutover(start, s, version, false);
      ActiveVersionOf(start, s);
      OneCutoverKeepsSound(start, s, version);
    } else {
      OneCutoverKeepsSound(t, s, version);
    }
  }

  lemma OneCutoverKeepsSound(t: Tree, s: Site, version: string)
    requires Sound(t, s) && SourcesWellShaped(t, s, version)
    ensures Sound(ApplyCutover(t, s, version, false).tree, s) <==> !TakesAway(t, s, version)
  {
    if PromotionStatePresent(t, s) && SourcesPresent(t, s.LayoutOf(version)) {
      CutoverSucceeds(t, s, version);
    } else {
      CutoverFails(t, s, version);
    }
  }

  lemma SourcesSurviveCleaning(t: Tree, s: Site, version: string)
    requires SourcesWellShaped(t, s, version)
    ensures SourcesWellShaped(Remove(t, s.TargetRoot()), s, version)
  {
  }

  lemma ElsewhereKeepsShape(t: Tree, u: Tree, s: Site)
    requires WellShaped(t, s) && ChangesElsewhere(t, u, s)
    ensures WellShaped(u, s)
  {
    forall v: string | s.Releases() + [v] in u ensures u[s.Releases() + [v]] == Dir {
      SameInside(t, u, s, s.Releases() + [v]);
    }
    forall name: string | s.Meta() + [name] in u ensures u[s.Meta() + [name]].File? {
      SameInside(t, u, s, s.Meta() + [name]);
    }
    forall i | 0 <= i < 6 ensures Clear(u, s.LayoutOf("").Directories()[i]) {
      assert Clear(t, s.LayoutOf("").Directories()[i]);
      ElsewhereKeepsClear(t, u, s, i);
    }
  }

  lemma ElsewhereKeepsSound(t: Tree, u: Tree, s: Site)
    requires Sound(t, s) && ChangesElsewhere(t, u, s)
    ensures Sound(u, s)
  {
    ElsewhereKeepsShape(t, u, s);
    SameInside(t, u, s, s.Current());
    SameInside(t, u, s, s.ApplyFile());
    SameInside(t, u, s, s.HistoryFile());
    forall v: string ensures IsActive(u, s, v) <==> IsActive(t, s, v) {
      SameInside(t, u, s, s.Releases() + [v]);
    }
    CandidateIsAVersion(t, s);
    if Candidate(t, s).Some? {
      SameInside(t, u, s, Candidate(t, s).value);
    }
  }

  lemma CandidateIsAVersion(t: Tree, s: Site)
    requires HistoryAgrees(t, s)
    ensures Candidate(t, s).Some? ==> exists w: string :: Candidate(t, s).value == s.Releases() + [w]
  {
  }

  lemma SameInside(t: Tree, u: Tree, s: Site, p: Path)
    requires ChangesElsewhere(t, u, s) && Within(p, s.TargetRoot())
    ensures Lookup(u, p) == Lookup(t, p)
  {
  }

  lemma ElsewhereKeepsClear(t: Tree, u: Tree, s: Site, i: nat)
    requires i < 6 && ChangesElsewhere(t, u, s) && Clear(t, s.LayoutOf("").Directories()[i])
    ensures Clear(u, s.LayoutOf("").Directories()[i])
  {
    var d := s.LayoutOf("").Directories()[i];
    assert Within(d, s.TargetRoot());
    forall q | Within(d, q) && q in u ensures u[q] == Dir {
      assert Within(q, s.TargetRoot()) || Within(s.TargetRoot(), q);
      assert Lookup(u, q) == Lookup(t, q);
    }
  }

  /** One operation keeps the invariant. */
  lemma OperationKeepsSound(t: Tree, u: Tree, s: Site, event: Event)
    requires Sound(t, s) && Harmless(t, s, event) && Performs(t, u, s, event)
    ensures Sound(u, s)
  {
    match event {
      case DoCutover(version, clean) => CutoverKeepsSound(t, s, version, clean);
      case DoRollback =>
        if Candidate(t, s).Some? {
          RollbackSucceeds(t, s);
        } else {
          RollbackWithoutCandidate(t, s);
        }
      case DoElsewhere => ElsewhereKeepsSound(t, u, s);
    }
  }

  ghost predicate PerformsAt(states: seq<Tree>, s: Site, events: seq<Event>, i: nat)
    requires i < |events| && |states| == |events| + 1
  {
    Harmless(states[i], s, events[i]) && Performs(states[i], states[i + 1], s, events[i])
  }

  lemma OperationAtKeepsSound(s: Site, states: seq<Tree>, events: seq<Event>, i: nat)
    requires i < |events| && |states| == |events| + 1
    requires PerformsAt(states, s, events, i) && IsSoundAt(states, s, i)
    ensures IsSoundAt(states, s, i + 1)
  {
    OperationKeepsSound(states[i], states[i + 1], s, events[i]);
  }

  ghost predicate IsSoundAt(states: seq<Tree>, s: Site, i: nat)
    requires i < |states|
  {
    Sound(states[i], s)
  }

  /** The induction behind every theorem on sequences of operations. */
  lemma {:induction false} MarksSpread(marks: seq<bool>, i: nat)
    requires i < |marks| && marks[0]
    requires forall k: nat :: k + 1 < |marks| && marks[k] ==> marks[k + 1]
    ensures marks[i]
  {
    if i > 0 {
      MarksSpread(marks, i - 1);
    }
  }

  lemma SoundnessSpreads(states: seq<Tree>, s: Site, i: nat)
    requires i < |states| && IsSoundAt(states, s, 0)
    requires forall k: nat :: k + 1 < |states| && IsSoundAt(states, s, k) ==> IsSoundAt(states, s, k + 1)
    ensures IsSoundAt(states, s, i)
  {
    ghost var marks := seq(|states|, k requires 0 <= k < |states| => IsSoundAt(states, s, k));
    MarksSpread(marks, i);
  }

  /** Every state between operations is sound, whatever was run. */
  lemma EveryStateIsSound(s: Site, states: seq<Tree>, events: seq<Event>, i: nat)
    requires |states| == |events| + 1 && IsSoundAt(states, s, 0) && i < |states|
    requires forall k: nat :: k < |events| ==> PerformsAt(states, s, events, k)
    ensures IsSoundAt(states, s, i)
  {
    forall k: nat | k + 1 < |states| && IsSoundAt(states, s, k) ensures IsSoundAt(states, s, k + 1) {
      OperationAtKeepsSound(s, states, events, k);
    }
    SoundnessSpreads(states, s, i);
  }

  /** What soundness means to somebody who follows `current`. */
  lemma SoundStateResolves(t: Tree, s: Site)
    requires Sound(t, s)
    ensures s.Current() in t ==> Exists(t, s.Current())
    ensures var records := ReadHistory(t, s);
      records != [] ==>
        && Exists(t, s.Current())
        && RealPath(t, s.Current()) == s.Releases() + [records[|records| - 1].version]
  {
    if s.Current() in t {
      var v :| IsActive(t, s, v);
      assert Exists(t, s.Releases() + [v], 39);
    }
    var records := ReadHistory(t, s);
    if records != [] {
      ResolveActive(t, s, records[|records| - 1].version);
    }
  }

  /** `current` dangles: it links to a version that is gone. */
  ghost predicate IsBroken(t: Tree, s: Site, gone: string) {
    && WellShaped(t, s)
    && Lookup(t, s.Current()) == Some(Link(s.Releases() + [gone])) && s.Releases() + [gone] !in t
  }

  /** A failed re-cut of the active version leaves `current` dangling. */
  lemma FailedRecutBreaks(t: Tree, s: Site, active: string)
    requires Sound(t, s) && IsActive(t, s, active)
    requires SourcesWellShaped(t, s, active) && PromotionStatePresent(t, s)
    requires s.LayoutOf(active).tree !in t
    ensures var broken := ApplyCutover(t, s, active, false);
      broken.error != None && IsBroken(broken.tree, s, active) && !Exists(broken.tree, s.Current())
  {
    StepsSucceedIffSourcesArePresent(t, s, active);
    StepsAtVersionAndCurrent(t, s, active);
    StepsKeepShape(t, s, active);
    var broken := ApplyCutover(t, s, active, false).tree;
    assert !Exists(broken, s.Releases() + [active], 39);
  }

  /** From then on an unclean cutover succeeds exactly when it brings the missing version back. */
  lemma BrokenRootNeedsTheMissingVersion(t: Tree, s: Site, gone: string, version: string)
    requires IsBroken(t, s, gone) && SourcesWellShaped(t, s, version)
    ensures var done := ApplyCutover(t, s, version, false);
      && (done.error == None <==>
            version == gone && PromotionStatePresent(t, s) && SourcesPresent(t, s.LayoutOf(version)))
      && (version != gone ==> IsBroken(done.tree, s, gone))
      && (version != gone && PromotionStatePresent(t, s) && SourcesPresent(t, s.LayoutOf(version)) ==>
            done.error == Some(AlreadyExists))
  {
    if PromotionStatePresent(t, s) {
      var l := s.LayoutOf(version);
      LayoutIsReady(t, s, version);
      PlanEffect(t, l);
      StepsAtVersionAndCurrent(t, s, version);
      StepsKeepShape(t, s, version);
      StepsKeepRest(t, s, version);
      if SourcesPresent(t, l) {
        if version == gone {
          MissingVersionComesBack(t, s, version);
        } else {
          DanglingCurrentBlocks(t, s, gone, version);
        }
      }
      assert version != gone ==>
        Lookup(RunSteps(t, Plan(l)).tree, s.Releases() + [gone]) == Lookup(t, s.Releases() + [gone]);
    }
  }

  lemma MissingVersionComesBack(t: Tree, s: Site, version: string)
    requires IsBroken(t, s, version) && SourcesWellShaped(t, s, version)
    requires PromotionStatePresent(t, s) && SourcesPresent(t, s.LayoutOf(version))
    ensures ApplyCutover(t, s, version, false).error == None
  {
    var l := s.LayoutOf(version);
    LayoutIsReady(t, s, version);
    SitePathsAreApart(s, version);
    PlanEffect(t, l);
    VersionLinksCanBeReplaced(t, l, version);
    var u := RunSteps(t, Plan(l)).tree;
    MetaIsMade(t, u, l);
    StepsKeepShape(t, s, version);
    var (candidate, active) := ResolveCurrent(t, s);
    WriteManifestsEffect(u, s, Some(ApplyManifest(version, candidate)),
                         ReadHistory(u, s) + [HistoryRecord(Action.Cutover, version, active)]);
  }

  /** An unclean cutover of another version, or a change elsewhere. */
  ghost predicate IsOtherWorkAt(states: seq<Tree>, s: Site, events: seq<Event>, gone: string, i: nat)
    requires i < |events| && |states| == |events| + 1
  {
    && Performs(states[i], states[i + 1], s, events[i])
    && match events[i]
       case DoCutover(version, clean) => !clean && version != gone && SourcesWellShaped(states[i], s, version)
       case DoRollback => false
       case DoElsewhere => true
  }

  lemma OtherWorkKeepsBroken(t: Tree, u: Tree, s: Site, gone: string)
    requires IsBroken(t, s, gone) && ChangesElsewhere(t, u, s)
    ensures IsBroken(u, s, gone)
  {
    ElsewhereKeepsShape(t, u, s);
    SameInside(t, u, s, s.Current());
    SameInside(t, u, s, s.Releases() + [gone]);
  }

  /** Every unclean cutover of another version fails, however many are tried and whatever changes elsewhere. */
  lemma {:induction false} BrokenRootBlocksOtherVersions(s: Site, states: seq<Tree>, events: seq<Event>, gone: string,
        i: nat)
    requires |states| == |events| + 1 && IsBroken(states[0], s, gone) && i < |states|
    requires forall k: nat :: k < |events| ==> IsOtherWorkAt(states, s, events, gone, k)
    ensures IsBroken(states[i], s, gone)
    ensures i < |events| && events[i].DoCutover? ==>
      ApplyCutover(states[i], s, events[i].version, false).error != None
  {
    if i > 0 {
      BrokenRootBlocksOtherVersions(s, states, events, gone, i - 1);
      assert IsOtherWorkAt(states, s, events, gone, i - 1);
      if events[i - 1].DoCutover? {
        BrokenRootNeedsTheMissingVersion(states[i - 1], s, gone, events[i - 1].version);
      } else {
        OtherWorkKeepsBroken(states[i - 1], states[i], s, gone);
      }
    }
    if i < |events| && events[i].DoCutover? {
      assert IsOtherWorkAt(states, s, events, gone, i);
      BrokenRootNeedsTheMissingVersion(states[i], s, gone, events[i].version);
    }
  }

  lemma PromotionSurvivesCleaning(t: Tree, s: Site, version: string)
    requires PromotionStatePresent(t, s) && SourcesPresent(t, s.LayoutOf(version))
    ensures var start := Remove(t, s.TargetRoot());
      PromotionStatePresent(start, s) && SourcesPresent(start, s.LayoutOf(version))
  {
    PromotionIsAnotherDirectory(s, version);
    var n, l := |s.workspace| + 1, s.LayoutOf(version);
    assert forall name: string :: s.PromotionMeta(name)[n] == PromotionMetaDir(s)[n];
    assert l.tree == PromotedTree(s, version);
    forall i | 0 <= i < 4 ensures !Within(l.Manifests()[i].1, s.TargetRoot()) {
      assert l.Manifests()[i].1[n] == PromotionMetaDir(s)[n];
    }
  }

  /** A clean cutover repairs any root, a broken one too: it succeeds, for any version whose sources are there. */
  lemma CleanCutoverRepairs(t: Tree, s: Site, version: string)
    requires WellShaped(t, s) && SourcesWellShaped(t, s, version)
    requires PromotionStatePresent(t, s) && SourcesPresent(t, s.LayoutOf(version))
    ensures var done := ApplyCutover(t, s, version, true);
      && done.error == None && Sound(done.tree, s) && IsActive(done.tree, s, version)
      && ReadHistory(done.tree, s) == [HistoryRecord(Action.Cutover, version, None)]
  {
    var start := Remove(t, s.TargetRoot());
    CleanRootIsSound(t, s);
    SourcesSurviveCleaning(t, s, version);
    PromotionSurvivesCleaning(t, s, version);
    ActiveVersionOf(start, s);
    CutoverSucceeds(start, s, version);
    assert ApplyCutover(t, s, version, true) == ApplyCutover(start, s, version, false);
  }

  lemma DanglingCurrentBlocks(t: Tree, s: Site, gone: string, other: string)
    requires WellShaped(t, s) && SourcesWellShaped(t, s, other) && SourcesPresent(t, s.LayoutOf(other))
    requires Lookup(t, s.Current()) == Some(Link(s.Releases() + [gone])) && s.Releases() + [gone] !in t && gone != other
    ensures Runnable(Plan(s.LayoutOf(other)))
    ensures RunSteps(t, Plan(s.LayoutOf(other))).error == Some(AlreadyExists)
  {
    var l := s.LayoutOf(other);
    LayoutIsReady(t, s, other);
    SitePathsAreApart(s, other);
    PlanEffect(t, l);
    DanglingLinkBlocks(t, l, gone);
  }

  lemma RollbackPlaces(t: Tree, s: Site, back: string, records: seq<HistoryRecord>)
    ensures var to := s.Releases() + [back];
      var after := WithHistory(Remove(t, s.Current())[s.Current() := Link(to)], s, records);
      && Lookup(after, s.Current()) == Some(Link(to)) && Lookup(after, to) == Lookup(t, to)
      && ReadHistory(after, s) == records
  {
    CurrentIsApart(s);
    BookkeepingIsNoVersion(s, back);
    ReadsAfterWrites(Remove(t, s.Current())[s.Current() := Link(s.Releases() + [back])], s, records, back, None);
  }

  lemma LinkResolvesExactly(t: Tree, s: Site, v: string)
    requires WellShaped(t, s) && Lookup(t, s.Current()) == Some(Link(s.Releases() + [v]))
    ensures Exists(t, s.Current()) <==> s.Releases() + [v] in t
  {
    assert Exists(t, s.Releases() + [v], 39) <==> s.Releases() + [v] in t;
  }

  /** A rollback of a broken root relinks `current` to the candidate, and that resolves exactly if it is there. */
  lemma RollbackOfABrokenRoot(t: Tree, s: Site, gone: string, back: string)
    requires IsBroken(t, s, gone) && Candidate(t, s) == Some(s.Releases() + [back])
    ensures var done := ApplyRollback(t, s);
      && done.error == None && Lookup(done.tree, s.Current()) == Some(Link(s.Releases() + [back]))
      && (Exists(done.tree, s.Current()) <==> s.Releases() + [back] in t)
      && (IsBroken(done.tree, s, back) <==> s.Releases() + [back] !in t)
      && ReadHistory(done.tree, s) ==
           ReadHistory(t, s) + [HistoryRecord(Action.Rollback, back, Some(ReadApply(t, s).value.0))]
  {
    RollbackTree(t, s, back);
    RollbackPlaces(t, s, back,
                   ReadHistory(t, s) + [HistoryRecord(Action.Rollback, back, Some(ReadApply(t, s).value.0))]);
    LinkResolvesExactly(ApplyRollback(t, s).tree, s, back);
  }

  // ---------------------------------------------------------------------------------------------------------------
  // Where it starts
  // ---------------------------------------------------------------------------------------------------------------

  /** A root without bookkeeping whose `current` is absent or leads to a version is sound. */
  lemma FreshRootIsSound(t: Tree, s: Site)
    requires WellShaped(t, s) && CurrentResolves(t, s) && s.HistoryFile() !in t && s.ApplyFile() !in t
    ensures Sound(t, s)
  {
  }

  function PromotionMetaDir(s: Site): Path {
    s.PromotionRoot() + ["shared", "meta"]
  }

  function PromotedTree(s: Site, version: string): Path {
    s.PromotionRoot() + ["releases", version]
  }

  ghost predicate IsNeeded(t: Tree, s: Site, version: string, p: Path)
    requires p in t
  {
    || (t[p] == Dir && (Within(PromotionMetaDir(s), p) || Within(PromotedTree(s, version), p)))
    || (t[p].File? && p != [] && Parent(p) == PromotionMetaDir(s))
  }

  /** A disk that holds files of a promotion, an empty promoted tree, the directories above them, and nothing else. */
  ghost predicate HoldsOnlyPromotion(t: Tree, s: Site, version: string) {
    && WellFormed(t)
    && Lookup(t, PromotionMetaDir(s)) == Some(Dir) && Lookup(t, PromotedTree(s, version)) == Some(Dir)
    && forall p :: p in t ==> IsNeeded(t, s, version, p)
  }

  function WithFile(t: Tree, s: Site, name: string): Tree {
    t[s.PromotionMeta(name) := File(Manifest({}))]
  }

  lemma FileJoinsPromotion(t: Tree, s: Site, version: string, name: string)
    requires HoldsOnlyPromotion(t, s, version)
    ensures HoldsOnlyPromotion(WithFile(t, s, name), s, version)
  {
    var u, meta, tree, f := WithFile(t, s, name), PromotionMetaDir(s), PromotedTree(s, version), s.PromotionMeta(name);
    assert f == meta + [name] && Parent(f) == meta && f[|meta| - 2] == "shared" && tree[|meta| - 2] == "releases";
    assert f in t ==> IsNeeded(t, s, version, f);
    ReplaceKeepsWellFormed(t, f, File(Manifest({})));
    forall p | p in u ensures IsNeeded(u, s, version, p) {
      assert p != f ==> IsNeeded(t, s, version, p);
    }
  }

  lemma PromotionIsAnotherDirectory(s: Site, version: string)
    ensures var n := |s.workspace| + 1;
      && n < |s.TargetRoot()| && n < |PromotionMetaDir(s)| && n < |PromotedTree(s, version)|
      && PromotionMetaDir(s)[n] == PromotedTree(s, version)[n] != s.TargetRoot()[n]
  {
    var n := |s.workspace| + 1;
    assert s.TargetRoot()[n] == "control-release-root-cutover-target";
    assert s.PromotionRoot()[n] == "control-release-root-promotion";
    assert |"control-release-root-cutover-target"| == 35 && |"control-release-root-promotion"| == 30;
  }

  /** What such a disk holds lies above the promotion or inside it. */
  lemma NeededPlace(t: Tree, s: Site, version: string, q: Path)
    requires HoldsOnlyPromotion(t, s, version) && q in t
    ensures var n := |s.workspace| + 1;
      n < |PromotionMetaDir(s)| && if |q| <= n then t[q] == Dir else q[n] == PromotionMetaDir(s)[n]
  {
    PromotionIsAnotherDirectory(s, version);
    assert IsNeeded(t, s, version, q);
    if t[q].File? {
      assert q == Parent(q) + [q[|q| - 1]];
    }
  }

  lemma PromotionIsElsewhere(t: Tree, s: Site, version: string, p: Path)
    requires HoldsOnlyPromotion(t, s, version) && Within(p, s.TargetRoot())
    ensures p !in t && Clear(t, p)
  {
    PromotionIsAnotherDirectory(s, version);
    var n := |s.workspace| + 1;
    assert p[n] == s.TargetRoot()[n];
    forall q | Within(p, q) && q in t ensures q != p && t[q] == Dir {
      NeededPlace(t, s, version, q);
    }
  }

  lemma PromotionIsClear(t: Tree, s: Site, version: string, i: nat)
    requires HoldsOnlyPromotion(t, s, version) && i < 6
    ensures Clear(t, s.LayoutOf("").Directories()[i])
  {
    assert Within(s.LayoutOf("").Directories()[i], s.TargetRoot());
    PromotionIsElsewhere(t, s, version, s.LayoutOf("").Directories()[i]);
  }

  lemma PromotionIsWellShaped(t: Tree, s: Site, version: string)
    requires HoldsOnlyPromotion(t, s, version)
    ensures WellShaped(t, s)
  {
    forall i: nat | i < 6 ensures Clear(t, s.LayoutOf("").Directories()[i]) {
      PromotionIsClear(t, s, version, i);
    }
    forall v: string ensures s.Releases() + [v] !in t {
      PromotionIsElsewhere(t, s, version, s.Releases() + [v]);
    }
    forall name: string ensures s.Meta() + [name] !in t {
      PromotionIsElsewhere(t, s, version, s.Meta() + [name]);
    }
  }

  lemma PromotionIsSound(t: Tree, s: Site, version: string)
    requires HoldsOnlyPromotion(t, s, version)
    ensures Sound(t, s) && s.Current() !in t && ReadHistory(t, s) == []
  {
    PromotionIsWellShaped(t, s, version);
    PromotionIsElsewhere(t, s, version, s.Current());
    PromotionIsElsewhere(t, s, version, s.HistoryFile());
    PromotionIsElsewhere(t, s, version, s.ApplyFile());
    FreshRootIsSound(t, s);
  }

  lemma TwoDirectories(p: Path, q: Path) returns (t: Tree)
    ensures WellFormed(t) && Lookup(t, p) == Some(Dir) && Lookup(t, q) == Some(Dir)
    ensures forall x :: x in t ==> t[x] == Dir && (Within(p, x) || Within(q, x))
  {
    var empty: Tree := map[[] := Dir];
    MakeDirectoriesEffect(empty, p);
    var a := MakeDirectories(empty, p).tree;
    assert forall x :: x in a ==> Lookup(a, x) == Some(Dir);
    MakeDirectoriesEffect(a, q);
    t := MakeDirectories(a, q).tree;
    forall x | x in t ensures t[x] == Dir && (Within(p, x) || Within(q, x)) {
      assert Lookup(t, x) == Some(t[x]);
      assert Lookup(t, x) == if Within(q, x) then Some(Dir) else Lookup(a, x);
      assert Lookup(a, x) == if Within(p, x) then Some(Dir) else Lookup(empty, x);
    }
  }

  lemma PromotionDirectories(s: Site, version: string) returns (t: Tree)
    ensures HoldsOnlyPromotion(t, s, version)
  {
    t := TwoDirectories(PromotionMetaDir(s), PromotedTree(s, version));
  }

  lemma PromotionFiles(s: Site, version: string) returns (t: Tree)
    ensures HoldsOnlyPromotion(t, s, version)
    ensures IsManifest(t, s.PromotionMeta("promotion.json")) && IsManifest(t, s.PromotionMeta("deploy.json"))
    ensures IsManifest(t, s.PromotionMeta("rollback.json")) && IsManifest(t, s.PromotionMeta("handoff.json"))
    ensures IsManifest(t, s.PromotionMeta("apply.json"))
  {
    t := PromotionDirectories(s, version);
    FileJoinsPromotion(t, s, version, "promotion.json");
    t := WithFile(t, s, "promotion.json");
    FileJoinsPromotion(t, s, version, "deploy.json");
    t := WithFile(t, s, "deploy.json");
    FileJoinsPromotion(t, s, version, "rollback.json");
    t := WithFile(t, s, "rollback.json");
    FileJoinsPromotion(t, s, version, "handoff.json");
    t := WithFile(t, s, "handoff.json");
    FileJoinsPromotion(t, s, version, "apply.json");
    t := WithFile(t, s, "apply.json");
  }

  lemma PromotionHasTheSources(t: Tree, s: Site, version: string)
    requires Lookup(t, PromotedTree(s, version)) == Some(Dir)
    requires IsManifest(t, s.PromotionMeta("promotion.json")) && IsManifest(t, s.PromotionMeta("deploy.json"))
    requires IsManifest(t, s.PromotionMeta("rollback.json")) && IsManifest(t, s.PromotionMeta("handoff.json"))
    ensures SourcesWellShaped(t, s, version) && SourcesPresent(t, s.LayoutOf(version))
  {
    var l := s.LayoutOf(version);
    assert l.tree == PromotedTree(s, version);
    assert forall i :: 0 <= i < 4 ==> IsManifest(t, l.Manifests()[i].1);
  }

  /** A first cutover is possible on every site and for every version: the premises of the theorems can be met. */
  lemma FirstCutoverIsPossible(s: Site, version: string) returns (t: Tree)
    ensures Sound(t, s) && s.Current() !in t && ReadHistory(t, s) == []
    ensures SourcesWellShaped(t, s, version) && PromotionStatePresent(t, s) && SourcesPresent(t, s.LayoutOf(version))
  {
    t := PromotionFiles(s, version);
    PromotionIsSound(t, s, version);
    PromotionHasTheSources(t, s, version);
  }
  lemma StepsStayInside(t: Tree, s: Site, version: string, p: Path)
    requires WellShaped(t, s) && SourcesWellShaped(t, s, version) && Disjoint(p, s.ReleaseRoot())
    ensures Runnable(Plan(s.LayoutOf(version)))
    ensures var done := RunSteps(t, Plan(s.LayoutOf(version)));
      done.error == None ==> Lookup(done.tree, p) == Lookup(t, p)
  {
    var l := s.LayoutOf(version);
    LayoutIsReady(t, s, version);
    PlanEffect(t, l);
    if RunSteps(t, Plan(l)).error == None {
      RestOfTheDiskIsUntouched(t, RunSteps(t, Plan(l)).tree, l, p);
    }
  }

  lemma BookkeepingStaysInside(u: Tree, s: Site, version: string, candidate: Option<Path>,
        records: seq<HistoryRecord>, p: Path)
    requires Disjoint(p, s.ReleaseRoot())
    ensures Lookup(AfterCutover(u, s, version, candidate, records), p) == Lookup(u, p)
  {
    assert Within(s.ApplyFile(), s.ReleaseRoot()) && Within(s.HistoryFile(), s.ReleaseRoot());
  }

  /** A successful cutover leaves the rest of the workspace alone. */
  lemma CutoverStaysInside(t: Tree, s: Site, version: string, p: Path)
    requires Sound(t, s) && SourcesWellShaped(t, s, version)
    requires PromotionStatePresent(t, s) && SourcesPresent(t, s.LayoutOf(version))
    requires Disjoint(p, s.ReleaseRoot())
    ensures Lookup(ApplyCutover(t, s, version, false).tree, p) == Lookup(t, p)
  {
    StepsStayInside(t, s, version, p);
    StepsSucceedIffSourcesArePresent(t, s, version);
    CutoverTree(t, s, version);
    var (candidate, active) := ResolveCurrent(t, s);
    BookkeepingStaysInside(RunSteps(t, Plan(s.LayoutOf(version))).tree, s, version, candidate,
                           ReadHistory(t, s) + [HistoryRecord(Action.Cutover, version, active)], p);
  }

  lemma PromotionPathsAreOutside(s: Site, version: string, name: string)
    ensures Disjoint(s.PromotionMeta(name), s.ReleaseRoot()) && Disjoint(PromotedTree(s, version), s.ReleaseRoot())
    ensures !Within(s.PromotionMeta(name), PromotedTree(s, version))
  {
    PromotionIsAnotherDirectory(s, version);
    var n := |s.workspace| + 1;
    assert s.ReleaseRoot()[n] == s.TargetRoot()[n] && s.PromotionMeta(name)[n] == PromotionMetaDir(s)[n];
    var m := |s.PromotionRoot()|;
    assert s.PromotionMeta(name)[m] == "shared" && PromotedTree(s, version)[m] == "releases";
  }

  lemma SameManifestsAreSources(t: Tree, u: Tree, s: Site, version: string)
    requires PromotionStatePresent(t, s) && SourcesWellShaped(t, s, version)
    requires forall name: string :: Lookup(u, s.PromotionMeta(name)) == Lookup(t, s.PromotionMeta(name))
    requires PromotedTree(s, version) in u ==>
      Lookup(u, PromotedTree(s, version)) == Lookup(t, PromotedTree(s, version))
    ensures PromotionStatePresent(u, s) && SourcesWellShaped(u, s, version)
  {
    var l := s.LayoutOf(version);
    assert l.tree == PromotedTree(s, version);
    forall i | 0 <= i < 4 ensures Lookup(u, l.Manifests()[i].1) == Lookup(t, l.Manifests()[i].1) {
      assert l.Manifests()[0].1 == s.PromotionMeta("promotion.json");
      assert l.Manifests()[1].1 == s.PromotionMeta("deploy.json");
      assert l.Manifests()[2].1 == s.PromotionMeta("rollback.json");
      assert l.Manifests()[3].1 == s.PromotionMeta("handoff.json");
    }
  }

  lemma PromotedTreeIsElsewhere(s: Site, version: string, p: Path)
    requires Within(p, s.TargetRoot()) || Within(s.TargetRoot(), p)
    ensures !Within(p, PromotedTree(s, version))
  {
    PromotionIsAnotherDirectory(s, version);
    var n := |s.workspace| + 1;
    assert |p| > n ==> p[n] == s.TargetRoot()[n];
  }

  /** Losing the promoted tree is a change elsewhere, and the manifests stay. */
  lemma PromotedTreeGoes(t: Tree, s: Site, version: string)
    requires WellFormed(t) && PromotionStatePresent(t, s) && SourcesWellShaped(t, s, version)
    ensures var u := Remove(t, PromotedTree(s, version));
      && ChangesElsewhere(t, u, s) && PromotionStatePresent(u, s) && SourcesWellShaped(u, s, version)
      && s.LayoutOf(version).tree !in u
  {
    var tree := PromotedTree(s, version);
    RemoveKeepsWellFormed(t, tree);
    forall p | Within(p, s.TargetRoot()) || Within(s.TargetRoot(), p) ensures !Within(p, tree) {
      PromotedTreeIsElsewhere(s, version, p);
    }
    forall name: string ensures !Within(s.PromotionMeta(name), tree) {
      PromotionPathsAreOutside(s, version, name);
    }
    SameManifestsAreSources(t, Remove(t, tree), s, version);
    assert s.LayoutOf(version).tree == tree;
  }

  lemma PromotionOutlivesCutover(t: Tree, s: Site, version: string)
    requires Sound(t, s) && SourcesWellShaped(t, s, version)
    requires PromotionStatePresent(t, s) && SourcesPresent(t, s.LayoutOf(version))
    ensures var u := ApplyCutover(t, s, version, false).tree;
      PromotionStatePresent(u, s) && SourcesWellShaped(u, s, version)
  {
    var u := ApplyCutover(t, s, version, false).tree;
    forall name: string ensures Lookup(u, s.PromotionMeta(name)) == Lookup(t, s.PromotionMeta(name)) {
      PromotionPathsAreOutside(s, version, name);
      CutoverStaysInside(t, s, version, s.PromotionMeta(name));
    }
    PromotionPathsAreOutside(s, version, "");
    CutoverStaysInside(t, s, version, PromotedTree(s, version));
    SameManifestsAreSources(t, u, s, version);
  }

  /** A re-cut can fail: for every site and version there is a disk that meets the premises of `FailedRecutBreaks`. */
  lemma FailedRecutIsPossible(s: Site, version: string) returns (t: Tree)
    ensures Sound(t, s) && IsActive(t, s, version)
    ensures SourcesWellShaped(t, s, version) && PromotionStatePresent(t, s) && s.LayoutOf(version).tree !in t
  {
    var first := FirstCutoverIsPossible(s, version);
    CutoverSucceeds(first, s, version);
    PromotionOutlivesCutover(first, s, version);
    var u := ApplyCutover(first, s, version, false).tree;
    PromotedTreeGoes(u, s, version);
    t := Remove(u, PromotedTree(s, version));
    ElsewhereKeepsSound(u, t, s);
    SameInside(u, t, s, s.Current());
    SameInside(u, t, s, s.Releases() + [version]);
  }
}
