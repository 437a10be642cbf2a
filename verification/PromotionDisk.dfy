/**
 * The release-root apply on disk: what running its plan leaves, seen as the files of the stage, is what the step
 * specification of the promotion module says, failures included.
 */
module PromotionDisk {
  import opened Prelude
  import opened FileTree
  import opened ReleasePlan
  import P = Promotion

  /** How the metadata files are parsed. */
  datatype Readers = Readers(promotion: Content -> P.PromotionManifest, deploy: Content -> P.DeployManifest,
                             rollback: Content -> P.RollbackManifest)

  function ReadFile<T>(t: Tree, p: Path, parse: Content -> T): Option<T> {
    match Lookup(t, p)
    case Some(File(content)) => Some(parse(content))
    case _ => None
  }

  ghost function VersionTrees(t: Tree, l: Layout): set<string> {
    set p | p in t && p != [] && Parent(p) == l.Releases() :: Base(p)
  }

  function CurrentVersion(t: Tree, l: Layout): Option<string> {
    match Lookup(t, l.Current())
    case Some(Link(to)) => Some(Base(to))
    case _ => None
  }

  /** The disk as the files of the stage; the steps do not touch what `rest` holds besides. */
  ghost function View(t: Tree, l: Layout, r: Readers, rest: P.Files): P.Files {
    rest.(trees := VersionTrees(t, l), current := CurrentVersion(t, l),
          promotion := ReadFile(t, l.Manifests()[0].0, r.promotion),
          deploy := ReadFile(t, l.Manifests()[1].0, r.deploy),
          rollback := ReadFile(t, l.Manifests()[2].0, r.rollback))
  }

  /** The staging root at the start of the steps. */
  function StagingView(t: Tree, l: Layout, r: Readers): P.Staging {
    P.Staging(true, l.tree in t, ReadFile(t, l.promotion, r.promotion), ReadFile(t, l.deploy, r.deploy),
              ReadFile(t, l.rollback, r.rollback), l.handoff in t)
  }

  /** Versions are directories, and `current`, if there, links to a version, which may be gone. */
  ghost predicate IsRoot(t: Tree, l: Layout) {
    && Ready(t, l)
    && (forall v: string :: l.Releases() + [v] in t ==> t[l.Releases() + [v]] == Dir)
    && (l.tree in t ==> t[l.tree] == Dir)
    && (l.Current() in t ==> exists v: string :: t[l.Current()] == Link(l.Releases() + [v]))
  }

  lemma IsVersionTree(t: Tree, l: Layout, v: string)
    ensures v in VersionTrees(t, l) <==> l.Releases() + [v] in t
  {
    var p := l.Releases() + [v];
    assert Parent(p) == l.Releases() && Base(p) == v;
    if v in VersionTrees(t, l) {
      var q :| q in t && q != [] && Parent(q) == l.Releases() && Base(q) == v;
      assert q == Parent(q) + [Base(q)];
    }
  }

  /** The link step of a run whose sources are there meets a dangling link exactly when the specification says so. */
  lemma LinkIsInTheWayExactly(t: Tree, l: Layout)
    requires IsRoot(t, l) && SourcesPresent(t, l)
    ensures CanRelink(t, l) <==>
      CurrentVersion(t, l).None? || CurrentVersion(t, l).value in VersionTrees(t, l) + {l.version}
  {
    if l.Current() in t {
      var v: string :| t[l.Current()] == Link(l.Releases() + [v]);
      assert Base(l.Releases() + [v]) == v;
      IsVersionTree(t, l, v);
      if v == l.version || l.Releases() + [v] in t {
        VersionLinksCanBeReplaced(t, l, v);
      } else {
        DanglingLinkBlocks(t, l, v);
      }
    }
  }

  lemma TreesAfterwards(t: Tree, l: Layout)
    requires Ready(t, l)
    ensures Runnable(Plan(l))
    ensures VersionTrees(RunSteps(t, Plan(l)).tree, l) ==
      if l.tree in t then VersionTrees(t, l) + {l.version} else VersionTrees(t, l) - {l.version}
  {
    RunStopsExactly(t, l);
    var u := RunSteps(t, Plan(l)).tree;
    assert l.VersionRoot() == l.Releases() + [l.version];
    forall v: string ensures v in VersionTrees(u, l) <==>
      if v == l.version then l.tree in t else v in VersionTrees(t, l)
    {
      IsVersionTree(t, l, v);
      IsVersionTree(u, l, v);
      assert v != l.version ==> Lookup(u, l.Releases() + [v]) == Lookup(t, l.Releases() + [v]);
    }
  }

  lemma ManifestsAfterwards(t: Tree, l: Layout)
    requires Ready(t, l)
    ensures var ms := l.Manifests();
      && ManifestAfter(t, l, 0) == Lookup(t, if l.tree in t && l.promotion in t then l.promotion else ms[0].0)
      && ManifestAfter(t, l, 1) ==
           Lookup(t, if l.tree in t && l.promotion in t && l.deploy in t then l.deploy else ms[1].0)
      && ManifestAfter(t, l, 2) ==
           Lookup(t, if l.tree in t && l.promotion in t && l.deploy in t && l.rollback in t then l.rollback
                     else ms[2].0)
  {
    var ms := l.Manifests();
    assert ms[0].1 == l.promotion && ms[1].1 == l.deploy && ms[2].1 == l.rollback;
    assert IsReached(t, ms, 0) <==> l.promotion in t;
    assert IsReached(t, ms, 1) <==> l.promotion in t && l.deploy in t;
    assert IsReached(t, ms, 2) <==> l.promotion in t && l.deploy in t && l.rollback in t;
  }

  lemma SourceIsRead<T>(t: Tree, l: Layout, i: nat, parse: Content -> T)
    requires Ready(t, l) && i < 4
    ensures ReadFile(t, l.Manifests()[i].1, parse).Some? <==> l.Manifests()[i].1 in t
  {
  }

  lemma StagedFilesAreRead(t: Tree, l: Layout, r: Readers)
    requires Ready(t, l)
    ensures var staging := StagingView(t, l, r);
      && (staging.promotion.Some? <==> l.promotion in t) && (staging.deploy.Some? <==> l.deploy in t)
      && (staging.rollback.Some? <==> l.rollback in t)
  {
    SourceIsRead(t, l, 0, r.promotion);
    SourceIsRead(t, l, 1, r.deploy);
    SourceIsRead(t, l, 2, r.rollback);
  }

  /** The view after a run, component by component. */
  ghost predicate StopsAs(f: P.Files, after: P.Files, version: string, staging: P.Staging, complete: bool) {
    var copied := staging.tree && staging.promotion.Some?;
    && after == f.(trees := after.trees, current := after.current, promotion := after.promotion, deploy := after.deploy,
                   rollback := after.rollback)
    && after.trees == (if staging.tree then f.trees + {version} else f.trees - {version})
    && after.promotion == (if copied then staging.promotion else f.promotion)
    && after.deploy == (if copied && staging.deploy.Some? then staging.deploy else f.deploy)
    && after.rollback ==
         (if copied && staging.deploy.Some? && staging.rollback.Some? then staging.rollback else f.rollback)
    && after.current == (if complete then Some(version) else f.current)
    && (complete <==>
          && copied && staging.deploy.Some? && staging.rollback.Some? && staging.handoff
          && (f.current.None? || f.current.value in f.trees + {version}))
  }

  lemma StopsAsIsCopySteps(f: P.Files, after: P.Files, version: string, staging: P.Staging, complete: bool)
    requires StopsAs(f, after, version, staging, complete)
    ensures (after, complete) == P.CopySteps(f, version, staging)
  {
  }

  lemma SourcesAreThese(t: Tree, l: Layout)
    ensures SourcesPresent(t, l) <==>
      l.tree in t && l.promotion in t && l.deploy in t && l.rollback in t && l.handoff in t
  {
    var ms := l.Manifests();
    assert ms[0].1 == l.promotion && ms[1].1 == l.deploy && ms[2].1 == l.rollback && ms[3].1 == l.handoff;
  }

  lemma RunCompletesExactly(t: Tree, l: Layout)
    requires IsRoot(t, l)
    ensures Runnable(Plan(l))
    ensures RunSteps(t, Plan(l)).error == None <==>
      && l.tree in t && l.promotion in t && l.deploy in t && l.rollback in t && l.handoff in t
      && (CurrentVersion(t, l).None? || CurrentVersion(t, l).value in VersionTrees(t, l) + {l.version})
  {
    PlanEffect(t, l);
    SourcesAreThese(t, l);
    if SourcesPresent(t, l) {
      LinkIsInTheWayExactly(t, l);
    }
  }

  lemma CurrentAfterwards(t: Tree, l: Layout)
    requires Ready(t, l)
    ensures Runnable(Plan(l))
    ensures var done := RunSteps(t, Plan(l));
      CurrentVersion(done.tree, l) == if done.error == None then Some(l.version) else CurrentVersion(t, l)
  {
    RunStopsExactly(t, l);
    assert Base(l.VersionRoot()) == l.version;
  }

  lemma ManifestsAreRead(t: Tree, l: Layout, r: Readers)
    requires Ready(t, l)
    ensures Runnable(Plan(l))
    ensures var u, ms := RunSteps(t, Plan(l)).tree, l.Manifests();
      && ReadFile(u, ms[0].0, r.promotion) ==
           ReadFile(t, if l.tree in t && l.promotion in t then l.promotion else ms[0].0, r.promotion)
      && ReadFile(u, ms[1].0, r.deploy) ==
           ReadFile(t, if l.tree in t && l.promotion in t && l.deploy in t then l.deploy else ms[1].0, r.deploy)
      && ReadFile(u, ms[2].0, r.rollback) ==
           ReadFile(t, if l.tree in t && l.promotion in t && l.deploy in t && l.rollback in t then l.rollback
                       else ms[2].0, r.rollback)
  {
    RunStopsExactly(t, l);
    ManifestsAfterwards(t, l);
  }

  /** Running the plan is the step specification of an apply, wherever it stops. */
  lemma StepsAreCopySteps(t: Tree, l: Layout, r: Readers, rest: P.Files)
    requires IsRoot(t, l)
    ensures Runnable(Plan(l))
    ensures var done := RunSteps(t, Plan(l));
      (View(done.tree, l, r, rest), done.error == None)
        == P.CopySteps(View(t, l, r, rest), l.version, StagingView(t, l, r))
  {
    RunCompletesExactly(t, l);
    var done := RunSteps(t, Plan(l));
    var f, after := View(t, l, r, rest), View(done.tree, l, r, rest);
    TreesAfterwards(t, l);
    CurrentAfterwards(t, l);
    ManifestsAreRead(t, l, r);
    StagedFilesAreRead(t, l, r);
    StopsAsIsCopySteps(f, after, l.version, StagingView(t, l, r), done.error == None);
  }
}
