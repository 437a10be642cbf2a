/** The step interpreter and the cutover commands as they are run: loops and assignments on a disk. */
module ReleaseEngine {
  import opened Prelude
  import opened FileTree
  import opened ReleasePlan
  import opened PlanRelocation
  import opened Cutover

  class Disk {
    var tree: Tree

    constructor (tree: Tree)
      ensures this.tree == tree
    {
      this.tree := tree;
    }

    /** Applies steps until one throws and records those that were applied. */
    method ApplySteps(steps: seq<Step>) returns (records: seq<Step>, error: Option<Error>)
      requires Runnable(steps)
      modifies this
      ensures Outcome(tree, error) == RunSteps(old(tree), steps)
      ensures records <= steps
      ensures error == None ==> records == steps
      ensures error != None ==>
        && |records| < |steps| && Runnable(records) && RunSteps(old(tree), records).error == None
        && RunStep(RunSteps(old(tree), records).tree, steps[|records|]) == Outcome(tree, error)
    {
      records := [];
      var i := 0;
      assert steps[0..] == steps;
      while i < |steps|
        invariant 0 <= i <= |steps|
        invariant records == steps[..i]
        invariant RunSteps(old(tree), steps) == RunSteps(tree, steps[i..])
        invariant RunSteps(old(tree), records) == Outcome(tree, None)
      {
        var step := steps[i];
        assert steps[i..][0] == step && steps[i..][1..] == steps[i + 1..];
        var outcome := RunStep(tree, step);
        RunOneStep(tree, step);
        RunStepsAppend(old(tree), records, [step]);
        tree := outcome.tree;
        if outcome.error.Some? {
          return records, outcome.error;
        }
        records := records + [step];
        i := i + 1;
      }
      error := None;
    }

    /** Staging and target apply: a directory that holds the destination is cleaned and the relocated plan is run. */
    method ApplyRelocated(handoff: Layout, move: Move, cleaned: Path) returns (records: seq<Step>, error: Option<Error>)
      requires CanRelocate(tree, handoff, move) && cleaned != [] && Within(move.destination, cleaned)
      modifies this
      ensures Runnable(Plan(handoff))
      ensures IsRelocatedRun(Remove(old(tree), cleaned), handoff, move, Outcome(tree, error))
      ensures forall q :: !Within(q, cleaned) && !Within(cleaned, q) ==> Lookup(tree, q) == Lookup(old(tree), q)
      ensures error == None ==> records == Plan(handoff.(root := move.destination))
    {
      CleanedRunRelocates(tree, handoff, move, cleaned);
      RelocatedPlanIsPlanOfRelocatedLayout(handoff, move);
      tree := Remove(tree, cleaned);
      records, error := ApplySteps(RelocateAll(Plan(handoff), move));
    }

    /** The bookkeeping at the end of a command. */
    method WriteBookkeeping(site: Site, apply: Option<Content>, records: seq<HistoryRecord>)
      returns (error: Option<Error>)
      modifies this
      ensures Outcome(tree, error) == WriteManifests(old(tree), site, apply, records)
    {
      var outcome := MakeDirectories(tree, site.Meta());
      tree, error := outcome.tree, outcome.error;
      if error.None? && apply.Some? {
        outcome := WriteFile(tree, site.ApplyFile(), apply.value);
        tree, error := outcome.tree, outcome.error;
      }
      if error.None? {
        outcome := WriteFile(tree, site.HistoryFile(), History(records));
        tree, error := outcome.tree, outcome.error;
      }
    }

    method Cutover(site: Site, version: string, clean: bool) returns (records: seq<Step>, error: Option<Error>)
      modifies this
      ensures Outcome(tree, error) == ApplyCutover(old(tree), site, version, clean)
      ensures error == None ==> records == Plan(site.LayoutOf(version))
    {
      records := [];
      if clean {
        tree := Remove(tree, site.TargetRoot());
      }
      if !PromotionStatePresent(tree, site) {
        return [], Some(MissingState);
      }
      var (candidate, active) := ResolveCurrent(tree, site);
      PlanTargets(site.LayoutOf(version));
      records, error := ApplySteps(Plan(site.LayoutOf(version)));
      if error.None? {
        var history := ReadHistory(tree, site);
        error := WriteBookkeeping(site, Some(ApplyManifest(version, candidate)),
                                  history + [HistoryRecord(Action.Cutover, version, active)]);
      }
    }

    method Rollback(site: Site) returns (error: Option<Error>)
      modifies this
      ensures Outcome(tree, error) == ApplyRollback(old(tree), site)
      ensures Candidate(old(tree), site) == None ==> tree == old(tree) && error.Some?
    {
      var manifest := ReadApply(tree, site);
      if manifest.None? {
        return Some(MissingState);
      }
      var (version, candidate) := manifest.value;
      if candidate.None? {
        return Some(MissingSource);
      }
      var outcome := MakeDirectories(tree, site.Meta());
      tree, error := outcome.tree, outcome.error;
      if error.Some? {
        return;
      }
      tree := Remove(tree, site.Current());
      outcome := MakeLink(tree, candidate.value, site.Current());
      tree, error := outcome.tree, outcome.error;
      if error.Some? {
        return;
      }
      var history := ReadHistory(tree, site);
      error := WriteBookkeeping(site, None,
                                history + [HistoryRecord(Action.Rollback, Base(candidate.value), Some(version))]);
    }
  }
}
