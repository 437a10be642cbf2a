/**
 * Promotion of release versions in the sandbox, the shadow and the release-root stage, and the histories they keep.
 *
 * The sandbox and the shadow offer the versions their inventory lists; the release-root stage lists the directories
 * afresh. They also differ in one test: the release-root stage takes a promotion file into account only when it is of
 * its own kind, because its apply command first copies the staged file over it.
 */
module Promotion {
  import opened Prelude

  datatype Stage = Sandbox | Shadow | ReleaseRoot

  /** A file that is not JSON counts as one of another kind. */
  datatype PromotionManifest = PromotionManifest(kind: Stage, promotedVersion: string,
                                                 previousPromotedVersion: Option<string>)

  datatype PromotionRecord = PromotionRecord(promotedVersion: string, previousPromotedVersion: Option<string>)

  datatype Activation = Activation(activeVersion: string, previousVersion: Option<string>)

  datatype DeployManifest = DeployManifest(activeVersion: string, promotedVersion: string,
                                           previousVersion: Option<string>)

  datatype RollbackManifest = RollbackManifest(currentVersion: string, rollbackVersion: Option<string>)

  /**
   * The files of one stage: the version directories, the versions in the inventory file, the version the link `current`
   * points at, and the metadata files.
   */
  datatype Files = Files(
    trees: set<string>,
    listed: set<string>,
    current: Option<string>,
    activation: Option<Activation>,
    promotion: Option<PromotionManifest>,
    history: seq<PromotionRecord>,
    deploy: Option<DeployManifest>,
    rollback: Option<RollbackManifest>)

  const EMPTY := Files({}, {}, None, None, None, [], None, None)

  /** What the staging root holds when an apply starts: its apply manifest, the version's tree, and what is copied. */
  datatype Staging = Staging(applied: bool, tree: bool, promotion: Option<PromotionManifest>,
                             deploy: Option<DeployManifest>, rollback: Option<RollbackManifest>, handoff: bool)

  /** A version that the sandbox lists, and whether its tree is there. */
  datatype Source = Source(version: string, present: bool)

  /** `readable`: what is read after the activation, such as the startup manifest, can be read. */
  datatype Command =
    | Pack(version: string, completes: bool)
    | PackShadow(sources: seq<Source>, version: string, clean: bool, readable: bool)
    | Reset
    | Activate(version: string)
    | Promote(version: string, readable: bool)
    | Apply(version: string, staging: Staging, clean: bool, readable: bool)

  // ---------------------------------------------------------------------------------------------------------------
  // Specification
  // ---------------------------------------------------------------------------------------------------------------

  predicate IsAvailable(stage: Stage, f: Files, version: string) {
    version in if stage == ReleaseRoot then f.trees else f.listed
  }

  predicate CanActivate(stage: Stage, f: Files, version: string) {
    IsAvailable(stage, f, version) && version in f.trees
  }

  function Activated(f: Files, version: string): Files {
    var previous := if f.activation.None? then None else Some(f.activation.value.activeVersion);
    f.(current := Some(version), activation := Some(Activation(version, previous)))
  }

  /** An unknown version changes nothing; a listed one that is not there is noticed once the link has been replaced. */
  function AfterActivation(stage: Stage, f: Files, version: string): Files {
    if !IsAvailable(stage, f, version) then f
    else if version !in f.trees then f.(current := Some(version))
    else Activated(f, version)
  }

  /** The promotion that the next one will call previous. */
  function PreviousPromotion(stage: Stage, f: Files): Option<string> {
    if f.promotion.None? then None
    else if stage == ReleaseRoot && f.promotion.value.kind != ReleaseRoot then None
    else Some(f.promotion.value.promotedVersion)
  }

  function Promoted(stage: Stage, f: Files, version: string): Files {
    var previous := PreviousPromotion(stage, f);
    Activated(f, version).(
      promotion := Some(PromotionManifest(stage, version, previous)),
      history := f.history + [PromotionRecord(version, previous)],
      deploy := Some(DeployManifest(version, version, previous)),
      rollback := Some(RollbackManifest(version, previous)))
  }

  function AfterPromotion(stage: Stage, f: Files, version: string, readable: bool): Files {
    if CanActivate(stage, f, version) && readable then Promoted(stage, f, version)
    else AfterActivation(stage, f, version)
  }

  /** The link step cannot remove a link that dangles, and then cannot replace it. */
  predicate LinkIsInTheWay(f: Files) {
    f.current.Some? && f.current.value !in f.trees
  }

  /** The step loop of an apply, up to the first step that throws, and whether it came to the end. */
  function CopySteps(f: Files, version: string, staging: Staging): (Files, bool) {
    if !staging.tree then (f.(trees := f.trees - {version}), false)
    else
      var a := f.(trees := f.trees + {version});
      if staging.promotion.None? then (a, false)
      else
        var b := a.(promotion := staging.promotion);
        if staging.deploy.None? then (b, false)
        else
          var c := b.(deploy := staging.deploy);
          if staging.rollback.None? then (c, false)
          else
            var d := c.(rollback := staging.rollback);
            if !staging.handoff || LinkIsInTheWay(d) then (d, false) else (d.(current := Some(version)), true)
  }

  function AfterApply(f: Files, version: string, staging: Staging, clean: bool, readable: bool): Files {
    if !staging.applied then f
    else
      var (done, ok) := CopySteps(if clean then EMPTY else f, version, staging);
      if ok then AfterPromotion(ReleaseRoot, done, version, readable) else done
  }

  /** The shadow's version directories once the sandbox's have been copied, up to the first that is missing. */
  function CopyReleases(trees: set<string>, sources: seq<Source>): (set<string>, bool)
    decreases |sources|
  {
    if sources == [] then (trees, true)
    else if !sources[0].present then (trees - {sources[0].version}, false)
    else CopyReleases(trees + {sources[0].version}, sources[1..])
  }

  function VersionsOf(sources: seq<Source>): set<string> {
    set i | 0 <= i < |sources| :: sources[i].version
  }

  function AfterPackShadow(f: Files, sources: seq<Source>, version: string, clean: bool, readable: bool): Files {
    var start := if clean then EMPTY else f;
    var (trees, ok) := CopyReleases(start.trees, sources);
    var copied := start.(trees := trees);
    if !ok || LinkIsInTheWay(copied) then copied
    else
      AfterPromotion(Shadow, copied.(current := Some(version), listed := VersionsOf(sources)), version, readable)
  }

  /** A sandbox pack that throws may have made the version's directory, which is not listed then. */
  function AfterPack(f: Files, version: string, completes: bool): Files {
    var made := f.(trees := f.trees + {version});
    if completes then Activated(made.(listed := f.listed + {version}), version) else made
  }

  function Run(stage: Stage, f: Files, command: Command): Files {
    match command
    case Pack(version, completes) => if stage == Sandbox then AfterPack(f, version, completes) else f
    case PackShadow(sources, version, clean, readable) =>
      if stage == Shadow then AfterPackShadow(f, sources, version, clean, readable) else f
    case Reset => EMPTY
    case Activate(version) => AfterActivation(stage, f, version)
    case Promote(version, readable) => AfterPromotion(stage, f, version, readable)
    case Apply(version, staging, clean, readable) =>
      if stage == ReleaseRoot then AfterApply(f, version, staging, clean, readable) else f
  }

  function RunAll(stage: Stage, commands: seq<Command>): Files {
    if commands == [] then EMPTY
    else Run(stage, RunAll(stage, commands[..|commands| - 1]), commands[|commands| - 1])
  }

  /** What the stage before hands over: a promotion manifest of its own kind, and an active version that it lists. */
  predicate HandedOver(command: Command) {
    && (command.Apply? && command.staging.promotion.Some? ==> command.staging.promotion.value.kind != ReleaseRoot)
    && (command.PackShadow? ==> command.version in VersionsOf(command.sources))
  }

  // ---------------------------------------------------------------------------------------------------------------
  // Histories
  // ---------------------------------------------------------------------------------------------------------------

  function LastPromoted(f: Files): Option<string> {
    if f.history == [] then None else Some(f.history[|f.history| - 1].promotedVersion)
  }

  /** A record names the one before it; only in the release-root stage may one leave the name out. */
  predicate HistoryIsLinked(stage: Stage, history: seq<PromotionRecord>) {
    forall i :: 0 <= i < |history| ==>
      NamesPredecessor(history, i) || (stage == ReleaseRoot && history[i].previousPromotedVersion == None)
  }

  predicate NamesPredecessor(history: seq<PromotionRecord>, i: nat)
    requires i < |history|
  {
    history[i].previousPromotedVersion == if i == 0 then None else Some(history[i - 1].promotedVersion)
  }

  /** The promotion file was copied by an apply, and no promotion has overwritten it. */
  predicate IsForeign(stage: Stage, f: Files) {
    stage == ReleaseRoot && f.promotion.Some? && f.promotion.value.kind != ReleaseRoot
  }

  /** The promotion on file is that of the last record, or a foreign one. */
  predicate PreviousIsLast(stage: Stage, f: Files) {
    && (f.promotion.None? ==> f.history == [])
    && (PreviousPromotion(stage, f) == LastPromoted(f) || IsForeign(stage, f))
  }

  predicate HistoryHolds(stage: Stage, f: Files) {
    HistoryIsLinked(stage, f.history) && PreviousIsLast(stage, f)
  }

  lemma HistoryGrows(stage: Stage, history: seq<PromotionRecord>, last: PromotionRecord)
    requires HistoryIsLinked(stage, history)
    requires NamesPredecessor(history + [last], |history|)
      || (stage == ReleaseRoot && last.previousPromotedVersion == None)
    ensures HistoryIsLinked(stage, history + [last])
  {
    forall i | 0 <= i < |history| ensures NamesPredecessor(history + [last], i) <==> NamesPredecessor(history, i) {
    }
  }

  lemma SameFilesHold(stage: Stage, f: Files, g: Files)
    requires HistoryHolds(stage, f) && g.promotion == f.promotion && g.history == f.history
    ensures HistoryHolds(stage, g)
  {
  }

  lemma PromotedHolds(stage: Stage, f: Files, version: string)
    requires HistoryHolds(stage, f)
    ensures HistoryHolds(stage, Promoted(stage, f, version))
  {
    HistoryGrows(stage, f.history, PromotionRecord(version, PreviousPromotion(stage, f)));
  }

  lemma ActivationKeepsPromotion(stage: Stage, f: Files, version: string)
    ensures AfterActivation(stage, f, version).promotion == f.promotion
    ensures AfterActivation(stage, f, version).history == f.history
  {
  }

  lemma PromotionKeepsHistory(stage: Stage, f: Files, version: string, readable: bool)
    requires HistoryHolds(stage, f)
    ensures HistoryHolds(stage, AfterPromotion(stage, f, version, readable))
  {
    if CanActivate(stage, f, version) && readable {
      PromotedHolds(stage, f, version);
    } else {
      ActivationKeepsPromotion(stage, f, version);
      SameFilesHold(stage, f, AfterActivation(stage, f, version));
    }
  }

  lemma CopyStepsKeepHistory(f: Files, version: string, staging: Staging)
    requires HistoryHolds(ReleaseRoot, f) && (staging.promotion.Some? ==> staging.promotion.value.kind != ReleaseRoot)
    ensures HistoryHolds(ReleaseRoot, CopySteps(f, version, staging).0)
    ensures staging.tree && staging.promotion.Some? ==>
      PreviousPromotion(ReleaseRoot, CopySteps(f, version, staging).0) == None
  {
  }

  lemma PackShadowKeepsHistory(f: Files, sources: seq<Source>, version: string, clean: bool, readable: bool)
    requires HistoryHolds(Shadow, f)
    ensures HistoryHolds(Shadow, AfterPackShadow(f, sources, version, clean, readable))
  {
    var start := if clean then EMPTY else f;
    var (trees, ok) := CopyReleases(start.trees, sources);
    var copied := start.(trees := trees);
    SameFilesHold(Shadow, start, copied);
    if ok && !LinkIsInTheWay(copied) {
      var linked := copied.(current := Some(version), listed := VersionsOf(sources));
      SameFilesHold(Shadow, start, linked);
      PromotionKeepsHistory(Shadow, linked, version, readable);
    }
  }

  lemma ApplyKeepsHistory(f: Files, version: string, staging: Staging, clean: bool, readable: bool)
    requires HistoryHolds(ReleaseRoot, f) && HandedOver(Apply(version, staging, clean, readable))
    ensures HistoryHolds(ReleaseRoot, AfterApply(f, version, staging, clean, readable))
  {
    var start := if clean then EMPTY else f;
    CopyStepsKeepHistory(start, version, staging);
    PromotionKeepsHistory(ReleaseRoot, CopySteps(start, version, staging).0, version, readable);
  }

  lemma CommandKeepsHistory(stage: Stage, f: Files, command: Command)
    requires HistoryHolds(stage, f) && HandedOver(command)
    ensures HistoryHolds(stage, Run(stage, f, command))
  {
    match command
    case Pack(_, _) => SameFilesHold(stage, f, Run(stage, f, command));
    case PackShadow(sources, version, clean, readable) =>
      if stage == Shadow {
        PackShadowKeepsHistory(f, sources, version, clean, readable);
      }
    case Reset =>
    case Activate(version) =>
      ActivationKeepsPromotion(stage, f, version);
      SameFilesHold(stage, f, AfterActivation(stage, f, version));
    case Promote(version, readable) => PromotionKeepsHistory(stage, f, version, readable);
    case Apply(version, staging, clean, readable) =>
      if stage == ReleaseRoot {
        ApplyKeepsHistory(f, version, staging, clean, readable);
      }
  }

  /** Whatever commands were run and wherever they stopped, the history is linked. */
  lemma {:induction false} EveryHistoryHolds(stage: Stage, commands: seq<Command>)
    requires forall i :: 0 <= i < |commands| ==> HandedOver(commands[i])
    ensures HistoryHolds(stage, RunAll(stage, commands))
    decreases |commands|
  {
    if commands != [] {
      EveryHistoryHolds(stage, commands[..|commands| - 1]);
      CommandKeepsHistory(stage, RunAll(stage, commands[..|commands| - 1]), commands[|commands| - 1]);
    }
  }

  /** In the sandbox and the shadow each record names its predecessor, without exception. */
  lemma SandboxAndShadowHistoriesAreChains(stage: Stage, commands: seq<Command>)
    requires stage != ReleaseRoot && forall i :: 0 <= i < |commands| ==> HandedOver(commands[i])
    ensures var history := RunAll(stage, commands).history;
      forall i :: 0 <= i < |history| ==> NamesPredecessor(history, i)
  {
    EveryHistoryHolds(stage, commands);
  }

  /** The steps of an apply come to the end. */
  predicate StepsComplete(f: Files, staging: Staging, clean: bool) {
    && staging.tree && staging.promotion.Some? && staging.deploy.Some? && staging.rollback.Some? && staging.handoff
    && (clean || f.current.None? || f.current.value in f.trees)
  }

  /**
   * The next record after any commands: a direct promotion names its predecessor, unless the promotion file is foreign
   * and there is one; a promotion inside an apply names none.
   */
  lemma NextRecord(stage: Stage, commands: seq<Command>, version: string, staging: Staging)
    requires forall i :: 0 <= i < |commands| ==> HandedOver(commands[i])
    requires HandedOver(Apply(version, staging, false, true))
    ensures var f := RunAll(stage, commands);
      && (CanActivate(stage, f, version) ==>
            && Run(stage, f, Promote(version, true)).history
                 == f.history + [PromotionRecord(version, PreviousPromotion(stage, f))]
            && (PreviousPromotion(stage, f) == LastPromoted(f) <==> !IsForeign(stage, f) || f.history == []))
      && (stage == ReleaseRoot && staging.applied && StepsComplete(f, staging, false) ==>
            Run(stage, f, Apply(version, staging, false, true)).history == f.history + [PromotionRecord(version, None)])
  {
    EveryHistoryHolds(stage, commands);
  }

  // ---------------------------------------------------------------------------------------------------------------
  // Manifests, link and history agree
  // ---------------------------------------------------------------------------------------------------------------

  /** Promotion, deploy and rollback manifests agree with the last record. */
  predicate AgreesWithHistory(stage: Stage, f: Files) {
    if f.history == [] then f.promotion == None
    else
      var last := f.history[|f.history| - 1];
      && f.promotion == Some(PromotionManifest(stage, last.promotedVersion, last.previousPromotedVersion))
      && f.deploy == Some(DeployManifest(last.promotedVersion, last.promotedVersion, last.previousPromotedVersion))
      && f.rollback == Some(RollbackManifest(last.promotedVersion, last.previousPromotedVersion))
  }

  /** `current` points at the version that was activated last, and that is there. */
  predicate CurrentIsActive(f: Files) {
    && (f.activation.Some? <==> f.current.Some?)
    && (f.activation.Some? ==> f.current == Some(f.activation.value.activeVersion) && f.current.value in f.trees)
  }

  predicate Consistent(stage: Stage, f: Files) {
    AgreesWithHistory(stage, f) && HistoryIsLinked(stage, f.history) && CurrentIsActive(f)
  }

  /** The first version of the sandbox whose tree is missing. */
  function FirstMissing(sources: seq<Source>): Option<string> {
    if sources == [] then None
    else if !sources[0].present then Some(sources[0].version)
    else FirstMissing(sources[1..])
  }

  /**
   * The commands after which link, manifests and history no longer agree: those that take away the tree of the active
   * version and then throw, those that relink to a listed version without a tree, and an apply that has copied the
   * staged promotion manifest and does not come to the end.
   */
  predicate Breaks(stage: Stage, f: Files, command: Command) {
    match command
    case Pack(_, _) => false
    case PackShadow(sources, _, clean, _) =>
      stage == Shadow && !clean && f.current.Some? && FirstMissing(sources) == f.current
    case Reset => false
    case Activate(version) => IsAvailable(stage, f, version) && version !in f.trees
    case Promote(version, _) => IsAvailable(stage, f, version) && version !in f.trees
    case Apply(version, staging, clean, readable) =>
      && stage == ReleaseRoot && staging.applied
      && if !staging.tree then !clean && f.current == Some(version)
         else staging.promotion.Some?
              && !(staging.deploy.Some? && staging.rollback.Some? && staging.handoff && readable)
  }

  lemma {:induction false} CopyReleasesEffect(trees: set<string>, sources: seq<Source>)
    ensures CopyReleases(trees, sources).1 <==> FirstMissing(sources) == None
    ensures forall v :: v in CopyReleases(trees, sources).0 ==> v in trees || v in VersionsOf(sources)
    ensures forall v :: v in trees && FirstMissing(sources) != Some(v) ==> v in CopyReleases(trees, sources).0
    ensures FirstMissing(sources) == None ==> VersionsOf(sources) <= CopyReleases(trees, sources).0
    ensures FirstMissing(sources).Some? ==> FirstMissing(sources).value !in CopyReleases(trees, sources).0
    decreases |sources|
  {
    if sources != [] && sources[0].present {
      CopyReleasesEffect(trees + {sources[0].version}, sources[1..]);
      VersionsOfTail(sources);
    } else if sources != [] {
      VersionsOfTail(sources);
    }
  }

  lemma VersionsOfTail(sources: seq<Source>)
    requires sources != []
    ensures VersionsOf(sources) == {sources[0].version} + VersionsOf(sources[1..])
  {
    forall v ensures v in VersionsOf(sources) <==> v == sources[0].version || v in VersionsOf(sources[1..]) {
      if v in VersionsOf(sources) {
        var i :| 0 <= i < |sources| && sources[i].version == v;
        assert i > 0 ==> sources[1..][i - 1].version == v;
      }
      if v in VersionsOf(sources[1..]) {
        var i :| 0 <= i < |sources[1..]| && sources[1..][i].version == v;
        assert sources[i + 1].version == v;
      }
    }
  }

  lemma {:induction false} PresentThroughout(sources: seq<Source>)
    ensures FirstMissing(sources) == None <==> forall i :: 0 <= i < |sources| ==> sources[i].present
    decreases |sources|
  {
    if sources != [] {
      PresentThroughout(sources[1..]);
      assert forall i :: 0 <= i < |sources| - 1 ==> sources[1..][i] == sources[i + 1];
      if FirstMissing(sources) == None {
        forall i | 0 <= i < |sources| ensures sources[i].present {
          assert i > 0 ==> sources[1..][i - 1].present;
        }
      }
    }
  }

  /** A promotion that comes to the end makes everything agree, whatever was there. */
  lemma PromotedIsConsistent(stage: Stage, f: Files, version: string)
    requires HistoryHolds(stage, f) && version in f.trees
    ensures Consistent(stage, Promoted(stage, f, version))
  {
    HistoryGrows(stage, f.history, PromotionRecord(version, PreviousPromotion(stage, f)));
  }

  lemma ActivationIsConsistentExactly(stage: Stage, f: Files, version: string)
    requires AgreesWithHistory(stage, f) && HistoryIsLinked(stage, f.history)
    requires IsAvailable(stage, f, version) || CurrentIsActive(f)
    ensures Consistent(stage, AfterActivation(stage, f, version)) <==>
      !(IsAvailable(stage, f, version) && version !in f.trees)
  {
  }

  lemma ConsistentHistoryHolds(stage: Stage, f: Files)
    requires AgreesWithHistory(stage, f) && HistoryIsLinked(stage, f.history)
    ensures HistoryHolds(stage, f)
  {
  }

  lemma PromotionIsConsistentExactly(stage: Stage, f: Files, version: string, readable: bool)
    requires AgreesWithHistory(stage, f) && HistoryIsLinked(stage, f.history)
    requires IsAvailable(stage, f, version) || CurrentIsActive(f)
    ensures Consistent(stage, AfterPromotion(stage, f, version, readable)) <==>
      !(IsAvailable(stage, f, version) && version !in f.trees)
  {
    ConsistentHistoryHolds(stage, f);
    ActivationIsConsistentExactly(stage, f, version);
    if CanActivate(stage, f, version) {
      PromotedIsConsistent(stage, f, version);
    }
  }

  lemma PackShadowIsConsistentExactly(f: Files, sources: seq<Source>, version: string, clean: bool, readable: bool)
    requires Consistent(Shadow, f) && version in VersionsOf(sources)
    ensures Consistent(Shadow, AfterPackShadow(f, sources, version, clean, readable)) <==>
      !Breaks(Shadow, f, PackShadow(sources, version, clean, readable))
  {
    var start := if clean then EMPTY else f;
    var trees := CopyReleases(start.trees, sources).0;
    CopyReleasesEffect(start.trees, sources);
    assert Consistent(Shadow, start);
    if FirstMissing(sources) == None {
      CopiedIsConsistent(start, trees, sources, version, readable);
    } else {
      LosingATreeBreaksExactly(Shadow, start, trees, FirstMissing(sources).value);
    }
  }

  lemma CopiedIsConsistent(f: Files, trees: set<string>, sources: seq<Source>, version: string, readable: bool)
    requires Consistent(Shadow, f) && version in VersionsOf(sources) && VersionsOf(sources) <= trees
    ensures var linked := f.(trees := trees, current := Some(version), listed := VersionsOf(sources));
      Consistent(Shadow, AfterPromotion(Shadow, linked, version, readable))
  {
    var linked := f.(trees := trees, current := Some(version), listed := VersionsOf(sources));
    PromotionIsConsistentExactly(Shadow, linked, version, readable);
  }

  /** When one tree is gone and the others are there, that matters exactly if it was the active one. */
  lemma LosingATreeBreaksExactly(stage: Stage, f: Files, trees: set<string>, lost: string)
    requires Consistent(stage, f) && lost !in trees && forall v :: v in f.trees && v != lost ==> v in trees
    ensures Consistent(stage, f.(trees := trees)) <==> f.current != Some(lost)
  {
  }

  /** An apply from a start with a linked history and a link that is not in the way. */
  lemma CompleteStepsAreConsistentIfReadable(f: Files, version: string, staging: Staging, readable: bool)
    requires HistoryIsLinked(ReleaseRoot, f.history) && !LinkIsInTheWay(f)
    requires staging.tree && staging.promotion.Some? && staging.promotion.value.kind != ReleaseRoot
    ensures var (done, ok) := CopySteps(f, version, staging);
      && (ok <==> staging.deploy.Some? && staging.rollback.Some? && staging.handoff)
      && (Consistent(ReleaseRoot, if ok then AfterPromotion(ReleaseRoot, done, version, readable) else done) <==>
            ok && readable)
  {
    var done := CopySteps(f, version, staging).0;
    assert IsForeign(ReleaseRoot, done) && done.history == f.history;
    if CopySteps(f, version, staging).1 && readable {
      PromotedIsConsistent(ReleaseRoot, done, version);
    }
  }

  lemma ApplyIsConsistentExactly(f: Files, version: string, staging: Staging, clean: bool, readable: bool)
    requires Consistent(ReleaseRoot, f) && HandedOver(Apply(version, staging, clean, readable))
    ensures Consistent(ReleaseRoot, AfterApply(f, version, staging, clean, readable)) <==>
      !Breaks(ReleaseRoot, f, Apply(version, staging, clean, readable))
  {
    var start := if clean then EMPTY else f;
    assert Consistent(ReleaseRoot, start);
    if staging.applied && !staging.tree {
      LosingATreeBreaksExactly(ReleaseRoot, start, start.trees - {version}, version);
    } else if staging.applied && staging.promotion.Some? {
      CompleteStepsAreConsistentIfReadable(start, version, staging, readable);
    }
  }

  lemma PackIsConsistent(f: Files, version: string, completes: bool)
    requires Consistent(Sandbox, f)
    ensures Consistent(Sandbox, AfterPack(f, version, completes))
  {
  }

  /** The exact condition under which a command, wherever it stops, keeps everything in agreement. */
  lemma CommandKeepsConsistent(stage: Stage, f: Files, command: Command)
    requires Consistent(stage, f) && HandedOver(command)
    ensures Consistent(stage, Run(stage, f, command)) <==> !Breaks(stage, f, command)
  {
    match command
    case Pack(version, completes) =>
      if stage == Sandbox {
        PackIsConsistent(f, version, completes);
      }
    case PackShadow(sources, version, clean, readable) =>
      if stage == Shadow {
        PackShadowIsConsistentExactly(f, sources, version, clean, readable);
      }
    case Reset =>
    case Activate(version) => ActivationIsConsistentExactly(stage, f, version);
    case Promote(version, readable) => PromotionIsConsistentExactly(stage, f, version, readable);
    case Apply(version, staging, clean, readable) =>
      if stage == ReleaseRoot {
        ApplyIsConsistentExactly(f, version, staging, clean, readable);
      }
  }

  /** Commands that do not break anything leave everything in agreement, however many there are. */
  lemma {:induction false} EverySequenceIsConsistent(stage: Stage, commands: seq<Command>)
    requires forall i :: 0 <= i < |commands| ==>
      HandedOver(commands[i]) && !Breaks(stage, RunAll(stage, commands[..i]), commands[i])
    ensures Consistent(stage, RunAll(stage, commands))
    decreases |commands|
  {
    if commands != [] {
      var n := |commands| - 1;
      forall i | 0 <= i < n ensures !Breaks(stage, RunAll(stage, commands[..n][..i]), commands[..n][i]) {
        assert commands[..n][..i] == commands[..i];
      }
      EverySequenceIsConsistent(stage, commands[..n]);
      CommandKeepsConsistent(stage, RunAll(stage, commands[..n]), commands[n]);
    }
  }

  lemma FinishedApplyRepairs(f: Files, version: string, staging: Staging, clean: bool)
    requires HistoryHolds(ReleaseRoot, f) && staging.applied && StepsComplete(f, staging, clean)
    requires HandedOver(Apply(version, staging, clean, true))
    ensures Consistent(ReleaseRoot, AfterApply(f, version, staging, clean, true))
  {
    var start := if clean then EMPTY else f;
    CopyStepsKeepHistory(start, version, staging);
    PromotedIsConsistent(ReleaseRoot, CopySteps(start, version, staging).0, version);
  }

  /** After any commands, those that broke something included, a promotion that comes to the end repairs everything. */
  lemma FinishedPromotionRepairs(stage: Stage, commands: seq<Command>, version: string, staging: Staging, clean: bool)
    requires forall i :: 0 <= i < |commands| ==> HandedOver(commands[i])
    requires HandedOver(Apply(version, staging, clean, true))
    ensures var f := RunAll(stage, commands);
      && (CanActivate(stage, f, version) ==> Consistent(stage, Run(stage, f, Promote(version, true))))
      && (stage == ReleaseRoot && staging.applied && StepsComplete(f, staging, clean) ==>
            Consistent(stage, Run(stage, f, Apply(version, staging, clean, true))))
  {
    EveryHistoryHolds(stage, commands);
    var f := RunAll(stage, commands);
    if CanActivate(stage, f, version) {
      PromotedIsConsistent(stage, f, version);
    }
    if stage == ReleaseRoot && staging.applied && StepsComplete(f, staging, clean) {
      FinishedApplyRepairs(f, version, staging, clean);
    }
  }

  /**
   * Two inputs that break a root on which `version` was applied: another apply of it without cleaning, once its staged
   * tree is gone, and one whose staged hand-off manifest is missing.
   */
  lemma SecondApplyCanBreak(version: string, staging: Staging)
    requires StepsComplete(EMPTY, staging, true) && staging.applied
    requires HandedOver(Apply(version, staging, true, true))
    ensures var f := RunAll(ReleaseRoot, [Apply(version, staging, true, true)]);
      && Consistent(ReleaseRoot, f)
      && !Consistent(ReleaseRoot, Run(ReleaseRoot, f, Apply(version, staging.(tree := false), false, true)))
      && !Consistent(ReleaseRoot, Run(ReleaseRoot, f, Apply(version, staging.(handoff := false), false, true)))
  {
    var commands := [Apply(version, staging, true, true)];
    assert commands[..0] == [] && RunAll(ReleaseRoot, []) == EMPTY;
    EverySequenceIsConsistent(ReleaseRoot, commands);
    var f := RunAll(ReleaseRoot, commands);
    assert f.current == Some(version);
    CommandKeepsConsistent(ReleaseRoot, f, Apply(version, staging.(tree := false), false, true));
    CommandKeepsConsistent(ReleaseRoot, f, Apply(version, staging.(handoff := false), false, true));
  }

  // ---------------------------------------------------------------------------------------------------------------
  // Activations
  // ---------------------------------------------------------------------------------------------------------------

  /** The command removes the root of the stage before anything else. */
  predicate Cleans(stage: Stage, command: Command) {
    match command
    case Reset => true
    case PackShadow(_, _, clean, _) => stage == Shadow && clean
    case Apply(_, staging, clean, _) => stage == ReleaseRoot && staging.applied && clean
    case _ => false
  }

  /** The version whose activation file the command comes to write, if it does. */
  function ActivatedVersion(stage: Stage, f: Files, command: Command): Option<string> {
    match command
    case Pack(version, completes) => if stage == Sandbox && completes then Some(version) else None
    case PackShadow(sources, version, clean, _) =>
      if stage == Shadow && FirstMissing(sources) == None && version in VersionsOf(sources)
         && (clean || f.current.None? || f.current.value in f.trees || f.current.value in VersionsOf(sources))
      then Some(version) else None
    case Reset => None
    case Activate(version) => if CanActivate(stage, f, version) then Some(version) else None
    case Promote(version, _) => if CanActivate(stage, f, version) then Some(version) else None
    case Apply(version, staging, clean, _) =>
      if stage == ReleaseRoot && staging.applied && staging.tree && staging.promotion.Some? && staging.deploy.Some?
         && staging.rollback.Some? && staging.handoff
         && (clean || f.current.None? || f.current.value in f.trees || f.current == Some(version))
      then Some(version) else None
  }

  /** The versions activated since the root was last removed, in order. */
  function Activations(stage: Stage, commands: seq<Command>): seq<string> {
    if commands == [] then []
    else
      var before, last := commands[..|commands| - 1], commands[|commands| - 1];
      var kept := if Cleans(stage, last) then [] else Activations(stage, before);
      match ActivatedVersion(stage, RunAll(stage, before), last)
      case None => kept
      case Some(version) => kept + [version]
  }

  /** The activation file that belongs to a list of activations. */
  function LastActivation(versions: seq<string>): Option<Activation> {
    if versions == [] then None
    else
      Some(Activation(versions[|versions| - 1], if |versions| == 1 then None else Some(versions[|versions| - 2])))
  }

  lemma CommandActivates(stage: Stage, f: Files, command: Command)
    requires HandedOver(command)
    ensures var before := if Cleans(stage, command) then None else f.activation;
      Run(stage, f, command).activation ==
        match ActivatedVersion(stage, f, command)
        case None => before
        case Some(version) =>
          Some(Activation(version, if before.None? then None else Some(before.value.activeVersion)))
  {
    match command
    case PackShadow(sources, version, clean, readable) =>
      if stage == Shadow {
        PackShadowActivates(f, sources, version, clean, readable);
      }
    case Apply(version, staging, clean, readable) =>
      if stage == ReleaseRoot {
        ApplyActivates(f, version, staging, clean, readable);
      }
    case _ =>
  }

  lemma PromotionActivates(stage: Stage, f: Files, version: string, readable: bool)
    ensures AfterPromotion(stage, f, version, readable).activation ==
      if CanActivate(stage, f, version) then Activated(f, version).activation else f.activation
  {
  }

  lemma PackShadowActivates(f: Files, sources: seq<Source>, version: string, clean: bool, readable: bool)
    requires version in VersionsOf(sources)
    ensures var before := if clean then None else f.activation;
      AfterPackShadow(f, sources, version, clean, readable).activation ==
        if ActivatedVersion(Shadow, f, PackShadow(sources, version, clean, readable)).None? then before
        else Some(Activation(version, if before.None? then None else Some(before.value.activeVersion)))
  {
    var start := if clean then EMPTY else f;
    var (trees, ok) := CopyReleases(start.trees, sources);
    CopyReleasesEffect(start.trees, sources);
    var copied := start.(trees := trees);
    if ok && !LinkIsInTheWay(copied) {
      PromotionActivates(Shadow, copied.(current := Some(version), listed := VersionsOf(sources)), version, readable);
    }
  }

  lemma ApplyActivates(f: Files, version: string, staging: Staging, clean: bool, readable: bool)
    ensures var before := if staging.applied && clean then None else f.activation;
      AfterApply(f, version, staging, clean, readable).activation ==
        if ActivatedVersion(ReleaseRoot, f, Apply(version, staging, clean, readable)).None? then before
        else Some(Activation(version, if before.None? then None else Some(before.value.activeVersion)))
  {
    var start := if clean then EMPTY else f;
    var (done, ok) := CopySteps(start, version, staging);
    assert done.activation == start.activation;
    if ok {
      PromotionActivates(ReleaseRoot, done, version, readable);
    }
  }

  /** Command `i` packs the version, to the end if that is asked for, and no reset comes after it. */
  ghost predicate IsPackedBy(commands: seq<Command>, i: nat, version: string, toTheEnd: bool) {
    && i < |commands| && commands[i].Pack? && commands[i].version == version && (toTheEnd ==> commands[i].completes)
    && forall j :: i < j < |commands| ==> commands[j] != Reset
  }

  lemma PackedWithOneMore(commands: seq<Command>, version: string, toTheEnd: bool)
    requires commands != []
    ensures var last, before := commands[|commands| - 1], commands[..|commands| - 1];
      (exists i: nat :: IsPackedBy(commands, i, version, toTheEnd)) <==>
        || (last.Pack? && last.version == version && (toTheEnd ==> last.completes))
        || (last != Reset && exists i: nat :: IsPackedBy(before, i, version, toTheEnd))
  {
    var n := |commands| - 1;
    var last, before := commands[n], commands[..n];
    if last.Pack? && last.version == version && (toTheEnd ==> last.completes) {
      assert IsPackedBy(commands, n, version, toTheEnd);
    }
    forall i: nat | i < n && last != Reset
      ensures IsPackedBy(before, i, version, toTheEnd) <==> IsPackedBy(commands, i, version, toTheEnd)
    {
      assert before[i] == commands[i] && forall j :: i < j < n ==> before[j] == commands[j];
    }
  }

  /** The sandbox lists what was packed to the end since the last reset, and holds the trees of all that was packed. */
  lemma {:induction false} SandboxHoldsWhatWasPacked(commands: seq<Command>, version: string)
    ensures version in RunAll(Sandbox, commands).listed <==> exists i: nat :: IsPackedBy(commands, i, version, true)
    ensures version in RunAll(Sandbox, commands).trees <==> exists i: nat :: IsPackedBy(commands, i, version, false)
    decreases |commands|
  {
    if commands != [] {
      SandboxHoldsWhatWasPacked(commands[..|commands| - 1], version);
      PackedWithOneMore(commands, version, true);
      PackedWithOneMore(commands, version, false);
    }
  }

  /** After any commands the activation file names the version activated last and the one activated before it. */
  lemma {:induction false} ActivationNamesThePrevious(stage: Stage, commands: seq<Command>)
    requires forall i :: 0 <= i < |commands| ==> HandedOver(commands[i])
    ensures RunAll(stage, commands).activation == LastActivation(Activations(stage, commands))
    decreases |commands|
  {
    if commands != [] {
      var before, last := commands[..|commands| - 1], commands[|commands| - 1];
      ActivationNamesThePrevious(stage, before);
      CommandActivates(stage, RunAll(stage, before), last);
    }
  }

  // ---------------------------------------------------------------------------------------------------------------
  // The commands as they run
  // ---------------------------------------------------------------------------------------------------------------

  class Target {
    const stage: Stage
    var trees: set<string>
    var listed: set<string>
    var current: Option<string>
    var activation: Option<Activation>
    var promotion: Option<PromotionManifest>
    var history: seq<PromotionRecord>
    var deploy: Option<DeployManifest>
    var rollback: Option<RollbackManifest>

    constructor (stage: Stage)
      ensures this.stage == stage && Snapshot() == EMPTY
    {
      this.stage := stage;
      trees, listed, current, activation := {}, {}, None, None;
      promotion, history, deploy, rollback := None, [], None, None;
    }

    function Snapshot(): Files
      reads this
    {
      Files(trees, listed, current, activation, promotion, history, deploy, rollback)
    }

    /** Removes the root of the stage. */
    method Clean()
      modifies this
      ensures Snapshot() == EMPTY
    {
      trees, listed, current, activation := {}, {}, None, None;
      promotion, history, deploy, rollback := None, [], None, None;
    }

    /** Replaces the link, looks where it leads, and writes the activation file. */
    method ActivateVersion(version: string) returns (ok: bool)
      modifies this
      ensures ok <==> CanActivate(stage, old(Snapshot()), version)
      ensures Snapshot() == Run(stage, old(Snapshot()), Activate(version))
    {
      if version !in (if stage == ReleaseRoot then trees else listed) {
        return false;
      }
      var previous := if activation.None? then None else Some(activation.value.activeVersion);
      current := Some(version);
      if version !in trees {
        return false;
      }
      activation := Some(Activation(version, previous));
      return true;
    }

    /** Reads the previous promotion, activates, reads what the version brings, and overwrites the four files. */
    method PromoteVersion(version: string, readable: bool) returns (ok: bool)
      modifies this
      ensures ok <==> CanActivate(stage, old(Snapshot()), version) && readable
      ensures Snapshot() == Run(stage, old(Snapshot()), Promote(version, readable))
    {
      var previous := None;
      if promotion.Some? && (stage != ReleaseRoot || promotion.value.kind == ReleaseRoot) {
        previous := Some(promotion.value.promotedVersion);
      }
      ok := ActivateVersion(version);
      if !ok || !readable {
        return false;
      }
      var next := history + [PromotionRecord(version, previous)];
      promotion := Some(PromotionManifest(stage, version, previous));
      history := next;
      deploy := Some(DeployManifest(activation.value.activeVersion, version, previous));
      rollback := Some(RollbackManifest(version, previous));
    }

    /** The steps of the release-root apply, up to the first that throws. */
    method CopyStaged(version: string, staging: Staging) returns (ok: bool)
      modifies this
      ensures (Snapshot(), ok) == CopySteps(old(Snapshot()), version, staging)
    {
      trees := trees - {version};
      if !staging.tree {
        return false;
      }
      trees := trees + {version};
      assert trees == old(trees) + {version};
      if staging.promotion.None? {
        return false;
      }
      promotion := staging.promotion;
      if staging.deploy.None? {
        return false;
      }
      deploy := staging.deploy;
      if staging.rollback.None? {
        return false;
      }
      rollback := staging.rollback;
      if !staging.handoff {
        return false;
      }
      if current.Some? && current.value !in trees {
        return false;
      }
      current := Some(version);
      return true;
    }

    /** The release-root apply: needs the staging's apply manifest, then cleans, runs the steps and promotes. */
    method ApplyStaged(version: string, staging: Staging, clean: bool, readable: bool) returns (ok: bool)
      requires stage == ReleaseRoot
      modifies this
      ensures Snapshot() == Run(stage, old(Snapshot()), Apply(version, staging, clean, readable))
      ensures ok <==>
        staging.applied && CopySteps(if clean then EMPTY else old(Snapshot()), version, staging).1 && readable
    {
      if !staging.applied {
        return false;
      }
      if clean {
        Clean();
      }
      ok := CopyStaged(version, staging);
      if ok {
        ok := PromoteVersion(version, readable);
      }
    }

    /** Takes over the sandbox's releases one by one, relinks, writes the inventory and promotes. */
    method PackReleases(sources: seq<Source>, version: string, clean: bool, readable: bool) returns (ok: bool)
      requires stage == Shadow
      modifies this
      ensures Snapshot() == Run(stage, old(Snapshot()), PackShadow(sources, version, clean, readable))
      ensures ok <==>
        && readable && version in VersionsOf(sources)
        && var start := if clean then EMPTY else old(Snapshot());
           var (trees, all) := CopyReleases(start.trees, sources);
           all && !LinkIsInTheWay(start.(trees := trees))
      ensures ok ==> forall v :: v in listed <==> exists i :: 0 <= i < |sources| && sources[i].version == v
      ensures ok ==> forall i :: 0 <= i < |sources| ==> sources[i].present && sources[i].version in trees
    {
      if clean {
        Clean();
      }
      ghost var start := Snapshot();
      assert sources[0..] == sources;
      for i := 0 to |sources|
        invariant Snapshot() == start.(trees := trees)
        invariant CopyReleases(start.trees, sources) == CopyReleases(trees, sources[i..])
      {
        assert sources[i..][0] == sources[i] && sources[i..][1..] == sources[i + 1..];
        ghost var before := trees;
        trees := trees - {sources[i].version};
        if !sources[i].present {
          return false;
        }
        trees := trees + {sources[i].version};
        assert trees == before + {sources[i].version};
      }
      if current.Some? && current.value !in trees {
        return false;
      }
      CopyReleasesEffect(start.trees, sources);
      PresentThroughout(sources);
      current, listed := Some(version), VersionsOf(sources);
      assert forall i :: 0 <= i < |sources| ==> sources[i].version in VersionsOf(sources);
      ok := PromoteVersion(version, readable);
    }
  }
}
