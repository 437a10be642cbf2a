/**
 * A run of storage maintenance: the watermark test, the guarded removal loop, and what it leaves of a release root that
 * cutover and rollback work on.
 */
module MaintenanceRun {
  import opened Prelude
  import opened Retention
  import opened FileTree
  import opened Cutover
  import opened StorageMaintenance

  // ---------------------------------------------------------------------------------------------------------------
  // The watermark
  // ---------------------------------------------------------------------------------------------------------------

  /** What `statfs` reports. */
  datatype Usage = Usage(blocks: nat, free: nat, available: nat, blockSize: nat)
  {
    ghost predicate Valid() { free <= blocks }

    function Used(): int { (blocks - free) * blockSize }

    function Capacity(): int { Used() + available * blockSize }

    /** Hundredths of a percent, truncated, as a percentage. */
    function UsedPercent(): real
      requires Valid()
    {
      if Capacity() == 0 then 0.0 else (Used() * 10000 / Capacity()) as real / 100.0
    }
  }

  lemma QuotientReaches(a: nat, b: nat, c: nat)
    requires b > 0
    ensures a / b >= c <==> a >= c * b
  {
    if a / b >= c {
      assert a >= (a / b) * b >= c * b;
    } else {
      assert a < (a / b + 1) * b <= c * b;
    }
  }

  /** Used bytes against used and available ones; blocks reserved for root count as neither. */
  ghost predicate IsReached(u: Usage, percent: nat) {
    var used, available := (u.blocks - u.free) * u.blockSize, u.available * u.blockSize;
    if used + available == 0 then percent == 0 else used * 100 >= percent * (used + available)
  }

  /** Truncation does not matter for a threshold of whole percents. */
  lemma WatermarkIsExact(u: Usage, percent: nat)
    requires u.Valid()
    ensures u.UsedPercent() >= percent as real <==> IsReached(u, percent)
  {
    var used, capacity := u.Used(), u.Capacity();
    assert used >= 0 && capacity >= 0;
    if capacity > 0 {
      QuotientReaches(used * 10000, capacity, 100 * percent);
      assert 100 * percent * capacity == 100 * (percent * capacity);
    }
  }

  datatype Mode = DryRun | Apply

  predicate ShouldApplyMaintenance(mode: Mode, usedPercent: real, highWatermark: nat, blockers: nat) {
    mode == Apply && usedPercent >= highWatermark as real && blockers == 0
  }

  // ---------------------------------------------------------------------------------------------------------------
  // What protects a release
  // ---------------------------------------------------------------------------------------------------------------

  /** The version that `current` leads to, when that is a child of `releases`. */
  function ResolveActiveRelease(t: Tree, s: Site): Option<string> {
    match Lookup(t, s.Current())
    case Some(Link(target)) =>
      if !Exists(t, target) || !Exists(t, s.Releases()) then None
      else
        var found := RealPath(t, target);
        if found == [] || Parent(found) != RealPath(t, s.Releases()) then None else Some(Base(found))
    case _ => None
  }

  /** A link `current` to a directory names the active release exactly when that is a child of `releases`. */
  lemma ActiveReleaseIsAChild(t: Tree, s: Site, to: Path, name: string)
    requires Lookup(t, s.ReleaseRoot() + ["current"]) == Some(Link(to)) && Lookup(t, to) == Some(Dir)
    requires Lookup(t, s.ReleaseRoot() + ["releases"]) == Some(Dir)
    ensures ResolveActiveRelease(t, s) == Some(name) <==> to == s.ReleaseRoot() + ["releases", name]
  {
    assert s.ReleaseRoot() + ["releases"] + [name] == s.ReleaseRoot() + ["releases", name];
    if to != [] {
      assert Parent(to) + [Base(to)] == to;
    }
  }

  /** The component after the last `/releases/` of a path. */
  function ReleaseIn(p: Path): Option<string> {
    if |p| < 2 then None
    else if p[|p| - 2] == "releases" then Some(p[|p| - 1])
    else ReleaseIn(p[..|p| - 1])
  }

  /** A metadata file holds this release name as a string, or in a path. */
  predicate Mentions(content: Content, name: string) {
    match content
    case Text(_) => false
    case Manifest(releases) => name in releases
    case ApplyManifest(version, candidate) =>
      version == name || (candidate.Some? && ReleaseIn(candidate.value) == Some(name))
    case History(records) =>
      exists i :: 0 <= i < |records| && (records[i].version == name || records[i].previousVersion == Some(name))
  }

  predicate IsJson(name: string) {
    |name| >= 5 && name[|name| - 5..] == ".json"
  }

  function ReadReleaseMetadataNames(t: Tree, s: Site, releases: set<string>): set<string> {
    set name | name in releases
      && exists p :: p in t && p != [] && Parent(p) == s.Meta() && IsJson(Base(p)) && t[p].File?
           && Mentions(t[p].content, name)
  }

  /** `name` comes after the last component `releases` that something comes after. */
  ghost predicate IsReleaseOf(p: Path, name: string) {
    exists i :: 0 <= i < |p| - 1 && p[i] == "releases" && p[i + 1] == name && IsLastMarker(p, i)
  }

  ghost predicate IsLastMarker(p: Path, i: nat) {
    forall j :: i < j < |p| - 1 ==> p[j] != "releases"
  }

  lemma {:induction false} ReleaseInIsExact(p: Path, name: string)
    ensures ReleaseIn(p) == Some(name) <==> IsReleaseOf(p, name)
  {
    var n := |p|;
    if n >= 2 && p[n - 2] == "releases" {
      assert IsLastMarker(p, n - 2);
      forall i | 0 <= i < n - 1 && p[i] == "releases" && IsLastMarker(p, i) ensures i == n - 2 {
      }
    } else if n >= 2 {
      ReleaseInIsExact(p[..n - 1], name);
      forall i | 0 <= i < n - 2 ensures IsLastMarker(p, i) <==> IsLastMarker(p[..n - 1], i) {
        assert forall j :: 0 <= j < n - 1 ==> p[..n - 1][j] == p[j];
      }
      if IsReleaseOf(p, name) {
        var i :| 0 <= i < n - 1 && p[i] == "releases" && p[i + 1] == name && IsLastMarker(p, i);
        assert i != n - 2;
        assert p[..n - 1][i] == "releases" && p[..n - 1][i + 1] == name;
      }
    }
  }

  ghost predicate IsOnRecord(records: seq<HistoryRecord>, name: string) {
    exists record :: record in records && (record.version == name || record.previousVersion == Some(name))
  }

  /**
   * The content names a release: in a manifest's strings, as the version of an apply manifest or the release of its
   * candidate, or as a version in a history.
   */
  ghost predicate Names(content: Content, name: string) {
    || (content.Manifest? && name in content.releases)
    || (content.ApplyManifest? && content.version == name)
    || (content.ApplyManifest? && content.rollbackCandidate.Some? && IsReleaseOf(content.rollbackCandidate.value, name))
    || (content.History? && IsOnRecord(content.records, name))
  }

  /** Some `.json` file among the root's metadata names the release. */
  ghost predicate IsNamedInMetadata(t: Tree, s: Site, name: string) {
    exists file: string, content ::
      && |file| >= 5 && file[|file| - 5..] == ".json"
      && Lookup(t, s.ReleaseRoot() + ["shared", "meta", file]) == Some(File(content)) && Names(content, name)
  }

  lemma MentionsIsNames(content: Content, name: string)
    ensures Mentions(content, name) <==> Names(content, name)
  {
    if content.ApplyManifest? && content.rollbackCandidate.Some? {
      ReleaseInIsExact(content.rollbackCandidate.value, name);
    }
    if content.History? {
      forall i | 0 <= i < |content.records| ensures content.records[i] in content.records {
      }
    }
  }

  /** The metadata names are exactly the releases that some metadata file names. */
  lemma MetadataNamesAreExact(t: Tree, s: Site, releases: set<string>, name: string)
    ensures name in ReadReleaseMetadataNames(t, s, releases) <==> name in releases && IsNamedInMetadata(t, s, name)
  {
    assert s.Meta() == s.ReleaseRoot() + ["shared", "meta"];
    if name in ReadReleaseMetadataNames(t, s, releases) {
      var p :| p in t && p != [] && Parent(p) == s.Meta() && IsJson(Base(p)) && t[p].File?
        && Mentions(t[p].content, name);
      assert p == s.ReleaseRoot() + ["shared", "meta", Base(p)];
      MentionsIsNames(t[p].content, name);
      assert Lookup(t, s.ReleaseRoot() + ["shared", "meta", Base(p)]) == Some(File(t[p].content));
    }
    if name in releases && IsNamedInMetadata(t, s, name) {
      var file: string, content :| |file| >= 5 && file[|file| - 5..] == ".json"
        && Lookup(t, s.ReleaseRoot() + ["shared", "meta", file]) == Some(File(content)) && Names(content, name);
      var p := s.ReleaseRoot() + ["shared", "meta", file];
      assert Parent(p) == s.Meta() && Base(p) == file;
      MentionsIsNames(content, name);
    }
  }

  lemma {:induction false} ReleaseInRelease(s: Site, v: string)
    ensures ReleaseIn(s.Releases() + [v]) == Some(v)
  {
    assert (s.Releases() + [v])[|s.Releases()| - 1] == "releases";
  }

  lemma ActiveReleaseIsFound(t: Tree, s: Site, v: string)
    requires Sound(t, s) && s.Releases() + [v] in t
    ensures IsActive(t, s, v) <==> ResolveActiveRelease(t, s) == Some(v)
  {
    assert Parent(s.Releases() + [v]) == s.Releases() && Parent(s.Releases() + [v]) in t;
    if s.Current() in t {
      var w :| IsActive(t, s, w);
      var to := s.Releases() + [w];
      assert Exists(t, to) && RealPath(t, to) == to && Parent(to) == s.Releases() && Base(to) == w;
      assert Exists(t, s.Releases()) && RealPath(t, s.Releases()) == s.Releases();
      assert ResolveActiveRelease(t, s) == Some(w);
      if IsActive(t, s, v) {
        ActiveIsUnique(t, s, v, w);
      }
    }
  }

  lemma CandidateIsMentioned(t: Tree, s: Site, releases: set<string>, v: string)
    requires Candidate(t, s) == Some(s.Releases() + [v]) && v in releases
    ensures v in ReadReleaseMetadataNames(t, s, releases)
  {
    ReleaseInRelease(s, v);
    var p := s.ApplyFile();
    assert p in t && Parent(p) == s.Meta() && Base(p) == "cutover-apply.json" && IsJson("cutover-apply.json");
    assert Mentions(t[p].content, v);
  }

  /** In a sound root the active release is found, and the version a rollback would return to is mentioned. */
  lemma SoundRootProtects(t: Tree, s: Site, releases: set<string>, v: string)
    requires Sound(t, s) && s.Releases() + [v] in t && v in releases
    ensures IsActive(t, s, v) <==> ResolveActiveRelease(t, s) == Some(v)
    ensures Candidate(t, s) == Some(s.Releases() + [v]) ==> v in ReadReleaseMetadataNames(t, s, releases)
  {
    ActiveReleaseIsFound(t, s, v);
    if Candidate(t, s) == Some(s.Releases() + [v]) {
      CandidateIsMentioned(t, s, releases, v);
    }
  }

  // ---------------------------------------------------------------------------------------------------------------
  // Removing releases
  // ---------------------------------------------------------------------------------------------------------------

  ghost predicate InOneOf(s: Site, names: set<string>, p: Path) {
    exists name :: name in names && Within(p, s.Releases() + [name])
  }

  /** `u` is `t` without some of what lies in these releases. */
  ghost predicate TakesOnlyFrom(t: Tree, u: Tree, s: Site, names: set<string>) {
    && WellFormed(u)
    && (forall p :: p in u ==> p in t && u[p] == t[p])
    && forall p :: p in t && p !in u ==> InOneOf(s, names, p)
  }

  lemma TakingKeepsRest(t: Tree, u: Tree, s: Site, names: set<string>)
    requires TakesOnlyFrom(t, u, s, names)
    ensures forall name: string :: Lookup(u, s.Meta() + [name]) == Lookup(t, s.Meta() + [name])
    ensures Lookup(u, s.Current()) == Lookup(t, s.Current())
    ensures forall w: string :: w !in names ==> Lookup(u, s.Releases() + [w]) == Lookup(t, s.Releases() + [w])
  {
    var n := |s.ReleaseRoot()|;
    assert forall v: string :: (s.Releases() + [v])[n] == "releases";
    assert s.Current()[n] == "current" && forall name: string :: (s.Meta() + [name])[n] == "shared";
    assert forall w: string :: (s.Releases() + [w])[n + 1] == w;
  }

  lemma TakingKeepsShape(t: Tree, u: Tree, s: Site, names: set<string>)
    requires WellShaped(t, s) && TakesOnlyFrom(t, u, s, names)
    ensures WellShaped(u, s)
  {
    forall i | 0 <= i < 6 ensures Clear(u, s.LayoutOf("").Directories()[i]) {
      assert Clear(t, s.LayoutOf("").Directories()[i]);
    }
  }

  lemma SameMetadataReadsAlike(t: Tree, u: Tree, s: Site)
    requires forall name: string :: Lookup(u, s.Meta() + [name]) == Lookup(t, s.Meta() + [name])
    ensures ReadHistory(u, s) == ReadHistory(t, s) && ReadApply(u, s) == ReadApply(t, s)
    ensures Candidate(u, s) == Candidate(t, s)
  {
    assert s.ApplyFile() == s.Meta() + ["cutover-apply.json"];
    assert s.HistoryFile() == s.Meta() + ["cutover-history.json"];
  }

  lemma TakingKeepsBookkeeping(t: Tree, u: Tree, s: Site, names: set<string>)
    requires TakesOnlyFrom(t, u, s, names)
    ensures ReadHistory(u, s) == ReadHistory(t, s) && ReadApply(u, s) == ReadApply(t, s)
    ensures Candidate(u, s) == Candidate(t, s)
  {
    TakingKeepsRest(t, u, s, names);
    SameMetadataReadsAlike(t, u, s);
  }

  lemma ActiveAfterTaking(t: Tree, u: Tree, s: Site, names: set<string>, w: string)
    requires TakesOnlyFrom(t, u, s, names)
    ensures IsActive(u, s, w) <==> IsActive(t, s, w) && s.Releases() + [w] in u
  {
    TakingKeepsRest(t, u, s, names);
  }

  /** What removals cannot take from a sound root. */
  ghost predicate Spares(t: Tree, s: Site, name: string) {
    !IsActive(t, s, name) && Candidate(t, s) != Some(s.Releases() + [name])
  }

  /** The versions pointed at are there. */
  ghost predicate KeepsWhatIsPointedAt(t: Tree, u: Tree, s: Site, names: set<string>) {
    forall name :: name in names ==> Spares(t, s, name) || s.Releases() + [name] in u
  }

  lemma ActiveIsKept(t: Tree, u: Tree, s: Site, names: set<string>, w: string)
    requires TakesOnlyFrom(t, u, s, names) && KeepsWhatIsPointedAt(t, u, s, names) && IsActive(t, s, w)
    ensures IsActive(u, s, w)
  {
    TakingKeepsRest(t, u, s, names);
    ActiveAfterTaking(t, u, s, names, w);
    assert w !in names ==> Lookup(u, s.Releases() + [w]) == Lookup(t, s.Releases() + [w]);
  }

  lemma CandidateIsKept(t: Tree, u: Tree, s: Site, names: set<string>)
    requires TakesOnlyFrom(t, u, s, names) && KeepsWhatIsPointedAt(t, u, s, names)
    requires HistoryAgrees(t, s) && CandidateIsThere(t, s)
    ensures CandidateIsThere(u, s)
  {
    TakingKeepsBookkeeping(t, u, s, names);
    TakingKeepsRest(t, u, s, names);
    CandidateIsAVersion(t, s);
    if Candidate(t, s).Some? {
      var w: string :| Candidate(t, s).value == s.Releases() + [w];
      assert w !in names ==> Lookup(u, s.Releases() + [w]) == Lookup(t, s.Releases() + [w]);
    }
  }

  lemma SameReadsAgree(t: Tree, u: Tree, s: Site)
    requires HistoryAgrees(t, s) && ReadHistory(u, s) == ReadHistory(t, s) && ReadApply(u, s) == ReadApply(t, s)
    requires ReadHistory(t, s) != [] ==> IsActive(u, s, ReadHistory(t, s)[|ReadHistory(t, s)| - 1].version)
    ensures HistoryAgrees(u, s)
  {
  }

  lemma HistoryIsKept(t: Tree, u: Tree, s: Site, names: set<string>)
    requires TakesOnlyFrom(t, u, s, names) && KeepsWhatIsPointedAt(t, u, s, names) && HistoryAgrees(t, s)
    ensures HistoryAgrees(u, s)
  {
    TakingKeepsBookkeeping(t, u, s, names);
    if ReadHistory(t, s) != [] {
      ActiveIsKept(t, u, s, names, ReadHistory(t, s)[|ReadHistory(t, s)| - 1].version);
    }
    SameReadsAgree(t, u, s);
  }

  lemma TakingKeepsSound(t: Tree, u: Tree, s: Site, names: set<string>)
    requires Sound(t, s) && TakesOnlyFrom(t, u, s, names) && KeepsWhatIsPointedAt(t, u, s, names)
    ensures Sound(u, s)
  {
    TakingKeepsShape(t, u, s, names);
    TakingKeepsRest(t, u, s, names);
    assert s.Current() in u <==> s.Current() in t;
    if s.Current() in t {
      var w :| IsActive(t, s, w);
      ActiveIsKept(t, u, s, names, w);
    }
    CandidateIsKept(t, u, s, names);
    HistoryIsKept(t, u, s, names);
  }

  lemma TakingKeepsActive(t: Tree, u: Tree, s: Site, names: set<string>)
    requires Sound(t, s) && TakesOnlyFrom(t, u, s, names) && KeepsWhatIsPointedAt(t, u, s, names)
    ensures Sound(u, s) && ActiveVersion(u, s) == ActiveVersion(t, s)
  {
    TakingKeepsSound(t, u, s, names);
    TakingKeepsRest(t, u, s, names);
    ActiveVersionOf(t, s);
    ActiveVersionOf(u, s);
    assert s.Current() in u <==> s.Current() in t;
    if s.Current() in t {
      var w :| IsActive(t, s, w);
      ActiveIsKept(t, u, s, names, w);
      ActiveVersionIs(t, s, w);
      ActiveVersionIs(u, s, w);
    }
  }

  lemma LosingActiveBreaks(t: Tree, u: Tree, s: Site, names: set<string>, v: string)
    requires TakesOnlyFrom(t, u, s, names) && IsActive(t, s, v) && s.Releases() + [v] !in u
    ensures !CurrentResolves(u, s)
  {
    TakingKeepsRest(t, u, s, names);
    assert Lookup(u, s.Current()).Some?;
    forall w ensures !IsActive(u, s, w) {
      ActiveAfterTaking(t, u, s, names, w);
      if IsActive(t, s, w) {
        ActiveIsUnique(t, s, v, w);
      }
    }
  }

  /**
   * Whatever part of a release a removal takes, whole or stopped half-way, the invariant of cutover and rollback holds
   * exactly when the directory of the release is still there or the release is neither of the two versions pointed at.
   */
  lemma RemovalKeepsSoundExactly(t: Tree, u: Tree, s: Site, v: string)
    requires Sound(t, s) && TakesOnlyFrom(t, u, s, {v})
    ensures Sound(u, s) <==> s.Releases() + [v] in u || Spares(t, s, v)
  {
    if s.Releases() + [v] in u || Spares(t, s, v) {
      TakingKeepsSound(t, u, s, {v});
    } else if IsActive(t, s, v) {
      LosingActiveBreaks(t, u, s, {v}, v);
    } else {
      TakingKeepsBookkeeping(t, u, s, {v});
    }
  }

  /**
   * What the recursive removals that throw leave of their releases: a path stays when something listed does, at it or
   * below it. The removal of a release that is not a key does not throw.
   */
  type Faults = map<string, set<Path>>

  predicate Stays(kept: set<Path>, p: Path) {
    exists k :: k in kept && Within(k, p)
  }

  predicate IsTaken(s: Site, name: string, faults: Faults, p: Path) {
    Within(p, s.Releases() + [name]) && !(name in faults && Stays(faults[name], p))
  }

  /** The tree after one removal. */
  function AfterRemoval(t: Tree, s: Site, name: string, faults: Faults): Tree {
    map p | p in t && !IsTaken(s, name, faults, p) :: t[p]
  }

  /** The tree after the removals of these releases, in any order. */
  ghost function AfterRemovals(t: Tree, s: Site, names: set<string>, faults: Faults): Tree {
    map p | p in t && !(exists name :: name in names && IsTaken(s, name, faults, p)) :: t[p]
  }

  lemma OneMoreRemoval(t: Tree, s: Site, names: set<string>, name: string, faults: Faults)
    ensures AfterRemoval(AfterRemovals(t, s, names, faults), s, name, faults)
         == AfterRemovals(t, s, names + {name}, faults)
  {
  }

  lemma TakenBelow(s: Site, name: string, faults: Faults, p: Path)
    requires p != [] && IsTaken(s, name, faults, Parent(p))
    ensures IsTaken(s, name, faults, p)
  {
    assert Within(p, Parent(p));
    assert forall k :: Within(k, p) ==> Within(k, Parent(p));
  }

  /** Removals take from the releases they name only, and a removal that does not throw takes its release entirely. */
  lemma RemovalsTakeOnlyReleases(t: Tree, s: Site, names: set<string>, faults: Faults)
    requires WellFormed(t)
    ensures TakesOnlyFrom(t, AfterRemovals(t, s, names, faults), s, names)
    ensures forall name, p :: name in names && name !in faults && Within(p, s.Releases() + [name]) ==>
      p !in AfterRemovals(t, s, names, faults)
  {
    var u := AfterRemovals(t, s, names, faults);
    assert [] in u;
    forall p | p in u && p != [] ensures Parent(p) in u {
      if name :| name in names && IsTaken(s, name, faults, Parent(p)) {
        TakenBelow(s, name, faults, p);
      }
    }
    forall name, p | name in names && name !in faults && Within(p, s.Releases() + [name]) ensures p !in u {
      assert IsTaken(s, name, faults, p);
    }
  }

  // ---------------------------------------------------------------------------------------------------------------
  // The run
  // ---------------------------------------------------------------------------------------------------------------

  datatype Status = Completed | Skipped | Partial

  datatype SkipReason = DryRunRequested | BelowHighWatermark | BlockingOperationActive | TargetReachedBeforePrune

  datatype Report = Report(applied: bool, removed: seq<string>, bytesRemoved: nat, pruneAttempted: bool,
                           errors: nat, skipReasons: seq<SkipReason>, status: Status)

  /** The releases the selection would let go, by name. */
  ghost predicate MayGo(le: NameOrder, entries: seq<Entry>, o: Options, name: string) {
    exists e :: e in entries && e.name == name && IsRemovable(le, entries, o, e)
  }

  ghost function Removable(le: NameOrder, entries: seq<Entry>, o: Options): set<string> {
    set name | name in NamesOf(entries) && MayGo(le, entries, o, name)
  }

  function TotalSize(sizeOf: string -> nat, names: seq<string>): nat {
    if names == [] then 0 else TotalSize(sizeOf, names[..|names| - 1]) + sizeOf(names[|names| - 1])
  }

  datatype Settings = Settings(pinned: set<string>, keep: nat, minAgeDays: nat, now: real, highWatermark: nat,
                               targetWatermark: nat)

  function NamesOf(entries: seq<Entry>): set<string> {
    set i | 0 <= i < |entries| :: entries[i].name
  }

  /** What the selection is asked: the active release and the metadata come from the root itself. */
  function OptionsAt(t: Tree, s: Site, entries: seq<Entry>, settings: Settings): Options {
    Options(ResolveActiveRelease(t, s), settings.pinned, ReadReleaseMetadataNames(t, s, NamesOf(entries)),
            settings.keep, settings.now - settings.minAgeDays as real * 86400000.0)
  }

  /** The inventory lists directories of `releases`, each once. */
  ghost predicate IsReleaseInventory(entries: seq<Entry>, t: Tree, s: Site) {
    && DistinctNames(entries)
    && (entries != [] ==> Lookup(t, s.Releases()) == Some(Dir))
    && forall e :: e in entries ==> Lookup(t, s.Releases() + [e.name]) == Some(Dir)
  }

  /** The other releases that are newer, or as new with a name that comes later. */
  ghost function NewerReleases(le: NameOrder, entries: seq<Entry>, e: Entry): set<Entry> {
    set d | d in entries && d != e && (d.mtime > e.mtime || (d.mtime == e.mtime && le(e.name, d.name)))
  }

  /**
   * A run may remove this release: it is not active, pinned or named in the metadata, at least `keep` others are newer,
   * and it was last modified so many days of 86,400,000 milliseconds ago or earlier.
   */
  ghost predicate MayBeRemoved(le: NameOrder, entries: seq<Entry>, t: Tree, s: Site, settings: Settings, e: Entry) {
    && e in entries && ResolveActiveRelease(t, s) != Some(e.name)
    && e.name !in settings.pinned && !IsNamedInMetadata(t, s, e.name)
    && |NewerReleases(le, entries, e)| >= settings.keep
    && settings.now - e.mtime >= settings.minAgeDays as real * 86400000.0
  }

  lemma RemovableIsExact(le: NameOrder, entries: seq<Entry>, t: Tree, s: Site, settings: Settings, e: Entry)
    requires e in entries
    ensures IsRemovable(le, entries, OptionsAt(t, s, entries, settings), e) <==>
      MayBeRemoved(le, entries, t, s, settings, e)
  {
    MetadataNamesAreExact(t, s, NamesOf(entries), e.name);
    assert NewerReleases(le, entries, e) == set d | d in entries && d != e && Before(ReleaseOrder(le), d, e);
  }

  /** By name, the releases that a run lets go. */
  lemma RemovableNamesAreExact(le: NameOrder, entries: seq<Entry>, t: Tree, s: Site, settings: Settings, e: Entry)
    requires e in entries && DistinctNames(entries)
    ensures e.name in Removable(le, entries, OptionsAt(t, s, entries, settings)) <==>
      MayBeRemoved(le, entries, t, s, settings, e)
  {
    var o := OptionsAt(t, s, entries, settings);
    RemovableIsExact(le, entries, t, s, settings, e);
    var k :| 0 <= k < |entries| && entries[k] == e;
    assert e.name in NamesOf(entries);
    if e.name in Removable(le, entries, o) {
      var d :| d in entries && d.name == e.name && IsRemovable(le, entries, o, d);
      SameNameIsSameEntry(entries, d, e);
    }
  }

  /** What removals leave of one release. */
  lemma ReleaseAfterRemovals(t: Tree, s: Site, gone: set<string>, faults: Faults, name: string, p: Path)
    requires Within(p, s.ReleaseRoot() + ["releases", name])
    ensures name !in gone ==> Lookup(AfterRemovals(t, s, gone, faults), p) == Lookup(t, p)
    ensures name in gone && name !in faults ==> p !in AfterRemovals(t, s, gone, faults)
  {
    var n := |s.Releases()|;
    assert s.ReleaseRoot() + ["releases", name] == s.Releases() + [name];
    assert p[n] == name && forall w: string :: (s.Releases() + [w])[n] == w;
    if name in gone && name !in faults {
      assert IsTaken(s, name, faults, p);
    }
  }

  /** A release that may go is none that a sound root points at. */
  lemma RemovableIsSpared(le: NameOrder, entries: seq<Entry>, t: Tree, s: Site, settings: Settings,
        name: string)
    requires Sound(t, s) && IsReleaseInventory(entries, t, s)
    requires MayGo(le, entries, OptionsAt(t, s, entries, settings), name)
    ensures Spares(t, s, name)
  {
    var o := OptionsAt(t, s, entries, settings);
    var e :| e in entries && e.name == name && IsRemovable(le, entries, o, e);
    SoundRootProtects(t, s, NamesOf(entries), name);
  }

  /** Release by release: one that may not be removed stays as it is, one that may goes unless its removal throws. */
  ghost predicate IsRunOnReleases(le: NameOrder, entries: seq<Entry>, t: Tree, u: Tree, s: Site, settings: Settings,
        applied: bool, faults: Faults)
  {
    forall e, p :: e in entries && Within(p, s.ReleaseRoot() + ["releases", e.name]) ==>
      && (!applied || !MayBeRemoved(le, entries, t, s, settings, e) ==> Lookup(u, p) == Lookup(t, p))
      && (applied && MayBeRemoved(le, entries, t, s, settings, e) && e.name !in faults ==> p !in u)
  }

  lemma ReleaseByRelease(le: NameOrder, entries: seq<Entry>, t: Tree, s: Site, settings: Settings, applied: bool,
        faults: Faults)
    requires DistinctNames(entries)
    ensures var gone := if applied then Removable(le, entries, OptionsAt(t, s, entries, settings)) else {};
      IsRunOnReleases(le, entries, t, AfterRemovals(t, s, gone, faults), s, settings, applied, faults)
  {
    var gone := if applied then Removable(le, entries, OptionsAt(t, s, entries, settings)) else {};
    var u := AfterRemovals(t, s, gone, faults);
    forall e, p | e in entries && Within(p, s.ReleaseRoot() + ["releases", e.name])
      ensures !applied || !MayBeRemoved(le, entries, t, s, settings, e) ==> Lookup(u, p) == Lookup(t, p)
      ensures applied && MayBeRemoved(le, entries, t, s, settings, e) && e.name !in faults ==> p !in u
    {
      RemovableNamesAreExact(le, entries, t, s, settings, e);
      ReleaseAfterRemovals(t, s, gone, faults, e.name, p);
    }
  }

  lemma RunKeepsSound(le: NameOrder, entries: seq<Entry>, t: Tree, s: Site, settings: Settings, gone: set<string>,
        faults: Faults)
    requires Sound(t, s) && IsReleaseInventory(entries, t, s)
    requires gone <= Removable(le, entries, OptionsAt(t, s, entries, settings))
    ensures var u := AfterRemovals(t, s, gone, faults);
      Sound(u, s) && ActiveVersion(u, s) == ActiveVersion(t, s) && Candidate(u, s) == Candidate(t, s)
  {
    var u := AfterRemovals(t, s, gone, faults);
    RemovalsTakeOnlyReleases(t, s, gone, faults);
    forall name | name in gone ensures Spares(t, s, name) {
      RemovableIsSpared(le, entries, t, s, settings, name);
    }
    TakingKeepsActive(t, u, s, gone);
    TakingKeepsBookkeeping(t, u, s, gone);
  }

  /** What can happen to a root between two looks at it. */
  datatype Work = Operate(event: Event) | Clean(names: set<string>)

  ghost predicate Does(t: Tree, u: Tree, s: Site, work: Work) {
    match work
    case Operate(event) => Harmless(t, s, event) && Performs(t, u, s, event)
    case Clean(names) =>
      (forall name :: name in names ==> Spares(t, s, name)) && TakesOnlyFrom(t, u, s, names)
  }

  ghost predicate DoesAt(states: seq<Tree>, s: Site, work: seq<Work>, i: nat)
    requires i < |work| && |states| == |work| + 1
  {
    Does(states[i], states[i + 1], s, work[i])
  }

  lemma WorkKeepsSound(t: Tree, u: Tree, s: Site, work: Work)
    requires Sound(t, s) && Does(t, u, s, work)
    ensures Sound(u, s)
  {
    match work {
      case Operate(event) => OperationKeepsSound(t, u, s, event);
      case Clean(names) => TakingKeepsSound(t, u, s, names);
    }
  }

  lemma WorkAtKeepsSound(s: Site, states: seq<Tree>, work: seq<Work>, i: nat)
    requires i < |work| && |states| == |work| + 1
    requires DoesAt(states, s, work, i) && IsSoundAt(states, s, i)
    ensures IsSoundAt(states, s, i + 1)
  {
    WorkKeepsSound(states[i], states[i + 1], s, work[i]);
  }

  /** Cutovers, rollbacks and maintenance runs, in any order, leave every state in between sound. */
  lemma MaintainedRootStaysSound(s: Site, states: seq<Tree>, work: seq<Work>, i: nat)
    requires |states| == |work| + 1 && IsSoundAt(states, s, 0) && i < |states|
    requires forall k: nat :: k < |work| ==> DoesAt(states, s, work, k)
    ensures IsSoundAt(states, s, i)
  {
    forall k: nat | k + 1 < |states| && IsSoundAt(states, s, k) ensures IsSoundAt(states, s, k + 1) {
      WorkAtKeepsSound(s, states, work, k);
    }
    SoundnessSpreads(states, s, i);
  }

  lemma NamedSoFar(entries: seq<Entry>, i: nat)
    requires i < |entries| && DistinctNames(entries)
    ensures entries[i].name !in NamesOf(entries[..i])
    ensures NamesOf(entries[..i + 1]) == NamesOf(entries[..i]) + {entries[i].name}
  {
    forall name
      ensures name in NamesOf(entries[..i + 1]) <==> name in NamesOf(entries[..i]) || name == entries[i].name
    {
      if name in NamesOf(entries[..i]) {
        var k :| 0 <= k < i && entries[..i][k].name == name;
        assert entries[..i + 1][k].name == name;
      }
      if name in NamesOf(entries[..i + 1]) {
        var k :| 0 <= k < i + 1 && entries[..i + 1][k].name == name;
        assert k < i ==> entries[..i][k].name == name;
      }
      assert entries[..i + 1][i].name == entries[i].name;
    }
  }

  /** A release whose turn has not come is as it was, and so is `releases`. */
  lemma OthersStay(t: Tree, s: Site, names: set<string>, faults: Faults, name: string)
    requires name !in names
    ensures var u := AfterRemovals(t, s, names, faults);
      && Lookup(u, s.Releases() + [name]) == Lookup(t, s.Releases() + [name])
      && Lookup(u, s.Releases()) == Lookup(t, s.Releases())
  {
    var n := |s.Releases()|;
    assert forall w: string :: (s.Releases() + [w])[n] == w;
  }

  /** What the loop is given: directories in `releases`, none of them active. */
  ghost predicate MayBeTried(t: Tree, s: Site, active: Option<string>, candidates: seq<Entry>) {
    && (candidates != [] ==> Lookup(t, s.Releases()) == Some(Dir))
    && forall e :: e in candidates ==> active != Some(e.name) && Lookup(t, s.Releases() + [e.name]) == Some(Dir)
  }

  /** The loop may go on to candidate `i`: nothing has happened to it, and it is a directory. */
  lemma NextCandidate(t: Tree, s: Site, active: Option<string>, candidates: seq<Entry>, faults: Faults, i: nat)
    requires DistinctNames(candidates) && i < |candidates| && MayBeTried(t, s, active, candidates)
    ensures var name, gone := candidates[i].name, NamesOf(candidates[..i]);
      var u := AfterRemovals(t, s, gone, faults);
      && name !in gone && NamesOf(candidates[..i + 1]) == gone + {name}
      && active != Some(name) && Exists(u, s.Releases()) && Lookup(u, s.Releases() + [name]) == Some(Dir)
      && AfterRemoval(u, s, name, faults) == AfterRemovals(t, s, gone + {name}, faults)
  {
    var name, gone := candidates[i].name, NamesOf(candidates[..i]);
    assert candidates[i] in candidates;
    NamedSoFar(candidates, i);
    OthersStay(t, s, gone, faults, name);
    OneMoreRemoval(t, s, gone, name, faults);
  }

  /** The candidates of a selection are the releases that may go, each once. */
  lemma CandidatesAreRemovable(le: NameOrder, entries: seq<Entry>, o: Options, protected: seq<Protected>,
        candidates: seq<Entry>)
    requires IsSelection(le, entries, o, protected, candidates) && DistinctNames(entries)
    ensures DistinctNames(candidates) && NamesOf(candidates) == Removable(le, entries, o)
  {
    assert multiset(candidates) <= multiset(entries);
    PartKeepsNamesDistinct(entries, candidates);
    forall name ensures name in NamesOf(candidates) <==> name in Removable(le, entries, o) {
      if name in NamesOf(candidates) {
        var i :| 0 <= i < |candidates| && candidates[i].name == name;
        assert candidates[i] in candidates;
        var k :| 0 <= k < |entries| && entries[k] == candidates[i];
        assert name in NamesOf(entries);
      }
      if name in Removable(le, entries, o) {
        var e :| e in entries && e.name == name && IsRemovable(le, entries, o, e);
        var i :| 0 <= i < |candidates| && candidates[i] == e;
      }
    }
  }

  /** Of these releases, those whose removal throws. */
  function Thrown(names: set<string>, faults: Faults): set<string> {
    set name | name in names && name in faults
  }

  predicate AreDistinct(names: seq<string>) {
    forall i, j :: 0 <= i < j < |names| ==> names[i] != names[j]
  }

  /** Every release that was to go was removed once or counted once as an error, and the sizes of the removed add up. */
  ghost predicate IsTally(names: set<string>, faults: Faults, sizeOf: string -> nat, removed: seq<string>,
        bytesRemoved: nat, errors: nat)
  {
    && (forall name :: name in removed <==> name in names && name !in faults)
    && AreDistinct(removed) && errors == |Thrown(names, faults)| && bytesRemoved == TotalSize(sizeOf, removed)
  }

  lemma TallyGrows(names: set<string>, faults: Faults, sizeOf: string -> nat, removed: seq<string>, bytesRemoved: nat,
        errors: nat, name: string)
    requires IsTally(names, faults, sizeOf, removed, bytesRemoved, errors) && name !in names
    ensures
      if name in faults then IsTally(names + {name}, faults, sizeOf, removed, bytesRemoved, errors + 1)
      else IsTally(names + {name}, faults, sizeOf, removed + [name], bytesRemoved + sizeOf(name), errors)
  {
    assert Thrown(names + {name}, faults) == Thrown(names, faults) + if name in faults then {name} else {};
    assert (removed + [name])[..|removed|] == removed;
  }

  class Maintenance {
    const site: Site
    var tree: Tree
    var prunes: nat

    constructor (site: Site, tree: Tree)
      ensures this.site == site && this.tree == tree && prunes == 0
    {
      this.site, this.tree, prunes := site, tree, 0;
    }

    /**
     * The guards of one removal; the path is built from the name, so its own checks always pass. A recursive removal
     * that throws may have got anywhere.
     */
    method RemoveReleaseCandidate(name: string, active: Option<string>, faults: Faults) returns (ok: bool)
      modifies this`tree
      ensures var guarded := active == Some(name) || !Exists(old(tree), site.Releases())
                             || Lookup(old(tree), site.Releases() + [name]) != Some(Dir);
        && (ok <==> !guarded && name !in faults)
        && tree == if guarded then old(tree) else AfterRemoval(old(tree), site, name, faults)
    {
      if active == Some(name) || !Exists(tree, site.Releases()) {
        return false;
      }
      if Lookup(tree, site.Releases() + [name]) != Some(Dir) {
        return false;
      }
      tree := AfterRemoval(tree, site, name, faults);
      ok := name !in faults;
    }

    /** The loop goes on after a removal that throws. */
    method RemoveReleaseCandidates(candidates: seq<Entry>, active: Option<string>, sizeOf: string -> nat,
        faults: Faults)
      returns (removed: seq<string>, bytesRemoved: nat, errors: nat)
      requires DistinctNames(candidates) && MayBeTried(tree, site, active, candidates)
      modifies this`tree
      ensures tree == AfterRemovals(old(tree), site, NamesOf(candidates), faults)
      ensures IsTally(NamesOf(candidates), faults, sizeOf, removed, bytesRemoved, errors)
    {
      removed, bytesRemoved, errors := [], 0, 0;
      ghost var before, gone := tree, {};
      assert tree == AfterRemovals(before, site, gone, faults);
      for i := 0 to |candidates|
        invariant gone == NamesOf(candidates[..i]) && tree == AfterRemovals(before, site, gone, faults)
        invariant IsTally(gone, faults, sizeOf, removed, bytesRemoved, errors)
      {
        var name := candidates[i].name;
        NextCandidate(before, site, active, candidates, faults, i);
        var ok := RemoveReleaseCandidate(name, active, faults);
        TallyGrows(gone, faults, sizeOf, removed, bytesRemoved, errors, name);
        gone := gone + {name};
        if ok {
          removed := removed + [name];
          bytesRemoved := bytesRemoved + sizeOf(name);
        } else {
          errors := errors + 1;
        }
      }
      assert candidates[..|candidates|] == candidates;
    }

    method RemoveSelected(le: NameOrder, ghost entries: seq<Entry>, o: Options, ghost protected: seq<Protected>,
        candidates: seq<Entry>, sizeOf: string -> nat, faults: Faults)
      returns (removed: seq<string>, bytesRemoved: nat, errors: nat)
      requires IsSelection(le, entries, o, protected, candidates) && IsReleaseInventory(entries, tree, site)
      modifies this`tree
      ensures tree == AfterRemovals(old(tree), site, Removable(le, entries, o), faults)
      ensures IsTally(Removable(le, entries, o), faults, sizeOf, removed, bytesRemoved, errors)
    {
      CandidatesAreRemovable(le, entries, o, protected, candidates);
      assert candidates != [] ==> candidates[0] in candidates;
      removed, bytesRemoved, errors := RemoveReleaseCandidates(candidates, o.active, sizeOf, faults);
    }

    method RunStorageMaintenance(le: NameOrder, entries: seq<Entry>, sizeOf: string -> nat,
        settings: Settings, mode: Mode, before: Usage, afterReleases: Usage, blockers: nat, faults: Faults,
        pruneFails: bool)
      returns (r: Report)
      requires TotalNames(le) && IsReleaseInventory(entries, tree, site)
      requires before.Valid() && afterReleases.Valid()
      modifies this
      ensures r.applied <==> mode == Apply && IsReached(before, settings.highWatermark) && blockers == 0
      ensures var gone :=
          if r.applied then Removable(le, entries, OptionsAt(old(tree), site, entries, settings)) else {};
        && tree == AfterRemovals(old(tree), site, gone, faults)
        && (forall name :: name in r.removed <==> name in gone && name !in faults) && AreDistinct(r.removed)
        && r.errors == |Thrown(gone, faults)| + (if r.pruneAttempted && pruneFails then 1 else 0)
        && r.bytesRemoved == TotalSize(sizeOf, r.removed)
      ensures IsRunOnReleases(le, entries, old(tree), tree, site, settings, r.applied, faults)
      ensures r.pruneAttempted <==> r.applied && IsReached(afterReleases, settings.targetWatermark)
      ensures prunes == if r.pruneAttempted then old(prunes) + 1 else old(prunes)
      ensures r.skipReasons ==
        if r.applied then if r.pruneAttempted then [] else [TargetReachedBeforePrune]
        else if mode == DryRun then [DryRunRequested]
        else if !IsReached(before, settings.highWatermark) then [BelowHighWatermark]
        else [BlockingOperationActive]
      ensures r.status == if r.errors > 0 then Partial else if mode == Apply && !r.applied then Skipped else Completed
      ensures Sound(old(tree), site) ==>
        && Sound(tree, site)
        && ActiveVersion(tree, site) == ActiveVersion(old(tree), site)
        && Candidate(tree, site) == Candidate(old(tree), site)
    {
      ghost var t := tree;
      var o := OptionsAt(tree, site, entries, settings);
      var protected, candidates := SelectReleaseCandidates(le, entries, o);
      WatermarkIsExact(before, settings.highWatermark);
      WatermarkIsExact(afterReleases, settings.targetWatermark);
      var apply := ShouldApplyMaintenance(mode, before.UsedPercent(), settings.highWatermark, blockers);
      var skipReasons := [];
      if mode == DryRun {
        skipReasons := [DryRunRequested];
      } else if before.UsedPercent() < settings.highWatermark as real {
        skipReasons := [BelowHighWatermark];
      } else if blockers > 0 {
        skipReasons := [BlockingOperationActive];
      }
      var removed, bytesRemoved, errors, pruneAttempted := [], 0, 0, false;
      if apply {
        removed, bytesRemoved, errors := RemoveSelected(le, entries, o, protected, candidates, sizeOf, faults);
        if afterReleases.UsedPercent() >= settings.targetWatermark as real {
          pruneAttempted := true;
          prunes := prunes + 1;
          if pruneFails {
            errors := errors + 1;
          }
        } else {
          skipReasons := skipReasons + [TargetReachedBeforePrune];
        }
      }
      ghost var gone := if apply then Removable(le, entries, o) else {};
      assert !apply ==> tree == AfterRemovals(t, site, {}, faults);
      ReleaseByRelease(le, entries, t, site, settings, apply, faults);
      if Sound(t, site) {
        RunKeepsSound(le, entries, t, site, settings, gone, faults);
      }
      var status := if errors > 0 then Partial else if mode == Apply && !apply then Skipped else Completed;
      r := Report(apply, removed, bytesRemoved, pruneAttempted, errors, skipReasons, status);
    }
  }
}
