/**
 * The life of run directories in one storage location: runs, failed runs, failed replications and retention passes.
 *
 * Operations on a location are taken one after the other. Every state a location passes through is kept in the ghost
 * field `past`, and `Valid` says that a complete run directory, once there, is not missing up to the moment at which
 * some operation leaves a half-done directory behind.
 */
module BackupStore {
  import opened Retention

  /** A run directory is complete from the moment its failure would no longer remove it. */
  datatype Item = RunDirectory(complete: bool) | OtherFile

  type Items = map<string, Item>

  ghost predicate HasComplete(items: Items) {
    exists name :: name in items && items[name] == RunDirectory(true)
  }

  /** Between operations no run directory is half done. */
  ghost predicate Settled(items: Items) {
    forall name :: name in items && items[name].RunDirectory? ==> items[name].complete
  }

  /** What `readdir` and `stat` may have reported: entries that are there, each once, with any times. */
  ghost predicate IsInventory(inventory: seq<Entry>, items: Items) {
    && DistinctNames(inventory)
    && forall e :: e in inventory ==> e.name in items && (e.isDirectory <==> items[e.name].RunDirectory?)
  }

  /** What `stat` says: which entries it fails on, and the times of the others. */
  datatype Stats = Stats(unreadable: set<string>, mtimeOf: string -> real)

  function EntryOf(items: Items, stats: Stats, name: string): Entry
    requires name in items
  {
    Entry(name, stats.mtimeOf(name), items[name].RunDirectory?)
  }

  /** The inventory lists every readable entry once, and nothing else. */
  ghost predicate IsInventoryOf(inventory: seq<Entry>, items: Items, stats: Stats) {
    && DistinctNames(inventory)
    && forall e :: e in inventory <==>
         e.name in items && e.name !in stats.unreadable && e == EntryOf(items, stats, e.name)
  }

  predicate IsReadableRun(items: Items, stats: Stats, name: string) {
    name in items && items[name].RunDirectory? && name !in stats.unreadable
  }

  /** A run directory that retention removes: old, and another one comes before it. */
  ghost predicate IsExpired(le: NameOrder, items: Items, stats: Stats, cutoff: real, name: string) {
    && IsReadableRun(items, stats, name) && stats.mtimeOf(name) < cutoff
    && exists other :: other != name && IsReadableRun(items, stats, other)
         && Before(Order(le, false), EntryOf(items, stats, other), EntryOf(items, stats, name))
  }

  ghost function Expired(le: NameOrder, items: Items, stats: Stats, cutoff: real): set<string> {
    set name | name in items && IsExpired(le, items, stats, cutoff, name)
  }

  /** The selection is exactly the expired directories, each once. */
  lemma SelectionIsExpired(le: NameOrder, items: Items, stats: Stats, inventory: seq<Entry>, cutoff: real)
    requires TotalNames(le) && IsInventoryOf(inventory, items, stats)
    ensures var selected := SelectBackupRetentionCandidates(le, inventory, cutoff);
      && DistinctNames(selected)
      && (forall e :: e in selected ==> e.name in Expired(le, items, stats, cutoff))
      && (forall name :: name in Expired(le, items, stats, cutoff) ==> EntryOf(items, stats, name) in selected)
  {
    var selected := SelectBackupRetentionCandidates(le, inventory, cutoff);
    SelectionIsPart(le, inventory, cutoff);
    PartKeepsNamesDistinct(inventory, selected);
    forall e | e in selected ensures e.name in Expired(le, items, stats, cutoff) {
      SelectionIsExact(le, inventory, cutoff, e);
      var d :| d in inventory && d.isDirectory && !Before(Order(le, false), e, d);
      BeforeIsOrder(Order(le, false), e, d, e);
      assert IsReadableRun(items, stats, d.name) && d == EntryOf(items, stats, d.name);
    }
    forall name | name in Expired(le, items, stats, cutoff) ensures EntryOf(items, stats, name) in selected {
      var e := EntryOf(items, stats, name);
      var other :| other != name && IsReadableRun(items, stats, other)
        && Before(Order(le, false), EntryOf(items, stats, other), e);
      SelectionIsExact(le, inventory, cutoff, e);
      BeforeIsOrder(Order(le, false), e, EntryOf(items, stats, other), e);
      assert EntryOf(items, stats, other) in inventory && e in inventory;
    }
  }

  lemma {:induction false} NamesCount(selected: seq<Entry>, names: set<string>)
    requires DistinctNames(selected)
    requires forall e :: e in selected ==> e.name in names
    requires forall name :: name in names ==> exists e :: e in selected && e.name == name
    ensures |selected| == |names|
  {
    if selected == [] {
      assert names == {};
    } else {
      var n := |selected| - 1;
      var last := selected[n].name;
      forall e | e in selected[..n] ensures e.name in names - {last} {
        assert e in selected;
      }
      forall name | name in names - {last} ensures exists e :: e in selected[..n] && e.name == name {
        var e :| e in selected && e.name == name;
        assert e in selected[..n];
      }
      NamesCount(selected[..n], names - {last});
      assert selected[n] in selected;
    }
  }

  function RemoveAll(items: Items, removed: seq<Entry>): Items {
    if removed == [] then items else RemoveAll(items - {removed[0].name}, removed[1..])
  }

  lemma {:induction false} RemoveAllRemoves(items: Items, removed: seq<Entry>)
    ensures forall name :: name in RemoveAll(items, removed) <==>
      name in items && forall e :: e in removed ==> e.name != name
    ensures forall name :: name in RemoveAll(items, removed) ==> RemoveAll(items, removed)[name] == items[name]
  {
    if removed != [] {
      RemoveAllRemoves(items - {removed[0].name}, removed[1..]);
      assert removed == [removed[0]] + removed[1..];
    }
  }

  /** `name` holds a complete run that retention has a reason to keep. */
  ghost predicate IsKept(le: NameOrder, items: Items, inventory: seq<Entry>, cutoff: real, name: string) {
    && name in items && items[name] == RunDirectory(true)
    && forall e :: e in inventory && e.name == name ==> e.mtime >= cutoff || IsNewest(le, inventory, e)
  }

  /** A retention pass leaves a complete run exactly when one is unlisted, unexpired, or the newest of all. */
  lemma RetentionLeavesACompleteRunExactly(le: NameOrder, items: Items, inventory: seq<Entry>, cutoff: real)
    requires TotalNames(le) && IsInventory(inventory, items)
    ensures HasComplete(RemoveAll(items, SelectBackupRetentionCandidates(le, inventory, cutoff))) <==>
      exists name :: IsKept(le, items, inventory, cutoff, name)
  {
    var removed := SelectBackupRetentionCandidates(le, inventory, cutoff);
    RemoveAllRemoves(items, removed);
    forall name | name in items && items[name] == RunDirectory(true)
      ensures name in RemoveAll(items, removed) <==> IsKept(le, items, inventory, cutoff, name)
    {
      forall e ensures e in removed && e.name == name <==>
        e in inventory && e.name == name && e.mtime < cutoff && !IsNewest(le, inventory, e)
      {
        SelectionIsExact(le, inventory, cutoff, e);
      }
    }
  }

  /** In a settled location a pass cannot take the last complete run. */
  lemma RetentionKeepsACompleteRun(le: NameOrder, items: Items, inventory: seq<Entry>, cutoff: real)
    requires TotalNames(le) && IsInventory(inventory, items) && Settled(items) && HasComplete(items)
    ensures HasComplete(RemoveAll(items, SelectBackupRetentionCandidates(le, inventory, cutoff)))
  {
    var listing := Listing(le, inventory);
    var name :| name in items && items[name] == RunDirectory(true);
    if listing == [] {
      forall e | e in inventory && e.name == name ensures false {
        ListingElements(Order(le, false), inventory, e);
      }
      assert IsKept(le, items, inventory, cutoff, name);
    } else {
      var newest := listing[0];
      ListingElements(Order(le, false), inventory, newest);
      HeadIsFirst(Order(le, false), inventory, newest);
      forall e | e in inventory && e.name == newest.name ensures e == newest {
        SameNameIsSameEntry(inventory, e, newest);
      }
      assert IsKept(le, items, inventory, cutoff, newest.name);
    }
    RetentionLeavesACompleteRunExactly(le, items, inventory, cutoff);
  }

  /** What a recursive removal that throws leaves of its directory. */
  datatype Remnant = Whole | Gone | HalfDone

  function AfterThrow(items: Items, name: string, remnant: Remnant): Items {
    match remnant
    case Whole => items
    case Gone => items - {name}
    case HalfDone => items[name := RunDirectory(false)]
  }

  /** A pass cut short by a throwing removal has removed less, so at that moment it has kept at least as much. */
  lemma PartOfAPassKeepsMore(items: Items, removed: seq<Entry>, n: nat, remnant: Remnant)
    requires n < |removed| && HasComplete(RemoveAll(items, removed))
    ensures HasComplete(AfterThrow(RemoveAll(items, removed[..n]), removed[n].name, remnant))
  {
    RemoveAllRemoves(items, removed);
    RemoveAllRemoves(items, removed[..n]);
    var name :| name in RemoveAll(items, removed) && RemoveAll(items, removed)[name] == RunDirectory(true);
    assert removed[n] in removed && name != removed[n].name;
    var after := AfterThrow(RemoveAll(items, removed[..n]), removed[n].name, remnant);
    assert name in after && after[name] == RunDirectory(true);
  }

  /**
   * Why passes must not run beside a run: the directory of a run in progress, or one left half done, can be the newest,
   * and when every complete run has expired a pass removes them all; if the run then fails, nothing is left.
   */
  lemma InterleavedRetentionCanLoseEverything(le: NameOrder, done: string, running: string, doneAt: real,
        runningAt: real)
    requires TotalNames(le) && done != running && doneAt < runningAt
    ensures var items := map[done := RunDirectory(true), running := RunDirectory(false)];
      var inventory := [Entry(done, doneAt, true), Entry(running, runningAt, true)];
      && IsInventory(inventory, items) && HasComplete(items)
      && forall cutoff: real :: doneAt < cutoff ==>
           !HasComplete(RemoveAll(items, SelectBackupRetentionCandidates(le, inventory, cutoff)))
  {
    var items := map[done := RunDirectory(true), running := RunDirectory(false)];
    var inventory := [Entry(done, doneAt, true), Entry(running, runningAt, true)];
    assert items[done] == RunDirectory(true);
    forall cutoff: real | doneAt < cutoff
      ensures !HasComplete(RemoveAll(items, SelectBackupRetentionCandidates(le, inventory, cutoff)))
    {
      forall name ensures !IsKept(le, items, inventory, cutoff, name) {
        if name == done {
          assert inventory[0] in inventory && inventory[1] in inventory;
          assert !Before(Order(le, false), inventory[0], inventory[1]) && !IsNewest(le, inventory, inventory[0]);
        }
      }
      RetentionLeavesACompleteRunExactly(le, items, inventory, cutoff);
    }
  }

  /**
   * Two serialised passes can do the same. The first throws inside the expired directory `emptied`, which is half done
   * from then on and, by its time, the newest; once `kept` has expired too, the second pass removes `kept` instead.
   */
  lemma TwoPassesCanLoseEverything(le: NameOrder, emptied: string, kept: string, first: real, second: real)
    requires TotalNames(le) && emptied != kept && first < second
    ensures var items := map[emptied := RunDirectory(true), kept := RunDirectory(true)];
      var before := [Entry(kept, first, true), Entry(emptied, first - 1.0, true)];
      var between := AfterThrow(items, emptied, HalfDone);
      var after := [Entry(kept, first, true), Entry(emptied, second, true)];
      && Settled(items) && IsInventory(before, items) && IsInventory(after, between)
      && SelectBackupRetentionCandidates(le, before, first) == [Entry(emptied, first - 1.0, true)]
      && HasComplete(between)
      && !HasComplete(RemoveAll(between, SelectBackupRetentionCandidates(le, after, second)))
  {
    var kept0, emptied0 := Entry(kept, first, true), Entry(emptied, first - 1.0, true);
    OlderOfTwoIsSelected(le, kept0, emptied0, first);
    InterleavedRetentionCanLoseEverything(le, kept, emptied, first, second);
    var items := map[emptied := RunDirectory(true), kept := RunDirectory(true)];
    assert AfterThrow(items, emptied, HalfDone) == map[kept := RunDirectory(true), emptied := RunDirectory(false)];
  }

  lemma OlderOfTwoIsSelected(le: NameOrder, newer: Entry, older: Entry, cutoff: real)
    requires TotalNames(le) && newer.isDirectory && older.isDirectory && newer.name != older.name
    requires older.mtime < newer.mtime && older.mtime < cutoff
    ensures SelectBackupRetentionCandidates(le, [newer, older], cutoff) == [older]
  {
    TwoDirectories(Order(le, false), newer, older);
    assert [newer, older][1..] == [older] && [older][1..] == [];
    assert Older([older], cutoff) == [older] + [];
  }

  // ---------------------------------------------------------------------------------------------------------------
  // The location
  // ---------------------------------------------------------------------------------------------------------------

  /** The removal after the first `removals` ones throws and leaves `remnant` of its directory. */
  datatype PassFaults = PassFaults(removals: nat, remnant: Remnant)

  /**
   * Where a policy run throws: in retention, when it makes a fresh directory private, in the archives or the manifest,
   * in the replication that follows the manifest, or in its own cleanup.
   */
  datatype Faults = Faults(retention: PassFaults, chmod: bool, archives: bool, replication: bool, cleanup: bool)
  {
    /** The run leaves its own directory half done. */
    predicate LeavesOwn() { chmod || (archives && cleanup) }
  }

  function AfterRun(items: Items, runDirectory: string, faults: Faults): Items {
    if faults.LeavesOwn() then items[runDirectory := RunDirectory(false)]
    else if faults.archives then items
    else items[runDirectory := RunDirectory(true)]
  }

  ghost function Expirable(le: NameOrder, items: Items, stats: Stats, retentionDays: int, now: real): set<string> {
    if retentionDays <= 0 then {} else Expired(le, items, stats, LocalCutoff(now, retentionDays))
  }

  /** In numbers: a readable run directory older than so many days, when another is newer, or as new and named first. */
  ghost predicate IsPastRetention(le: NameOrder, items: Items, stats: Stats, retentionDays: int, now: real,
        name: string)
  {
    && retentionDays > 0 && IsReadableRun(items, stats, name)
    && now - stats.mtimeOf(name) > retentionDays as real * 86400000.0
    && exists other :: other != name && IsReadableRun(items, stats, other)
         && (|| stats.mtimeOf(other) > stats.mtimeOf(name)
             || (stats.mtimeOf(other) == stats.mtimeOf(name) && le(other, name)))
  }

  lemma ExpirableInDays(le: NameOrder, items: Items, stats: Stats, retentionDays: int, now: real, name: string)
    ensures name in Expirable(le, items, stats, retentionDays, now) <==>
      IsPastRetention(le, items, stats, retentionDays, now, name)
  {
    if retentionDays > 0 {
      assert (retentionDays * 86400) as real * 1000.0 == retentionDays as real * 86400000.0;
    }
  }

  /** What a pass leaves, directory by directory; nothing is added. */
  ghost predicate IsPassByName(le: NameOrder, before: Items, after: Items, stats: Stats, retentionDays: int, now: real,
        ok: bool)
  {
    && (forall name :: name in after ==> name in before)
    && forall name :: name in before ==>
         if IsPastRetention(le, before, stats, retentionDays, now, name) then ok ==> name !in after
         else name in after && after[name] == before[name]
  }

  lemma PassTakesExpired(before: Items, after: Items, expired: set<string>, faults: PassFaults, name: string)
    requires IsPassOutcome(before, after, expired, faults)
    ensures name in after ==> name in before || name in expired
    ensures name in before && name !in expired ==> name in after && after[name] == before[name]
    ensures name in expired && faults.removals >= |expired| ==> name !in after
  {
  }

  lemma PassByName(le: NameOrder, before: Items, after: Items, stats: Stats, retentionDays: int, now: real,
        faults: PassFaults)
    requires IsPassOutcome(before, after, Expirable(le, before, stats, retentionDays, now), faults)
    ensures IsPassByName(le, before, after, stats, retentionDays, now,
                         faults.removals >= |Expirable(le, before, stats, retentionDays, now)|)
  {
    var expired := Expirable(le, before, stats, retentionDays, now);
    forall name
      ensures name in after ==> name in before
      ensures name in before && IsPastRetention(le, before, stats, retentionDays, now, name) ==>
        faults.removals >= |expired| ==> name !in after
      ensures name in before && !IsPastRetention(le, before, stats, retentionDays, now, name) ==>
        name in after && after[name] == before[name]
    {
      PassTakesExpired(before, after, expired, faults, name);
      ExpirableInDays(le, before, stats, retentionDays, now, name);
    }
  }

  datatype Operation =
    | PolicyRun(runDirectory: string, retentionDays: int, now: real, stats: Stats, faults: Faults)
    | RetentionPass(retentionDays: int, now: real, stats: Stats, passFaults: PassFaults)

  /** `after` is what a pass leaves of `before`: all of `expired` removed, or part of it and then a throwing removal. */
  ghost predicate IsPassOutcome(before: Items, after: Items, expired: set<string>, faults: PassFaults) {
    if faults.removals >= |expired| then after == before - expired
    else exists removed: set<string>, last: string ::
      && removed <= expired && |removed| == faults.removals && last in expired - removed
      && after == AfterThrow(before - removed, last, faults.remnant)
  }

  /** The pass leaves a half-done directory. */
  predicate PassStrands(expired: set<string>, faults: PassFaults) {
    faults.removals < |expired| && faults.remnant.HalfDone?
  }

  ghost function ExpiredAt(le: NameOrder, items: Items, operation: Operation): set<string> {
    Expirable(le, items, operation.stats, operation.retentionDays, operation.now)
  }

  /** What an operation makes of a location, half-done directories and all; a run needs a name that is not in use. */
  ghost predicate Does(le: NameOrder, before: Items, after: Items, operation: Operation) {
    var expired := ExpiredAt(le, before, operation);
    match operation
    case PolicyRun(runDirectory, _, _, _, faults) =>
      if runDirectory in before then after == before
      else if faults.retention.removals >= |expired| then after == AfterRun(before - expired, runDirectory, faults)
      else IsPassOutcome(before, after, expired, faults.retention)
    case RetentionPass(_, _, _, faults) => IsPassOutcome(before, after, expired, faults)
  }

  /** Retention has a reason to keep a complete run: it cannot be read, is not old, or nothing comes before it. */
  ghost predicate KeepsOne(le: NameOrder, items: Items, operation: Operation) {
    exists name :: name in items && items[name] == RunDirectory(true) && name !in ExpiredAt(le, items, operation)
  }

  /** The operation completes a run of its own. */
  ghost predicate AddsOne(le: NameOrder, items: Items, operation: Operation) {
    && operation.PolicyRun? && operation.runDirectory !in items
    && operation.faults.retention.removals >= |ExpiredAt(le, items, operation)|
    && !operation.faults.LeavesOwn() && !operation.faults.archives
  }

  /** The retention of the operation runs to its end. */
  ghost predicate IsWhole(le: NameOrder, items: Items, operation: Operation) {
    match operation
    case PolicyRun(runDirectory, _, _, _, faults) =>
      runDirectory !in items && faults.retention.removals >= |ExpiredAt(le, items, operation)|
    case RetentionPass(_, _, _, faults) => faults.removals >= |ExpiredAt(le, items, operation)|
  }

  lemma KeptRunStays(le: NameOrder, before: Items, after: Items, operation: Operation, name: string)
    requires Does(le, before, after, operation)
    requires name in before && before[name] == RunDirectory(true) && name !in ExpiredAt(le, before, operation)
    ensures name in after && after[name] == RunDirectory(true)
  {
  }

  lemma AddedRunIsThere(le: NameOrder, before: Items, after: Items, operation: Operation)
    requires Does(le, before, after, operation) && AddsOne(le, before, operation)
    ensures HasComplete(after)
  {
    assert after[operation.runDirectory] == RunDirectory(true);
  }

  lemma CompleteRunHasAReason(le: NameOrder, before: Items, after: Items, operation: Operation)
    requires Does(le, before, after, operation) && IsWhole(le, before, operation) && HasComplete(after)
    ensures KeepsOne(le, before, operation) || AddsOne(le, before, operation)
  {
    var name :| name in after && after[name] == RunDirectory(true);
    if !AddsOne(le, before, operation) {
      assert name in before && before[name] == RunDirectory(true) && name !in ExpiredAt(le, before, operation);
    }
  }

  /**
   * Whatever half-done directories lie about: an operation leaves a complete run if retention keeps one or the run adds
   * one, and where its retention runs to its end only then.
   */
  lemma OperationLeavesACompleteRun(le: NameOrder, before: Items, after: Items, operation: Operation)
    requires Does(le, before, after, operation)
    ensures KeepsOne(le, before, operation) || AddsOne(le, before, operation) ==> HasComplete(after)
    ensures IsWhole(le, before, operation) && HasComplete(after) ==>
      KeepsOne(le, before, operation) || AddsOne(le, before, operation)
  {
    if KeepsOne(le, before, operation) {
      var name :| name in before && before[name] == RunDirectory(true) && name !in ExpiredAt(le, before, operation);
      KeptRunStays(le, before, after, operation, name);
    } else if AddsOne(le, before, operation) {
      AddedRunIsThere(le, before, after, operation);
    }
    if IsWhole(le, before, operation) && HasComplete(after) {
      CompleteRunHasAReason(le, before, after, operation);
    }
  }

  /** The operation at this place takes the last complete run: it had one, and retention had no reason to keep any. */
  ghost predicate MayLoseAt(le: NameOrder, states: seq<Items>, operations: seq<Operation>, i: nat)
    requires |states| == |operations| + 1 && i < |operations|
  {
    && HasComplete(states[i])
    && !KeepsOne(le, states[i], operations[i]) && !AddsOne(le, states[i], operations[i])
  }

  /** Without such an operation a complete run is there in every state, whatever was left half done on the way. */
  lemma {:induction false} NothingIsLostWithoutExpiry(le: NameOrder, states: seq<Items>, operations: seq<Operation>,
        i: nat)
    requires |states| == |operations| + 1 && i < |states| && HasComplete(states[0])
    requires forall k: nat :: k < |operations| ==> Does(le, states[k], states[k + 1], operations[k])
    requires forall k: nat :: k < |operations| ==> !MayLoseAt(le, states, operations, k)
    ensures HasComplete(states[i])
  {
    if i > 0 {
      NothingIsLostWithoutExpiry(le, states, operations, i - 1);
      assert !MayLoseAt(le, states, operations, i - 1);
      OperationLeavesACompleteRun(le, states[i - 1], states[i], operations[i - 1]);
    }
  }

  class StorageLocation {
    var items: Items
    ghost var past: seq<Items>
    /**
     * Some operation left a half-done directory behind: a removal of a pass stopped half-way, `chmod` of a fresh
     * directory threw, which is outside the `try`, or the cleanup threw. From then on only
     * `NothingIsLostWithoutExpiry` speaks.
     */
    ghost var stranded: bool
    /** How many of the past states came before or at that moment. */
    ghost var safe: nat

    constructor (items: Items)
      requires Settled(items)
      ensures Valid() && this.items == items && past == [items] && !stranded
    {
      this.items := items;
      past := [items];
      stranded := false;
      safe := 1;
    }

    ghost predicate Valid()
      reads this
    {
      && Recorded()
      && (stranded || Settled(items))
    }

    ghost predicate Recorded()
      reads this
    {
      && past != [] && past[|past| - 1] == items
      && safe <= |past| && (stranded || safe == |past|)
      && NothingIsLost()
    }

    /** A complete run directory, once there, is not missing before a half-done directory was left, nor then. */
    ghost predicate NothingIsLost()
      reads this
      requires safe <= |past|
    {
      forall i, j :: 0 <= i <= j < safe && HasComplete(past[i]) ==> HasComplete(past[j])
    }

    /** One change on disk. */
    method Change(next: Items)
      requires Recorded()
      requires !stranded && HasComplete(items) ==> HasComplete(next)
      modifies this
      ensures items == next && past == old(past) + [next] && stranded == old(stranded) && Recorded()
      ensures safe == if stranded then old(safe) else |past|
    {
      items := next;
      past := past + [next];
      if !stranded {
        safe := |past|;
      }
    }

    /** Reads the location; an entry whose `stat` fails is left out. */
    method ReadInventory(stats: Stats) returns (inventory: seq<Entry>)
      ensures IsInventoryOf(inventory, items, stats)
    {
      inventory := [];
      var names := items.Keys;
      while names != {}
        invariant names <= items.Keys && DistinctNames(inventory)
        invariant forall e :: e in inventory <==>
          && e.name in items && e.name !in names && e.name !in stats.unreadable && e == EntryOf(items, stats, e.name)
        decreases |names|
      {
        var name :| name in names;
        names := names - {name};
        if name !in stats.unreadable {
          forall i | 0 <= i < |inventory| ensures inventory[i].name != name {
            assert inventory[i] in inventory;
          }
          inventory := inventory + [EntryOf(items, stats, name)];
        }
      }
    }

    /** Removes expired directories one by one; only a pass that does not throw reports their names. */
    method ApplyRetention(le: NameOrder, retentionDays: int, now: real, stats: Stats, faults: PassFaults)
      returns (ok: bool, removed: seq<string>)
      requires Valid() && TotalNames(le)
      modifies this
      ensures Valid() && old(past) <= past && old(safe) <= safe
      ensures var expired := Expirable(le, old(items), stats, retentionDays, now);
        && (ok <==> faults.removals >= |expired|)
        && (if ok then forall name :: name in removed <==> name in expired else removed == [])
        && IsPassOutcome(old(items), items, expired, faults)
        && (stranded <==> old(stranded) || PassStrands(expired, faults))
      ensures IsPassByName(le, old(items), items, stats, retentionDays, now, ok)
    {
      if retentionDays <= 0 {
        assert items == items - {};
        return true, [];
      }
      var inventory := ReadInventory(stats);
      var cutoff := LocalCutoff(now, retentionDays);
      var candidates := SelectBackupRetentionCandidates(le, inventory, cutoff);
      SelectionIsExpired(le, items, stats, inventory, cutoff);
      ghost var expired := Expired(le, items, stats, cutoff);
      forall name | name in expired ensures exists e :: e in candidates && e.name == name {
        assert EntryOf(items, stats, name) in candidates;
      }
      NamesCount(candidates, expired);
      if !stranded && HasComplete(items) {
        RetentionKeepsACompleteRun(le, items, inventory, cutoff);
      }
      ghost var before := items;
      ok := RemoveCandidates(candidates, faults);
      if ok {
        removed := NamesOf(candidates);
        CandidatesAre(candidates, expired, |candidates|);
        assert before - FirstNames(candidates, |candidates|) == before - expired;
      } else {
        removed := [];
        CandidatesAre(candidates, expired, faults.removals);
      }
      PassByName(le, before, items, stats, retentionDays, now, faults);
    }

    method RemoveCandidates(candidates: seq<Entry>, faults: PassFaults) returns (ok: bool)
      requires Valid()
      requires !stranded && HasComplete(items) ==> HasComplete(RemoveAll(items, candidates))
      modifies this
      ensures Valid() && old(past) <= past && old(safe) <= safe
      ensures ok <==> faults.removals >= |candidates|
      ensures items ==
        if ok then old(items) - FirstNames(candidates, |candidates|)
        else AfterThrow(old(items) - FirstNames(candidates, faults.removals), candidates[faults.removals].name,
                        faults.remnant)
      ensures stranded <==> old(stranded) || (!ok && faults.remnant.HalfDone?)
    {
      ghost var before := items;
      var next := 0;
      while next < |candidates|
        invariant next <= |candidates| && next <= faults.removals
        invariant Recorded() && (stranded || Settled(items))
        invariant old(past) <= past && old(safe) <= safe && stranded == old(stranded)
        invariant items == RemoveAll(before, candidates[..next]) == before - FirstNames(candidates, next)
      {
        if !stranded && HasComplete(before) {
          PartOfAPassKeepsMore(before, candidates, next, faults.remnant);
        }
        RemoveAllRemoves(before, candidates[..next]);
        if next == faults.removals {
          Change(AfterThrow(items, candidates[next].name, faults.remnant));
          if faults.remnant.HalfDone? {
            stranded := true;
          }
          return false;
        }
        RemovalStep(before, candidates, next);
        if !stranded {
          RemovalKeeps(before, candidates, next);
        }
        Change(items - {candidates[next].name});
        next := next + 1;
      }
      ok := true;
    }

    /** The retention cycle makes the location if need be and applies retention; its outcome is reported, not thrown. */
    method RunRetention(le: NameOrder, retentionDays: int, now: real, stats: Stats, faults: PassFaults)
      returns (removed: seq<string>)
      requires Valid() && TotalNames(le)
      modifies this
      ensures Valid() && old(past) <= past && old(safe) <= safe
      ensures var expired := Expirable(le, old(items), stats, retentionDays, now);
        && IsPassOutcome(old(items), items, expired, faults)
        && (if faults.removals >= |expired| then forall name :: name in removed <==> name in expired else removed == [])
        && (stranded <==> old(stranded) || PassStrands(expired, faults))
    {
      var ok;
      ok, removed := ApplyRetention(le, retentionDays, now, stats, faults);
    }

    /** What follows once retention is done and the run directory has been made. */
    method FillRunDirectory(runDirectory: string, faults: Faults, ghost base: Items) returns (succeeded: bool)
      requires Recorded() && runDirectory !in base && items == base[runDirectory := RunDirectory(false)]
      requires stranded || Settled(base)
      modifies this
      ensures Valid() && old(past) <= past && old(safe) <= safe
      ensures succeeded <==> !faults.chmod && !faults.archives && !faults.replication
      ensures items == AfterRun(base, runDirectory, faults)
      ensures stranded <==> old(stranded) || faults.LeavesOwn()
    {
      if faults.chmod {
        stranded := true;
        return false;
      }
      var preserveRunDirectoryOnFailure := false;
      succeeded := !faults.archives;
      if succeeded {
        StillThere(items, runDirectory, true);
        Change(items[runDirectory := RunDirectory(true)]);
        preserveRunDirectoryOnFailure := true;
        succeeded := !faults.replication;
      }
      if !succeeded && !preserveRunDirectoryOnFailure {
        if faults.cleanup {
          stranded := true;
          return false;
        }
        StillThereWithout(items, runDirectory);
        Change(items - {runDirectory});
        assert items == base;
      }
    }

    /** One policy run; `faults` says where it throws. */
    method ExecutePolicy(le: NameOrder, runDirectory: string, retentionDays: int, now: real, stats: Stats,
        faults: Faults)
      returns (succeeded: bool)
      requires Valid() && TotalNames(le)
      requires runDirectory !in items
      modifies this
      ensures Valid() && old(past) <= past && old(safe) <= safe
      ensures var expired := Expirable(le, old(items), stats, retentionDays, now);
        var retained := faults.retention.removals >= |expired|;
        && (succeeded <==> retained && !faults.chmod && !faults.archives && !faults.replication)
        && (if retained then items == AfterRun(old(items) - expired, runDirectory, faults)
            else IsPassOutcome(old(items), items, expired, faults.retention))
        && (stranded <==>
              old(stranded) || if retained then faults.LeavesOwn() else PassStrands(expired, faults.retention))
    {
      var retained, removed := ApplyRetention(le, retentionDays, now, stats, faults.retention);
      if !retained {
        return false;
      }
      ghost var base := items;
      StillThere(items, runDirectory, false);
      Change(items[runDirectory := RunDirectory(false)]);
      succeeded := FillRunDirectory(runDirectory, faults, base);
    }

    /**
     * Any operations, one after the other, each run under a name that is not in use. A complete run, once there, is
     * there in every later state, up to and including the first that holds a directory left half done. `states` are the
     * contents before and after each operation.
     */
    method Operate(le: NameOrder, operations: seq<Operation>) returns (ghost states: seq<Items>)
      requires Valid() && TotalNames(le)
      modifies this
      ensures Valid() && old(past) <= past && old(safe) <= safe <= |past|
      ensures forall i, j :: 0 <= i <= j < safe && HasComplete(past[i]) ==> HasComplete(past[j])
      ensures !stranded ==> safe == |past|
      ensures |states| == |operations| + 1 && states[0] == old(items) && states[|operations|] == items
      ensures forall k: nat :: k < |operations| ==> Does(le, states[k], states[k + 1], operations[k])
    {
      states := [items];
      for i := 0 to |operations|
        invariant Valid() && old(past) <= past && old(safe) <= safe
        invariant |states| == i + 1 && states[0] == old(items) && states[i] == items
        invariant forall k: nat :: k < i ==> Does(le, states[k], states[k + 1], operations[k])
      {
        match operations[i] {
          case PolicyRun(runDirectory, retentionDays, now, stats, faults) =>
            if runDirectory !in items {
              var succeeded := ExecutePolicy(le, runDirectory, retentionDays, now, stats, faults);
            }
          case RetentionPass(retentionDays, now, stats, faults) =>
            var removed := RunRetention(le, retentionDays, now, stats, faults);
        }
        states := states + [items];
      }
    }
  }

  function NamesOf(entries: seq<Entry>): (names: seq<string>)
    ensures |names| == |entries| && forall i :: 0 <= i < |entries| ==> names[i] == entries[i].name
  {
    seq(|entries|, i requires 0 <= i < |entries| => entries[i].name)
  }

  ghost function FirstNames(entries: seq<Entry>, n: nat): set<string>
    requires n <= |entries|
  {
    set i | 0 <= i < n :: entries[i].name
  }

  /** The first candidates are so many expired directories, and the next one is another. */
  lemma CandidatesAre(candidates: seq<Entry>, expired: set<string>, n: nat)
    requires n <= |candidates| == |expired| && DistinctNames(candidates)
    requires forall e :: e in candidates ==> e.name in expired
    requires forall name :: name in expired ==> exists e :: e in candidates && e.name == name
    ensures var names := FirstNames(candidates, n);
      && names <= expired && |names| == n
      && (n == |candidates| ==> names == expired)
      && (n < |candidates| ==> candidates[n].name in expired - names)
  {
    FirstNamesCount(candidates, n);
    forall name | name in FirstNames(candidates, n) ensures name in expired {
      var i :| 0 <= i < n && candidates[i].name == name;
      assert candidates[i] in candidates;
    }
    if n == |candidates| {
      forall name | name in expired ensures name in FirstNames(candidates, n) {
        var e :| e in candidates && e.name == name;
        var i :| 0 <= i < n && candidates[i] == e;
      }
    } else {
      assert candidates[n] in candidates;
    }
  }

  lemma FirstNamesGrow(entries: seq<Entry>, n: nat)
    requires n < |entries|
    ensures FirstNames(entries, n + 1) == FirstNames(entries, n) + {entries[n].name}
  {
  }

  lemma {:induction false} FirstNamesCount(entries: seq<Entry>, n: nat)
    requires n <= |entries| && DistinctNames(entries)
    ensures |FirstNames(entries, n)| == n
  {
    if n > 0 {
      FirstNamesCount(entries, n - 1);
      FirstNamesGrow(entries, n - 1);
    }
  }

  lemma StillThere(items: Items, name: string, complete: bool)
    requires name in items ==> items[name] == RunDirectory(false)
    ensures HasComplete(items) ==> HasComplete(items[name := RunDirectory(complete)])
  {
    if HasComplete(items) {
      var other :| other in items && items[other] == RunDirectory(true);
      assert items[name := RunDirectory(complete)][other] == RunDirectory(true);
    }
  }

  lemma StillThereWithout(items: Items, name: string)
    requires name in items ==> items[name] == RunDirectory(false)
    ensures HasComplete(items) ==> HasComplete(items - {name})
  {
    if HasComplete(items) {
      var other :| other in items && items[other] == RunDirectory(true);
      assert (items - {name})[other] == RunDirectory(true);
    }
  }

  lemma RemovalStep(items: Items, removed: seq<Entry>, n: nat)
    requires n < |removed|
    requires RemoveAll(items, removed[..n]) == items - FirstNames(removed, n)
    ensures RemoveAll(items, removed[..n + 1]) == RemoveAll(items, removed[..n]) - {removed[n].name}
    ensures RemoveAll(items, removed[..n + 1]) == items - FirstNames(removed, n + 1)
  {
    RemoveOneMore(items, removed[..n], removed[n]);
    assert removed[..n + 1] == removed[..n] + [removed[n]];
    FirstNamesGrow(removed, n);
    assert items - FirstNames(removed, n + 1) == items - FirstNames(removed, n) - {removed[n].name};
  }

  lemma {:induction false} RemoveOneMore(items: Items, removed: seq<Entry>, last: Entry)
    ensures RemoveAll(items, removed + [last]) == RemoveAll(items, removed) - {last.name}
    decreases |removed|
  {
    if removed == [] {
      assert [last][1..] == [];
    } else {
      RemoveOneMore(items - {removed[0].name}, removed[1..], last);
      assert (removed + [last])[1..] == removed[1..] + [last];
    }
  }

  /** One more removal of a pass that leaves a complete run in the end. */
  lemma RemovalKeeps(items: Items, removed: seq<Entry>, n: nat)
    requires n < |removed|
    requires HasComplete(items) ==> HasComplete(RemoveAll(items, removed))
    ensures HasComplete(RemoveAll(items, removed[..n])) ==>
      HasComplete(RemoveAll(items, removed[..n]) - {removed[n].name})
  {
    RemoveAllRemoves(items, removed[..n]);
    if HasComplete(items) {
      PartOfAPassKeepsMore(items, removed, n, Gone);
    }
  }
}
