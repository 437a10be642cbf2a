/**
 * Which backup directories retention removes: the selection of the backup runner and that of the remote script.
 *
 * Times are milliseconds; a modification time may have a fraction. Name orders are parameters, because the runner
 * compares names by locale and the remote `sort` by bytes.
 */
module Retention {

  datatype Entry = Entry(name: string, mtime: real, isDirectory: bool)

  type NameOrder = (string, string) -> bool

  ghost predicate TotalNames(le: NameOrder) {
    && (forall a, b :: le(a, b) || le(b, a))
    && (forall a, b :: le(a, b) && le(b, a) ==> a == b)
    && (forall a, b, c :: le(a, b) && le(b, c) ==> le(a, c))
  }

  // ---------------------------------------------------------------------------------------------------------------
  // Sorting
  // ---------------------------------------------------------------------------------------------------------------

  /** How two entries of the same time are ordered. */
  datatype Order = Order(le: NameOrder, reversed: bool)

  /** Newest first; ties by name, upwards or downwards. */
  predicate Before(o: Order, a: Entry, b: Entry) {
    a.mtime > b.mtime || (a.mtime == b.mtime && if o.reversed then o.le(b.name, a.name) else o.le(a.name, b.name))
  }

  lemma BeforeIsOrder(o: Order, a: Entry, b: Entry, c: Entry)
    requires TotalNames(o.le)
    ensures Before(o, a, b) || Before(o, b, a)
    ensures Before(o, a, b) && Before(o, b, c) ==> Before(o, a, c)
    ensures Before(o, a, b) && Before(o, b, a) ==> a.name == b.name && a.mtime == b.mtime
  {
  }

  function Insert(o: Order, e: Entry, s: seq<Entry>): (r: seq<Entry>)
    ensures multiset(r) == multiset(s) + multiset{e}
  {
    if s == [] then [e]
    else if Before(o, e, s[0]) then [e] + s
    else
      assert s == [s[0]] + s[1..];
      [s[0]] + Insert(o, e, s[1..])
  }

  /** `sort` with a comparator; entries that compare equal are equal wherever it is used here. */
  function Sort(o: Order, s: seq<Entry>): (r: seq<Entry>)
    ensures multiset(r) == multiset(s)
  {
    if s == [] then []
    else
      assert s == [s[0]] + s[1..];
      Insert(o, s[0], Sort(o, s[1..]))
  }

  ghost predicate Sorted(o: Order, s: seq<Entry>) {
    s == [] || ((forall e :: e in multiset(s[1..]) ==> Before(o, s[0], e)) && Sorted(o, s[1..]))
  }

  lemma {:induction false} InsertSorted(o: Order, e: Entry, s: seq<Entry>)
    requires TotalNames(o.le) && Sorted(o, s)
    ensures Sorted(o, Insert(o, e, s))
  {
    if s != [] {
      assert s == [s[0]] + s[1..];
      if Before(o, e, s[0]) {
        assert ([e] + s)[1..] == s;
        forall x | x in multiset(s) ensures Before(o, e, x) {
          BeforeIsOrder(o, e, s[0], x);
        }
      } else {
        InsertSorted(o, e, s[1..]);
        BeforeIsOrder(o, e, s[0], e);
        var r := [s[0]] + Insert(o, e, s[1..]);
        assert r[1..] == Insert(o, e, s[1..]);
      }
    }
  }

  lemma {:induction false} SortSorts(o: Order, s: seq<Entry>)
    requires TotalNames(o.le)
    ensures Sorted(o, Sort(o, s))
  {
    if s != [] {
      SortSorts(o, s[1..]);
      InsertSorted(o, s[0], Sort(o, s[1..]));
    }
  }

  ghost predicate AllDirectories(s: seq<Entry>) {
    forall e :: e in multiset(s) ==> e.isDirectory
  }

  /** The first of a sorted sequence comes before every element. */
  lemma FirstComesFirst(o: Order, s: seq<Entry>, e: Entry)
    requires TotalNames(o.le) && Sorted(o, s) && e in multiset(s)
    ensures s != [] && Before(o, s[0], e)
  {
    assert s == [s[0]] + s[1..];
    BeforeIsOrder(o, e, e, e);
  }

  lemma HeadsAgree(o: Order, a: seq<Entry>, b: seq<Entry>)
    requires TotalNames(o.le) && a != [] && multiset(a) == multiset(b) && AllDirectories(a)
    requires Sorted(o, a) && Sorted(o, b)
    ensures b != [] && a[0] == b[0]
  {
    assert |multiset(a)| == |a| && |multiset(b)| == |b|;
    assert a[0] in multiset(a) && b[0] in multiset(b);
    FirstComesFirst(o, a, b[0]);
    FirstComesFirst(o, b, a[0]);
    BeforeIsOrder(o, a[0], b[0], a[0]);
  }

  lemma TailsAgree(a: seq<Entry>, b: seq<Entry>)
    requires a != [] && b != [] && a[0] == b[0] && multiset(a) == multiset(b)
    ensures multiset(a[1..]) == multiset(b[1..])
  {
    assert a == [a[0]] + a[1..] && b == [b[0]] + b[1..];
    assert multiset(a[1..]) == multiset(a) - multiset{a[0]};
    assert multiset(b[1..]) == multiset(b) - multiset{b[0]};
  }

  /** There is one sorted arrangement of the same directories. */
  lemma {:induction false} SortedIsUnique(o: Order, a: seq<Entry>, b: seq<Entry>)
    requires TotalNames(o.le) && multiset(a) == multiset(b) && AllDirectories(a)
    requires Sorted(o, a) && Sorted(o, b)
    ensures a == b
  {
    if a == [] {
      assert |multiset(b)| == |b|;
    } else {
      HeadsAgree(o, a, b);
      TailsAgree(a, b);
      assert multiset(a[1..]) <= multiset(a) by {
        assert a == [a[0]] + a[1..];
      }
      SortedIsUnique(o, a[1..], b[1..]);
      assert a == [a[0]] + a[1..] && b == [b[0]] + b[1..];
    }
  }

  // ---------------------------------------------------------------------------------------------------------------
  // The runner's selection
  // ---------------------------------------------------------------------------------------------------------------

  function Directories(entries: seq<Entry>): seq<Entry> {
    if entries == [] then []
    else (if entries[0].isDirectory then [entries[0]] else []) + Directories(entries[1..])
  }

  function Older(entries: seq<Entry>, cutoff: real): seq<Entry> {
    if entries == [] then []
    else (if entries[0].mtime < cutoff then [entries[0]] else []) + Older(entries[1..], cutoff)
  }

  /** The directories, newest first and then by name. */
  function Listing(le: NameOrder, entries: seq<Entry>): seq<Entry> {
    Sort(Order(le, false), Directories(entries))
  }

  function SelectBackupRetentionCandidates(le: NameOrder, entries: seq<Entry>, cutoff: real): seq<Entry> {
    var directories := Listing(le, entries);
    if directories == [] then [] else Older(directories[1..], cutoff)
  }

  lemma {:induction false} DirectoriesAre(entries: seq<Entry>)
    ensures forall e :: e in Directories(entries) <==> e in entries && e.isDirectory
    ensures forall e :: multiset(Directories(entries))[e] == if e.isDirectory then multiset(entries)[e] else 0
  {
    if entries != [] {
      DirectoriesAre(entries[1..]);
      assert entries == [entries[0]] + entries[1..];
    }
  }

  lemma {:induction false} OlderAre(entries: seq<Entry>, cutoff: real)
    ensures forall e :: e in Older(entries, cutoff) <==> e in entries && e.mtime < cutoff
    ensures forall e :: multiset(Older(entries, cutoff))[e] == if e.mtime < cutoff then multiset(entries)[e] else 0
  {
    if entries != [] {
      OlderAre(entries[1..], cutoff);
      assert entries == [entries[0]] + entries[1..];
    }
  }

  ghost predicate DistinctNames(entries: seq<Entry>) {
    forall i, j :: 0 <= i < j < |entries| ==> entries[i].name != entries[j].name
  }

  lemma SameNameIsSameEntry(inventory: seq<Entry>, a: Entry, b: Entry)
    requires DistinctNames(inventory) && a in inventory && b in inventory
    ensures a.name == b.name ==> a == b
  {
    var i :| 0 <= i < |inventory| && inventory[i] == a;
    var j :| 0 <= j < |inventory| && inventory[j] == b;
  }

  /** The directory that comes before all others. */
  ghost predicate IsFirst(o: Order, entries: seq<Entry>, e: Entry) {
    e in entries && e.isDirectory
    && forall d :: d in entries && d.isDirectory ==> Before(o, e, d)
  }

  /** The directory that the runner always keeps. */
  ghost predicate IsNewest(le: NameOrder, entries: seq<Entry>, e: Entry) {
    IsFirst(Order(le, false), entries, e)
  }

  lemma ListingElements(o: Order, entries: seq<Entry>, e: Entry)
    ensures e in Sort(o, Directories(entries)) <==> e in entries && e.isDirectory
  {
    DirectoriesAre(entries);
    assert e in Sort(o, Directories(entries)) <==> e in multiset(Sort(o, Directories(entries)));
    assert e in Directories(entries) <==> e in multiset(Directories(entries));
  }

  /** The head of a listing comes before all others, and nothing else does. */
  lemma HeadIsFirst(o: Order, entries: seq<Entry>, e: Entry)
    requires TotalNames(o.le) && Sort(o, Directories(entries)) != []
    ensures IsFirst(o, entries, e) <==> e == Sort(o, Directories(entries))[0]
  {
    var listing := Sort(o, Directories(entries));
    var first := listing[0];
    SortSorts(o, Directories(entries));
    ListingElements(o, entries, first);
    forall d | d in entries && d.isDirectory ensures Before(o, first, d) {
      ListingElements(o, entries, d);
      FirstComesFirst(o, listing, d);
    }
    if IsFirst(o, entries, e) {
      BeforeIsOrder(o, e, first, e);
    }
  }

  lemma {:induction false} CountByName(entries: seq<Entry>, e: Entry)
    requires DistinctNames(entries)
    ensures multiset(entries)[e] <= 1
  {
    if entries != [] {
      assert entries == [entries[0]] + entries[1..];
      CountByName(entries[1..], e);
      if entries[0] == e {
        assert e !in entries[1..];
      }
    }
  }

  lemma TwiceIsTwo(s: seq<Entry>, i: nat, j: nat)
    requires i < j < |s| && s[i] == s[j]
    ensures multiset(s)[s[i]] >= 2
  {
    assert s == s[..j] + [s[j]] + s[j + 1..];
    assert s[..j][i] == s[i];
  }

  lemma PartKeepsNamesDistinct(a: seq<Entry>, b: seq<Entry>)
    requires DistinctNames(a) && multiset(b) <= multiset(a)
    ensures DistinctNames(b)
  {
    forall i: nat, j: nat | i < j < |b| ensures b[i].name != b[j].name {
      assert b[i] in multiset(b) && b[j] in multiset(b);
      CountByName(a, b[i]);
      SameNameIsSameEntry(a, b[i], b[j]);
      if b[i] == b[j] {
        TwiceIsTwo(b, i, j);
      }
    }
  }

  lemma HeadIsListedOnce(s: seq<Entry>)
    requires s != [] && multiset(s)[s[0]] <= 1
    ensures s[0] !in s[1..]
    ensures forall e :: e in s <==> e == s[0] || e in s[1..]
  {
    assert s == [s[0]] + s[1..];
    assert multiset(s)[s[0]] == 1 + multiset(s[1..])[s[0]];
    assert s[0] !in multiset(s[1..]);
  }

  /** With distinct names the tail of a listing holds every directory but the first. */
  lemma TailElements(o: Order, entries: seq<Entry>, e: Entry)
    requires TotalNames(o.le) && DistinctNames(entries) && Sort(o, Directories(entries)) != []
    ensures e in Sort(o, Directories(entries))[1..] <==> e in entries && e.isDirectory && !IsFirst(o, entries, e)
  {
    var listing := Sort(o, Directories(entries));
    assert multiset(listing)[listing[0]] <= 1 by {
      DirectoriesAre(entries);
      CountByName(entries, listing[0]);
    }
    HeadIsListedOnce(listing);
    ListingElements(o, entries, e);
    HeadIsFirst(o, entries, e);
  }

  /** The selection is exactly the directories older than the cutoff other than the newest one. */
  lemma SelectionIsExact(le: NameOrder, entries: seq<Entry>, cutoff: real, e: Entry)
    requires TotalNames(le) && DistinctNames(entries)
    ensures e in SelectBackupRetentionCandidates(le, entries, cutoff) <==>
      e in entries && e.isDirectory && e.mtime < cutoff && !IsNewest(le, entries, e)
  {
    var listing := Listing(le, entries);
    ListingElements(Order(le, false), entries, e);
    if listing != [] {
      OlderAre(listing[1..], cutoff);
      TailElements(Order(le, false), entries, e);
    }
  }

  lemma ListingIsPart(le: NameOrder, entries: seq<Entry>)
    ensures multiset(Listing(le, entries)) <= multiset(entries)
  {
    DirectoriesAre(entries);
  }

  lemma OlderIsPart(entries: seq<Entry>, cutoff: real)
    ensures multiset(Older(entries, cutoff)) <= multiset(entries)
  {
    OlderAre(entries, cutoff);
  }

  lemma TailIsPart(entries: seq<Entry>)
    requires entries != []
    ensures multiset(entries[1..]) <= multiset(entries)
  {
    assert entries == [entries[0]] + entries[1..];
  }

  /** Nothing is selected more often than it is listed. */
  lemma SelectionIsPart(le: NameOrder, entries: seq<Entry>, cutoff: real)
    ensures multiset(SelectBackupRetentionCandidates(le, entries, cutoff)) <= multiset(entries)
  {
    var listing := Listing(le, entries);
    if listing != [] {
      ListingIsPart(le, entries);
      TailIsPart(listing);
      OlderIsPart(listing[1..], cutoff);
    }
  }

  lemma ListingIgnoresOrder(le: NameOrder, a: seq<Entry>, b: seq<Entry>)
    requires TotalNames(le) && multiset(Directories(a)) == multiset(Directories(b))
    ensures Listing(le, a) == Listing(le, b)
  {
    var o := Order(le, false);
    SortSorts(o, Directories(a));
    SortSorts(o, Directories(b));
    DirectoriesAre(a);
    assert forall e :: e in multiset(Directories(a)) ==> e in Directories(a);
    SortedIsUnique(o, Listing(le, a), Listing(le, b));
  }

  /** The order in which the directory was listed does not matter. */
  lemma SelectionIgnoresListingOrder(le: NameOrder, a: seq<Entry>, b: seq<Entry>, cutoff: real)
    requires TotalNames(le) && multiset(a) == multiset(b)
    ensures SelectBackupRetentionCandidates(le, a, cutoff) == SelectBackupRetentionCandidates(le, b, cutoff)
  {
    DirectoriesAre(a);
    DirectoriesAre(b);
    assert multiset(Directories(a)) == multiset(Directories(b));
    ListingIgnoresOrder(le, a, b);
  }

  /** A later cutoff selects more. */
  lemma SelectionGrowsWithCutoff(le: NameOrder, entries: seq<Entry>, early: real, late: real, e: Entry)
    requires early <= late
    requires e in SelectBackupRetentionCandidates(le, entries, early)
    ensures e in SelectBackupRetentionCandidates(le, entries, late)
  {
    var listing := Listing(le, entries);
    OlderAre(listing[1..], early);
    OlderAre(listing[1..], late);
  }

  lemma SomethingIsIn(s: seq<Entry>)
    requires s != []
    ensures exists e :: e in s
  {
    assert s[0] in s;
  }

  /** Once the selected directories are gone, nothing is selected at the same cutoff. */
  lemma SelectionIsIdempotent(le: NameOrder, entries: seq<Entry>, survivors: seq<Entry>, cutoff: real)
    requires TotalNames(le) && DistinctNames(entries) && DistinctNames(survivors)
    requires forall e :: e in survivors <==> e in entries && e !in SelectBackupRetentionCandidates(le, entries, cutoff)
    ensures SelectBackupRetentionCandidates(le, survivors, cutoff) == []
  {
    var again := SelectBackupRetentionCandidates(le, survivors, cutoff);
    forall e ensures e !in again {
      SelectionIsExact(le, survivors, cutoff, e);
      SelectionIsExact(le, entries, cutoff, e);
    }
    if again != [] {
      SomethingIsIn(again);
    }
  }

  // ---------------------------------------------------------------------------------------------------------------
  // The remote script
  // ---------------------------------------------------------------------------------------------------------------

  const SECONDS_PER_DAY := 86400

  /** `stat -c %Y`: whole seconds. */
  function Seconds(ms: real): int {
    (ms / 1000.0).Floor
  }

  /** `date -d 'N days ago' +%s` in UTC. */
  function RemoteCutoff(now: real, retentionDays: nat): int {
    Seconds(now) - retentionDays * SECONDS_PER_DAY
  }

  /** `Date.now() - N * 24 * 60 * 60 * 1000`. */
  function LocalCutoff(now: real, retentionDays: nat): real {
    now - (retentionDays * SECONDS_PER_DAY) as real * 1000.0
  }

  /** `sort -z -nr`: newest first; records with the same time come in reversed byte order. */
  function RemoteListing(bytes: NameOrder, entries: seq<Entry>): seq<Entry> {
    Sort(Order(bytes, true), Directories(entries))
  }

  function RemoteOlder(entries: seq<Entry>, cutoff: int): seq<Entry> {
    if entries == [] then []
    else (if Seconds(entries[0].mtime) < cutoff then [entries[0]] else []) + RemoteOlder(entries[1..], cutoff)
  }

  /** The loop starts at index 1, so the first record is kept. */
  function RemoteSelection(bytes: NameOrder, entries: seq<Entry>, now: real, retentionDays: nat): seq<Entry> {
    var records := RemoteListing(bytes, entries);
    if records == [] then [] else RemoteOlder(records[1..], RemoteCutoff(now, retentionDays))
  }

  lemma {:induction false} RemoteOlderAre(entries: seq<Entry>, cutoff: int)
    ensures forall e :: e in RemoteOlder(entries, cutoff) <==> e in entries && Seconds(e.mtime) < cutoff
  {
    if entries != [] {
      RemoteOlderAre(entries[1..], cutoff);
      assert entries == [entries[0]] + entries[1..];
    }
  }

  /** The directory that the remote script always keeps. */
  ghost predicate IsRemoteNewest(bytes: NameOrder, entries: seq<Entry>, e: Entry) {
    IsFirst(Order(bytes, true), entries, e)
  }

  lemma SecondsBelow(ms: real, cutoff: int)
    ensures Seconds(ms) < cutoff <==> ms < cutoff as real * 1000.0
  {
    var x := ms / 1000.0;
    assert x.Floor as real <= x < (x.Floor + 1) as real;
  }

  /** The cutoffs differ by the fraction of a second in the clock. */
  lemma CutoffsDiffer(now: real, retentionDays: nat)
    ensures RemoteCutoff(now, retentionDays) as real * 1000.0 <= LocalCutoff(now, retentionDays)
    ensures LocalCutoff(now, retentionDays) < RemoteCutoff(now, retentionDays) as real * 1000.0 + 1000.0
    ensures RemoteCutoff(now, retentionDays) == (LocalCutoff(now, retentionDays) / 1000.0).Floor
  {
    var x, d := now / 1000.0, retentionDays * SECONDS_PER_DAY;
    assert x.Floor as real <= x < (x.Floor + 1) as real;
    assert LocalCutoff(now, retentionDays) / 1000.0 == x - d as real;
    assert (x - d as real).Floor == x.Floor - d;
  }

  /** The remote selection is exactly the directories older than the remote cutoff other than the one it keeps. */
  lemma RemoteSelectionIsExact(bytes: NameOrder, entries: seq<Entry>, now: real, retentionDays: nat, e: Entry)
    requires TotalNames(bytes) && DistinctNames(entries)
    ensures e in RemoteSelection(bytes, entries, now, retentionDays) <==>
      && e in entries && e.isDirectory && Seconds(e.mtime) < RemoteCutoff(now, retentionDays)
      && !IsRemoteNewest(bytes, entries, e)
  {
    var o, records := Order(bytes, true), RemoteListing(bytes, entries);
    ListingElements(o, entries, e);
    if records != [] {
      RemoteOlderAre(records[1..], RemoteCutoff(now, retentionDays));
      TailElements(o, entries, e);
    }
  }

  lemma RemoteCutoffIsEarlier(now: real, retentionDays: nat, ms: real)
    ensures Seconds(ms) < RemoteCutoff(now, retentionDays) ==> ms < LocalCutoff(now, retentionDays)
    ensures Seconds(ms) < RemoteCutoff(now, retentionDays) <==>
      ms < (LocalCutoff(now, retentionDays) / 1000.0).Floor as real * 1000.0
  {
    CutoffsDiffer(now, retentionDays);
    SecondsBelow(ms, RemoteCutoff(now, retentionDays));
  }

  /**
   * On any inventory and the same clock, the remote script removes what the runner removes or keeps as its newest, as
   * far as it is older than the cutoff floored to a second, except the directory that the script itself keeps.
   */
  lemma RemoteAgainstLocal(le: NameOrder, bytes: NameOrder, entries: seq<Entry>, now: real, retentionDays: nat,
        e: Entry)
    requires TotalNames(le) && TotalNames(bytes) && DistinctNames(entries)
    ensures var local := SelectBackupRetentionCandidates(le, entries, LocalCutoff(now, retentionDays));
      e in RemoteSelection(bytes, entries, now, retentionDays) <==>
        && (e in local || IsNewest(le, entries, e)) && !IsRemoteNewest(bytes, entries, e)
        && e.mtime < (LocalCutoff(now, retentionDays) / 1000.0).Floor as real * 1000.0
  {
    RemoteSelectionIsExact(bytes, entries, now, retentionDays, e);
    SelectionIsExact(le, entries, LocalCutoff(now, retentionDays), e);
    RemoteCutoffIsEarlier(now, retentionDays, e.mtime);
  }

  /** Where both keep the same directory, the remote script spares exactly the directories between the two cutoffs. */
  lemma RemoteRemovesASubset(le: NameOrder, bytes: NameOrder, entries: seq<Entry>, now: real, retentionDays: nat,
        e: Entry)
    requires TotalNames(le) && TotalNames(bytes) && DistinctNames(entries)
    requires IsNewest(le, entries, e) <==> IsRemoteNewest(bytes, entries, e)
    ensures var local := SelectBackupRetentionCandidates(le, entries, LocalCutoff(now, retentionDays));
      e in RemoteSelection(bytes, entries, now, retentionDays) <==>
        e in local && e.mtime < (LocalCutoff(now, retentionDays) / 1000.0).Floor as real * 1000.0
  {
    RemoteAgainstLocal(le, bytes, entries, now, retentionDays, e);
    SelectionIsExact(le, entries, LocalCutoff(now, retentionDays), e);
  }

  /** The remote script removes nothing that the runner would keep. */
  ghost predicate RemoteIsSubset(le: NameOrder, bytes: NameOrder, entries: seq<Entry>, now: real, retentionDays: nat) {
    forall e :: e in RemoteSelection(bytes, entries, now, retentionDays) ==>
      e in SelectBackupRetentionCandidates(le, entries, LocalCutoff(now, retentionDays))
  }

  /** That is so exactly when both keep the same directory, or the runner's is not yet old enough for the script. */
  lemma RemoteIsSubsetExactly(le: NameOrder, bytes: NameOrder, entries: seq<Entry>, now: real, retentionDays: nat)
    requires TotalNames(le) && TotalNames(bytes) && DistinctNames(entries) && Listing(le, entries) != []
    ensures RemoteListing(bytes, entries) != []
    ensures var mine, theirs := Listing(le, entries)[0], RemoteListing(bytes, entries)[0];
      RemoteIsSubset(le, bytes, entries, now, retentionDays) <==>
        mine == theirs || Seconds(mine.mtime) >= RemoteCutoff(now, retentionDays)
  {
    var p, q := Order(le, false), Order(bytes, true);
    var mine := Listing(le, entries)[0];
    ListingElements(p, entries, mine);
    ListingElements(q, entries, mine);
    var theirs := RemoteListing(bytes, entries)[0];
    HeadIsFirst(p, entries, mine);
    HeadIsFirst(q, entries, mine);
    RemoteSelectionIsExact(bytes, entries, now, retentionDays, mine);
    SelectionIsExact(le, entries, LocalCutoff(now, retentionDays), mine);
    forall e | e in RemoteSelection(bytes, entries, now, retentionDays) && e != mine
      ensures e in SelectBackupRetentionCandidates(le, entries, LocalCutoff(now, retentionDays))
    {
      RemoteAgainstLocal(le, bytes, entries, now, retentionDays, e);
      HeadIsFirst(p, entries, e);
    }
  }

  /** Another directory is newer, or as new with a name that comes first. */
  ghost predicate IsOutlived(le: NameOrder, entries: seq<Entry>, e: Entry) {
    exists d :: d in entries && d.isDirectory && d.name != e.name
      && (d.mtime > e.mtime || (d.mtime == e.mtime && le(d.name, e.name)))
  }

  /** Another directory is newer, or as new with a name that comes last. */
  ghost predicate IsOutlivedRemotely(bytes: NameOrder, entries: seq<Entry>, e: Entry) {
    exists d :: d in entries && d.isDirectory && d.name != e.name
      && (d.mtime > e.mtime || (d.mtime == e.mtime && bytes(e.name, d.name)))
  }

  lemma NewestIsNotOutlived(le: NameOrder, entries: seq<Entry>, e: Entry)
    requires TotalNames(le) && DistinctNames(entries) && e in entries && e.isDirectory
    ensures IsNewest(le, entries, e) <==> !IsOutlived(le, entries, e)
  {
    FirstIsNotOutlived(Order(le, false), entries, e);
  }

  lemma RemoteNewestIsNotOutlived(bytes: NameOrder, entries: seq<Entry>, e: Entry)
    requires TotalNames(bytes) && DistinctNames(entries) && e in entries && e.isDirectory
    ensures IsRemoteNewest(bytes, entries, e) <==> !IsOutlivedRemotely(bytes, entries, e)
  {
    FirstIsNotOutlived(Order(bytes, true), entries, e);
  }

  lemma FirstIsNotOutlived(o: Order, entries: seq<Entry>, e: Entry)
    requires TotalNames(o.le) && DistinctNames(entries) && e in entries && e.isDirectory
    ensures IsFirst(o, entries, e) <==>
      !exists d :: d in entries && d.isDirectory && d.name != e.name && Before(o, d, e)
  {
    forall d | d in entries && d.isDirectory && d.name != e.name ensures Before(o, d, e) <==> !Before(o, e, d) {
      BeforeIsOrder(o, d, e, d);
    }
    forall d | d in entries && d.name == e.name ensures d == e && Before(o, e, d) {
      SameNameIsSameEntry(entries, d, e);
      BeforeIsOrder(o, e, e, e);
    }
  }

  /** In numbers: the runner removes what is older than so many days of 86,400,000 milliseconds and outlived. */
  lemma LocalSelectionInMilliseconds(le: NameOrder, entries: seq<Entry>, now: real, retentionDays: nat, e: Entry)
    requires TotalNames(le) && DistinctNames(entries)
    ensures e in SelectBackupRetentionCandidates(le, entries, LocalCutoff(now, retentionDays)) <==>
      && e in entries && e.isDirectory && now - e.mtime > retentionDays as real * 86400000.0
      && IsOutlived(le, entries, e)
  {
    SelectionIsExact(le, entries, LocalCutoff(now, retentionDays), e);
    if e in entries && e.isDirectory {
      NewestIsNotOutlived(le, entries, e);
    }
    assert (retentionDays * 86400) as real * 1000.0 == retentionDays as real * 86400000.0;
  }

  /** And the script what is older than so many days of 86,400 seconds, both times in whole seconds, and outlived. */
  lemma RemoteSelectionInSeconds(bytes: NameOrder, entries: seq<Entry>, now: real, retentionDays: nat, e: Entry)
    requires TotalNames(bytes) && DistinctNames(entries)
    ensures e in RemoteSelection(bytes, entries, now, retentionDays) <==>
      && e in entries && e.isDirectory && (now / 1000.0).Floor - (e.mtime / 1000.0).Floor > retentionDays * 86400
      && IsOutlivedRemotely(bytes, entries, e)
  {
    RemoteSelectionIsExact(bytes, entries, now, retentionDays, e);
    if e in entries && e.isDirectory {
      RemoteNewestIsNotOutlived(bytes, entries, e);
    }
  }

  /** An inventory without other directories of the newest time is one on which both keep the same. */
  lemma AloneAtTheTopIsKeptByBoth(le: NameOrder, bytes: NameOrder, entries: seq<Entry>, newest: Entry, e: Entry)
    requires TotalNames(le) && TotalNames(bytes) && newest in entries && newest.isDirectory
    requires forall d :: d in entries && d.isDirectory && d != newest ==> d.mtime < newest.mtime
    ensures IsNewest(le, entries, e) <==> IsRemoteNewest(bytes, entries, e)
  {
    BeforeIsOrder(Order(le, false), newest, newest, newest);
    BeforeIsOrder(Order(bytes, true), newest, newest, newest);
    assert IsFirst(Order(le, false), entries, newest) && IsFirst(Order(bytes, true), entries, newest);
  }

  /** So the script removes a subset wherever no two directories share the newest time. */
  lemma SingleNewestRemovesASubset(le: NameOrder, bytes: NameOrder, entries: seq<Entry>, newest: Entry, now: real,
        retentionDays: nat, e: Entry)
    requires TotalNames(le) && TotalNames(bytes) && DistinctNames(entries) && newest in entries && newest.isDirectory
    requires forall d :: d in entries && d.isDirectory && d != newest ==> d.mtime < newest.mtime
    ensures var local := SelectBackupRetentionCandidates(le, entries, LocalCutoff(now, retentionDays));
      e in RemoteSelection(bytes, entries, now, retentionDays) <==>
        e in local && e.mtime < (LocalCutoff(now, retentionDays) / 1000.0).Floor as real * 1000.0
  {
    AloneAtTheTopIsKeptByBoth(le, bytes, entries, newest, e);
    RemoteRemovesASubset(le, bytes, entries, now, retentionDays, e);
  }

  /** An input on which they differ: names break a tie at the top in opposite directions. */
  lemma TiesAreBrokenInOppositeWays(le: NameOrder, bytes: NameOrder, a: Entry, b: Entry, now: real, retentionDays: nat)
    requires TotalNames(le) && TotalNames(bytes) && a.isDirectory && b.isDirectory
    requires a.mtime == b.mtime && a.name != b.name && le(a.name, b.name) && bytes(a.name, b.name)
    requires Seconds(a.mtime) < RemoteCutoff(now, retentionDays)
    ensures SelectBackupRetentionCandidates(le, [a, b], LocalCutoff(now, retentionDays)) == [b]
    ensures RemoteSelection(bytes, [a, b], now, retentionDays) == [a]
  {
    TwoDirectories(Order(le, false), a, b);
    TwoDirectories(Order(bytes, true), a, b);
    SecondsBelow(a.mtime, RemoteCutoff(now, retentionDays));
    CutoffsDiffer(now, retentionDays);
    assert [a, b][1..] == [b] && [b, a][1..] == [a] && [a][1..] == [] && [b][1..] == [];
    assert Older([b], LocalCutoff(now, retentionDays)) == [b] + [];
    assert RemoteOlder([a], RemoteCutoff(now, retentionDays)) == [a] + [];
  }

  lemma TwoDirectories(o: Order, a: Entry, b: Entry)
    requires TotalNames(o.le) && a.isDirectory && b.isDirectory && a.name != b.name
    ensures Sort(o, Directories([a, b])) == if Before(o, a, b) then [a, b] else [b, a]
  {
    assert [a, b][1..] == [b] && [b][1..] == [];
    assert Directories([]) == [] && Directories([b]) == [b] + [] && Directories([a, b]) == [a] + ([b] + []);
    assert Directories([a, b]) == [a, b];
    assert Sort(o, []) == [] && Sort(o, [b]) == Insert(o, b, []) == [b];
    assert Sort(o, [a, b]) == Insert(o, a, [b]);
    assert Insert(o, a, []) == [a];
    assert [b] + [a] == [b, a] && [a] + [b] == [a, b];
  }
}
