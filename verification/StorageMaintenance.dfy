/**
 * Storage maintenance of a release root: which releases may go.
 *
 * A release is an `Entry` of the inventory; releases are directories, and their sizes come from outside.
 */
module StorageMaintenance {
  import opened Prelude
  import opened Retention

  // ---------------------------------------------------------------------------------------------------------------
  // Selection
  // ---------------------------------------------------------------------------------------------------------------

  /** A release that was modified at `cutoff` has just reached the minimum age. */
  datatype Options = Options(active: Option<string>, pinned: set<string>, metadata: set<string>, keep: nat,
                             cutoff: real)

  /** The reasons listed for a release, in the order of the fields; without any it is a candidate. */
  datatype Reasons = Reasons(active: bool, latest: bool, pinned: bool, metadata: bool, minimumAge: bool)
  {
    predicate Marked() { active || latest || pinned || metadata }

    predicate Protect() { Marked() || minimumAge }
  }

  datatype Protected = Protected(entry: Entry, reasons: Reasons)

  /** Newest first; ties by name downwards. */
  function ReleaseOrder(le: NameOrder): Order {
    Order(le, true)
  }

  /** Fewer than `keep` releases come before this one. */
  ghost predicate IsAmongNewest(le: NameOrder, entries: seq<Entry>, keep: nat, e: Entry) {
    |set d | d in entries && d != e && Before(ReleaseOrder(le), d, e)| < keep
  }

  /** Younger than the minimum age. */
  predicate IsYoung(o: Options, e: Entry) {
    e.mtime > o.cutoff
  }

  ghost predicate IsRemovable(le: NameOrder, entries: seq<Entry>, o: Options, e: Entry) {
    && o.active != Some(e.name)
    && !IsAmongNewest(le, entries, o.keep, e)
    && e.name !in o.pinned
    && e.name !in o.metadata
    && !IsYoung(o, e)
  }

  /** Why a release stays; its age counts only when nothing else does. */
  ghost function ReasonsFor(le: NameOrder, entries: seq<Entry>, o: Options, e: Entry): Reasons {
    var marks := Reasons(o.active == Some(e.name), IsAmongNewest(le, entries, o.keep, e), e.name in o.pinned,
                         e.name in o.metadata, false);
    marks.(minimumAge := !marks.Marked())
  }

  function EntriesOf(s: seq<Protected>): (entries: seq<Entry>)
    ensures |entries| == |s| && forall i :: 0 <= i < |s| ==> entries[i] == s[i].entry
  {
    seq(|s|, i requires 0 <= i < |s| => s[i].entry)
  }

  ghost predicate InOrder(le: NameOrder, s: seq<Entry>) {
    forall i, j :: 0 <= i < j < |s| ==> Before(ReleaseOrder(le), s[i], s[j])
  }

  lemma {:induction false} SortedIsInOrder(le: NameOrder, s: seq<Entry>)
    requires Sorted(ReleaseOrder(le), s)
    ensures InOrder(le, s)
  {
    if s != [] {
      SortedIsInOrder(le, s[1..]);
      forall j | 0 < j < |s| ensures Before(ReleaseOrder(le), s[0], s[j]) {
        assert s[1..][j - 1] in multiset(s[1..]);
      }
    }
  }

  ghost function Members(s: seq<Entry>): set<Entry> {
    set e | e in s
  }

  lemma {:induction false} DistinctSize(s: seq<Entry>)
    requires DistinctNames(s)
    ensures |Members(s)| == |s|
  {
    if s != [] {
      var n := |s| - 1;
      DistinctSize(s[..n]);
      assert s[n] !in s[..n];
      assert Members(s) == Members(s[..n]) + {s[n]};
    }
  }

  /** What comes before a release in the order stands before it in the sorted inventory. */
  lemma BeforeIsEarlier(le: NameOrder, s: seq<Entry>, i: nat, d: Entry)
    requires TotalNames(le) && i < |s| && InOrder(le, s) && DistinctNames(s)
    ensures d in s && d != s[i] && Before(ReleaseOrder(le), d, s[i]) <==> d in s[..i]
  {
    if d in s && d != s[i] && Before(ReleaseOrder(le), d, s[i]) {
      var k :| 0 <= k < |s| && s[k] == d;
      BeforeIsOrder(ReleaseOrder(le), d, s[i], d);
      assert k < i;
      assert s[..i][k] == d;
    }
  }

  /** The place of a release in the sorted inventory is the number of releases before it. */
  lemma RankIsPlace(le: NameOrder, entries: seq<Entry>, s: seq<Entry>, i: nat)
    requires TotalNames(le) && multiset(s) == multiset(entries)
    requires InOrder(le, s) && DistinctNames(s) && i < |s|
    ensures |set d | d in entries && d != s[i] && Before(ReleaseOrder(le), d, s[i])| == i
  {
    DistinctSize(s[..i]);
    forall d ensures d in entries && d != s[i] && Before(ReleaseOrder(le), d, s[i]) <==> d in s[..i] {
      assert d in entries <==> d in multiset(entries);
      assert d in s <==> d in multiset(s);
      BeforeIsEarlier(le, s, i, d);
    }
    assert (set d | d in entries && d != s[i] && Before(ReleaseOrder(le), d, s[i])) == Members(s[..i]);
  }

  /** The names of the first `keep` releases. */
  function NewestNames(ordered: seq<Entry>, keep: nat): set<string> {
    set k | 0 <= k < |ordered| && k < keep :: ordered[k].name
  }

  lemma NewestAreTheFirst(le: NameOrder, entries: seq<Entry>, s: seq<Entry>, keep: nat, i: nat)
    requires TotalNames(le) && multiset(s) == multiset(entries)
    requires InOrder(le, s) && DistinctNames(s) && i < |s|
    ensures s[i].name in NewestNames(s, keep) <==> IsAmongNewest(le, entries, keep, s[i])
  {
    RankIsPlace(le, entries, s, i);
  }

  function MarksOf(o: Options, newest: set<string>, e: Entry): Reasons {
    Reasons(o.active == Some(e.name), e.name in newest, e.name in o.pinned, e.name in o.metadata, false)
  }

  function ReasonsOf(o: Options, newest: set<string>, e: Entry): Reasons {
    var marks := MarksOf(o, newest, e);
    marks.(minimumAge := !marks.Marked() && IsYoung(o, e))
  }

  /** The loop's decision on one release is the right one. */
  lemma DecisionIsRight(le: NameOrder, entries: seq<Entry>, o: Options, newest: set<string>, e: Entry)
    requires e.name in newest <==> IsAmongNewest(le, entries, o.keep, e)
    ensures !ReasonsOf(o, newest, e).Protect() <==> IsRemovable(le, entries, o, e)
    ensures ReasonsOf(o, newest, e).Protect() ==> ReasonsOf(o, newest, e) == ReasonsFor(le, entries, o, e)
  {
  }

  /** One step of the loop. */
  function PutOnOneSide(protected: seq<Protected>, candidates: seq<Entry>, e: Entry, reasons: Reasons)
    : (seq<Protected>, seq<Entry>)
  {
    if reasons.Protect() then (protected + [Protected(e, reasons)], candidates) else (protected, candidates + [e])
  }

  /** Both lists of the loop after its first `n` rounds. */
  function SplitOf(o: Options, newest: set<string>, s: seq<Entry>, n: nat): (seq<Protected>, seq<Entry>)
    requires n <= |s|
  {
    if n == 0 then ([], [])
    else
      var before := SplitOf(o, newest, s, n - 1);
      PutOnOneSide(before.0, before.1, s[n - 1], ReasonsOf(o, newest, s[n - 1]))
  }

  lemma EntriesOfGrow(protected: seq<Protected>, p: Protected)
    ensures EntriesOf(protected + [p]) == EntriesOf(protected) + [p.entry]
  {
  }

  /** How often an entry occurs. */
  ghost function Count(s: seq<Entry>, x: Entry): nat {
    multiset(s)[x]
  }

  lemma CountGrows(s: seq<Entry>, e: Entry, x: Entry)
    ensures Count(s + [e], x) == Count(s, x) + if x == e then 1 else 0
  {
  }

  lemma CountOfPrefix(s: seq<Entry>, n: nat, x: Entry)
    requires 0 < n <= |s|
    ensures Count(s[..n], x) == Count(s[..n - 1], x) + if x == s[n - 1] then 1 else 0
  {
    assert s[..n - 1] + [s[n - 1]] == s[..n];
  }

  lemma StepCounts(protected: seq<Protected>, candidates: seq<Entry>, e: Entry, reasons: Reasons, x: Entry)
    ensures var next := PutOnOneSide(protected, candidates, e, reasons);
      Count(EntriesOf(next.0), x) + Count(next.1, x)
        == Count(EntriesOf(protected), x) + Count(candidates, x) + if x == e then 1 else 0
  {
    CountGrows(EntriesOf(protected), e, x);
    CountGrows(candidates, e, x);
    EntriesOfGrow(protected, Protected(e, reasons));
  }

  /** Every entry goes to exactly one side. */
  lemma {:induction false} SplitCounts(o: Options, newest: set<string>, s: seq<Entry>, n: nat, x: Entry)
    requires n <= |s|
    ensures Count(EntriesOf(SplitOf(o, newest, s, n).0), x) + Count(SplitOf(o, newest, s, n).1, x) == Count(s[..n], x)
  {
    if n > 0 {
      SplitCounts(o, newest, s, n - 1, x);
      var before := SplitOf(o, newest, s, n - 1);
      StepCounts(before.0, before.1, s[n - 1], ReasonsOf(o, newest, s[n - 1]), x);
      CountOfPrefix(s, n, x);
    }
  }

  lemma SplitIsPartition(o: Options, newest: set<string>, s: seq<Entry>, n: nat)
    requires n <= |s|
    ensures multiset(EntriesOf(SplitOf(o, newest, s, n).0)) + multiset(SplitOf(o, newest, s, n).1) == multiset(s[..n])
  {
    var (protected, candidates) := SplitOf(o, newest, s, n);
    forall x ensures (multiset(EntriesOf(protected)) + multiset(candidates))[x] == multiset(s[..n])[x] {
      SplitCounts(o, newest, s, n, x);
    }
  }

  lemma {:induction false} SplitFollowsReasons(o: Options, newest: set<string>, s: seq<Entry>, n: nat)
    requires n <= |s|
    ensures var (protected, candidates) := SplitOf(o, newest, s, n);
      && (forall e :: e in candidates ==> !ReasonsOf(o, newest, e).Protect())
      && (forall p :: p in protected ==> p.reasons == ReasonsOf(o, newest, p.entry) && p.reasons.Protect())
  {
    if n > 0 {
      SplitFollowsReasons(o, newest, s, n - 1);
    }
  }

  lemma LaterGoesLast(le: NameOrder, seen: seq<Entry>, e: Entry, part: seq<Entry>)
    requires InOrder(le, seen + [e]) && InOrder(le, part) && multiset(part) <= multiset(seen)
    ensures InOrder(le, part + [e])
  {
    forall k | 0 <= k < |part| ensures Before(ReleaseOrder(le), part[k], e) {
      assert part[k] in multiset(part) && part[k] in multiset(seen);
      var n :| 0 <= n < |seen| && seen[n] == part[k];
      assert (seen + [e])[n] == part[k] && (seen + [e])[|seen|] == e;
    }
  }

  lemma {:induction false} SplitKeepsOrder(le: NameOrder, o: Options, newest: set<string>, s: seq<Entry>, n: nat)
    requires n <= |s| && InOrder(le, s)
    ensures InOrder(le, EntriesOf(SplitOf(o, newest, s, n).0)) && InOrder(le, SplitOf(o, newest, s, n).1)
  {
    if n > 0 {
      SplitKeepsOrder(le, o, newest, s, n - 1);
      SplitIsPartition(o, newest, s, n - 1);
      assert InOrder(le, s[..n - 1] + [s[n - 1]]);
      var before := SplitOf(o, newest, s, n - 1);
      LaterGoesLast(le, s[..n - 1], s[n - 1], EntriesOf(before.0));
      LaterGoesLast(le, s[..n - 1], s[n - 1], before.1);
      EntriesOfGrow(before.0, Protected(s[n - 1], ReasonsOf(o, newest, s[n - 1])));
    }
  }

  /** What the selection promises: every release is on one side, with the right reasons, in order. */
  ghost predicate IsSelection(le: NameOrder, entries: seq<Entry>, o: Options, protected: seq<Protected>,
        candidates: seq<Entry>) {
    && multiset(EntriesOf(protected)) + multiset(candidates) == multiset(entries)
    && (forall e :: e in candidates <==> e in entries && IsRemovable(le, entries, o, e))
    && (forall p :: p in protected ==> p.reasons == ReasonsFor(le, entries, o, p.entry))
    && InOrder(le, candidates) && InOrder(le, EntriesOf(protected))
  }

  lemma OnOneSide(o: Options, newest: set<string>, s: seq<Entry>, e: Entry)
    ensures e in SplitOf(o, newest, s, |s|).1 <==> e in s && !ReasonsOf(o, newest, e).Protect()
  {
    var (protected, candidates) := SplitOf(o, newest, s, |s|);
    SplitIsPartition(o, newest, s, |s|);
    SplitFollowsReasons(o, newest, s, |s|);
    assert s[..|s|] == s;
    assert e in s <==> e in multiset(s);
    assert e in candidates <==> e in multiset(candidates);
    if e in multiset(EntriesOf(protected)) {
      var k :| 0 <= k < |protected| && EntriesOf(protected)[k] == e;
      assert protected[k] in protected;
    }
  }

  lemma ProtectedAreEntries(o: Options, newest: set<string>, s: seq<Entry>, p: Protected)
    requires p in SplitOf(o, newest, s, |s|).0
    ensures p.entry in s && p.reasons == ReasonsOf(o, newest, p.entry) && p.reasons.Protect()
  {
    var protected := SplitOf(o, newest, s, |s|).0;
    SplitIsPartition(o, newest, s, |s|);
    SplitFollowsReasons(o, newest, s, |s|);
    assert s[..|s|] == s;
    var k :| 0 <= k < |protected| && protected[k] == p;
    assert EntriesOf(protected)[k] in multiset(EntriesOf(protected));
    assert p.entry in multiset(s);
  }

  /** The inventory as the loop sees it: sorted, with the same releases, each once. */
  lemma OrderedInventory(le: NameOrder, entries: seq<Entry>)
    requires TotalNames(le) && DistinctNames(entries)
    ensures var ordered := Sort(ReleaseOrder(le), entries);
      && InOrder(le, ordered) && DistinctNames(ordered) && multiset(ordered) == multiset(entries)
      && forall e :: e in ordered <==> e in entries
  {
    var ordered := Sort(ReleaseOrder(le), entries);
    SortSorts(ReleaseOrder(le), entries);
    SortedIsInOrder(le, ordered);
    PartKeepsNamesDistinct(entries, ordered);
    forall e ensures e in ordered <==> e in entries {
      assert e in ordered <==> e in multiset(ordered);
    }
  }

  /** Every decision of the loop is the right one. */
  lemma DecisionsAreRight(le: NameOrder, entries: seq<Entry>, o: Options, e: Entry)
    requires TotalNames(le) && DistinctNames(entries) && e in entries
    ensures var newest := NewestNames(Sort(ReleaseOrder(le), entries), o.keep);
      && (!ReasonsOf(o, newest, e).Protect() <==> IsRemovable(le, entries, o, e))
      && (ReasonsOf(o, newest, e).Protect() ==> ReasonsOf(o, newest, e) == ReasonsFor(le, entries, o, e))
  {
    var ordered := Sort(ReleaseOrder(le), entries);
    OrderedInventory(le, entries);
    var i :| 0 <= i < |ordered| && ordered[i] == e;
    NewestAreTheFirst(le, entries, ordered, o.keep, i);
    DecisionIsRight(le, entries, o, NewestNames(ordered, o.keep), e);
  }

  /** Exactly the removable releases are candidates; every other release is protected for the right reasons. */
  lemma ReleaseSelectionIsExact(le: NameOrder, entries: seq<Entry>, o: Options)
    requires TotalNames(le) && DistinctNames(entries)
    ensures var ordered := Sort(ReleaseOrder(le), entries);
      var (protected, candidates) := SplitOf(o, NewestNames(ordered, o.keep), ordered, |ordered|);
      IsSelection(le, entries, o, protected, candidates)
  {
    var ordered := Sort(ReleaseOrder(le), entries);
    var newest := NewestNames(ordered, o.keep);
    OrderedInventory(le, entries);
    var (protected, candidates) := SplitOf(o, newest, ordered, |ordered|);
    SplitKeepsOrder(le, o, newest, ordered, |ordered|);
    assert multiset(EntriesOf(protected)) + multiset(candidates) == multiset(entries) by {
      SplitIsPartition(o, newest, ordered, |ordered|);
      assert ordered[..|ordered|] == ordered;
    }
    forall p | p in protected ensures p.reasons == ReasonsFor(le, entries, o, p.entry) {
      ProtectedAreEntries(o, newest, ordered, p);
      DecisionsAreRight(le, entries, o, p.entry);
    }
    forall e ensures e in candidates <==> e in entries && IsRemovable(le, entries, o, e) {
      OnOneSide(o, newest, ordered, e);
      if e in entries {
        DecisionsAreRight(le, entries, o, e);
      }
    }
  }

  /** The loop over the sorted inventory. */
  method SplitReleases(o: Options, newest: set<string>, ordered: seq<Entry>)
    returns (protected: seq<Protected>, candidates: seq<Entry>)
    ensures (protected, candidates) == SplitOf(o, newest, ordered, |ordered|)
  {
    protected, candidates := [], [];
    for i := 0 to |ordered|
      invariant (protected, candidates) == SplitOf(o, newest, ordered, i)
    {
      var e := ordered[i];
      var reasons := MarksOf(o, newest, e);
      if reasons.Marked() || IsYoung(o, e) {
        if !reasons.Marked() {
          reasons := reasons.(minimumAge := true);
        }
        protected := protected + [Protected(e, reasons)];
      } else {
        candidates := candidates + [e];
      }
    }
  }

  method SelectReleaseCandidates(le: NameOrder, entries: seq<Entry>, o: Options)
    returns (protected: seq<Protected>, candidates: seq<Entry>)
    requires TotalNames(le) && DistinctNames(entries)
    ensures IsSelection(le, entries, o, protected, candidates)
  {
    var ordered := Sort(ReleaseOrder(le), entries);
    protected, candidates := SplitReleases(o, NewestNames(ordered, o.keep), ordered);
    ReleaseSelectionIsExact(le, entries, o);
  }
}
