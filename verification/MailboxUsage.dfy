/**
 * The cache of mailbox sizes: when it is accepted, and what a snapshot returns.
 *
 * The test looks targets up one way and compares lengths; the theorem says that this is a permutation.
 */
module MailboxUsage {
  import opened Prelude

  const SCHEMA_VERSION := 1
  const TTL_MS := 300000

  datatype Target = Target(address: string, domainName: string, localPart: string, maildirPath: string)

  datatype Entry = Entry(address: string, domainName: string, localPart: string, maildirPath: string,
                         usedBytes: Option<nat>, checkedAt: int)

  /** `generatedAt` is the parsed time, if the text was one. */
  datatype Payload = Payload(schemaVersion: int, generatedAt: Option<int>, entries: seq<Entry>)

  type Place = (string, string)

  function PlacesOfTargets(targets: seq<Target>): (places: seq<Place>)
    ensures |places| == |targets|
    ensures forall i :: 0 <= i < |targets| ==> places[i] == (targets[i].address, targets[i].maildirPath)
  {
    seq(|targets|, i requires 0 <= i < |targets| => (targets[i].address, targets[i].maildirPath))
  }

  function PlacesOf(entries: seq<Entry>): (places: seq<Place>)
    ensures |places| == |entries|
    ensures forall i :: 0 <= i < |entries| ==> places[i] == (entries[i].address, entries[i].maildirPath)
  {
    seq(|entries|, i requires 0 <= i < |entries| => (entries[i].address, entries[i].maildirPath))
  }

  /** `get` on a map built from pairs: the last pair of an address counts. */
  function PathOf(places: seq<Place>, address: string): Option<string> {
    if places == [] then None
    else if places[|places| - 1].0 == address then Some(places[|places| - 1].1)
    else PathOf(places[..|places| - 1], address)
  }

  predicate HasFreshMailboxUsageCache(cache: Option<Payload>, targets: seq<Target>, now: int) {
    if cache.None? || cache.value.schemaVersion != SCHEMA_VERSION then false
    else if cache.value.generatedAt.None? || now - cache.value.generatedAt.value > TTL_MS then false
    else if |cache.value.entries| != |targets| then false
    else
      var places := PlacesOf(cache.value.entries);
      forall i :: 0 <= i < |targets| ==> PathOf(places, targets[i].address) == Some(targets[i].maildirPath)
  }

  // ---------------------------------------------------------------------------------------------------------------
  // Sets and sequences
  // ---------------------------------------------------------------------------------------------------------------

  ghost function Elements(s: seq<Place>): set<Place> {
    set x | x in s
  }

  ghost predicate NoRepeats(s: seq<Place>) {
    forall i, j :: 0 <= i < j < |s| ==> s[i] != s[j]
  }

  lemma ElementsOfPrefix(s: seq<Place>)
    requires s != []
    ensures Elements(s) == Elements(s[..|s| - 1]) + {s[|s| - 1]}
  {
    assert s == s[..|s| - 1] + [s[|s| - 1]];
  }

  lemma RepeatsOfPrefix(s: seq<Place>)
    requires s != []
    ensures NoRepeats(s) <==> NoRepeats(s[..|s| - 1]) && s[|s| - 1] !in Elements(s[..|s| - 1])
  {
    var n := |s| - 1;
    if s[n] in s[..n] {
      var i :| 0 <= i < n && s[i] == s[n];
    }
  }

  lemma {:induction false} SizeOfElements(s: seq<Place>)
    ensures |Elements(s)| <= |s|
    ensures |Elements(s)| == |s| <==> NoRepeats(s)
  {
    if s != [] {
      var n := |s| - 1;
      SizeOfElements(s[..n]);
      ElementsOfPrefix(s);
      RepeatsOfPrefix(s);
      if s[n] in Elements(s[..n]) {
        assert Elements(s[..n]) + {s[n]} == Elements(s[..n]);
      }
    }
  }

  lemma {:induction false} CountOf(s: seq<Place>, x: Place)
    requires NoRepeats(s)
    ensures multiset(s)[x] == if x in s then 1 else 0
  {
    if s != [] {
      var n := |s| - 1;
      CountOf(s[..n], x);
      assert s == s[..n] + [s[n]];
    }
  }

  /** Sequences without repetitions and with the same elements are arrangements of each other. */
  lemma SameElementsArePermutation(a: seq<Place>, b: seq<Place>)
    requires NoRepeats(a) && NoRepeats(b) && Elements(a) == Elements(b)
    ensures multiset(a) == multiset(b)
  {
    forall x ensures multiset(a)[x] == multiset(b)[x] {
      CountOf(a, x);
      CountOf(b, x);
      assert x in a <==> x in Elements(a);
      assert x in b <==> x in Elements(b);
    }
  }

  /** Pigeonhole: as many places as targets, and every target among them. */
  lemma CoveringIsPermutation(places: seq<Place>, targets: seq<Place>)
    requires |places| == |targets| && NoRepeats(targets)
    requires forall i :: 0 <= i < |targets| ==> targets[i] in places
    ensures multiset(places) == multiset(targets)
  {
    SizeOfElements(places);
    SizeOfElements(targets);
    assert Elements(targets) <= Elements(places);
    SubsetOfSameSize(Elements(targets), Elements(places));
    SameElementsArePermutation(places, targets);
  }

  lemma SubsetOfSameSize(a: set<Place>, b: set<Place>)
    requires a <= b && |a| >= |b|
    ensures a == b
  {
    assert |b - a| == |b| - |a|;
  }

  // ---------------------------------------------------------------------------------------------------------------
  // What an accepted cache is
  // ---------------------------------------------------------------------------------------------------------------

  ghost predicate DistinctAddresses(places: seq<Place>) {
    forall i, j :: 0 <= i < j < |places| ==> places[i].0 != places[j].0
  }

  lemma {:induction false} FoundPathIsAPlace(places: seq<Place>, address: string)
    ensures PathOf(places, address).Some? ==> (address, PathOf(places, address).value) in places
  {
    if places != [] && places[|places| - 1].0 != address {
      FoundPathIsAPlace(places[..|places| - 1], address);
    }
  }

  lemma {:induction false} PlaceIsFound(places: seq<Place>, i: nat)
    requires DistinctAddresses(places) && i < |places|
    ensures PathOf(places, places[i].0) == Some(places[i].1)
  {
    if i < |places| - 1 {
      PlaceIsFound(places[..|places| - 1], i);
    }
  }

  lemma PermutationKeepsAddressesDistinct(a: seq<Place>, b: seq<Place>)
    requires DistinctAddresses(a) && multiset(a) == multiset(b)
    ensures DistinctAddresses(b)
  {
    assert |multiset(a)| == |a| && |multiset(b)| == |b|;
    forall x ensures x in a <==> x in b {
      assert x in a <==> x in multiset(a);
      assert x in b <==> x in multiset(b);
    }
    assert Elements(a) == Elements(b);
    SizeOfElements(a);
    SizeOfElements(b);
    forall i, j | 0 <= i < j < |b| ensures b[i].0 != b[j].0 {
      assert b[i] in a && b[j] in a && b[i] != b[j];
      var k :| 0 <= k < |a| && a[k] == b[i];
      var l :| 0 <= l < |a| && a[l] == b[j];
    }
  }

  /** A cache is accepted exactly when it is of this version, not too old, and a permutation of the targets. */
  lemma FreshExactly(cache: Option<Payload>, targets: seq<Target>, now: int)
    requires DistinctAddresses(PlacesOfTargets(targets))
    ensures HasFreshMailboxUsageCache(cache, targets, now) <==>
      && cache.Some? && cache.value.schemaVersion == 1
      && cache.value.generatedAt.Some? && now - cache.value.generatedAt.value <= 5 * 60 * 1000
      && multiset(PlacesOf(cache.value.entries)) == multiset(PlacesOfTargets(targets))
  {
    if cache.Some? {
      var places, wanted := PlacesOf(cache.value.entries), PlacesOfTargets(targets);
      assert |multiset(places)| == |places| && |multiset(wanted)| == |wanted|;
      if HasFreshMailboxUsageCache(cache, targets, now) {
        AcceptedIsPermutation(cache, targets, now);
      }
      if multiset(places) == multiset(wanted) {
        PermutationKeepsAddressesDistinct(wanted, places);
        forall i | 0 <= i < |targets| ensures PathOf(places, targets[i].address) == Some(targets[i].maildirPath) {
          assert wanted[i] in multiset(places);
          var k :| 0 <= k < |places| && places[k] == wanted[i];
          PlaceIsFound(places, k);
        }
      }
    }
  }

  // ---------------------------------------------------------------------------------------------------------------
  // Target lists with repetitions
  // ---------------------------------------------------------------------------------------------------------------

  /** Two targets have one address and different paths. */
  ghost predicate Conflict(places: seq<Place>) {
    exists i, j :: 0 <= i < j < |places| && places[i].0 == places[j].0 && places[i].1 != places[j].1
  }

  /** Whatever cache is accepted for these targets is a permutation of them. */
  ghost predicate AcceptsOnlyPermutations(targets: seq<Target>) {
    forall cache, now :: HasFreshMailboxUsageCache(cache, targets, now) ==>
      multiset(PlacesOf(cache.value.entries)) == multiset(PlacesOfTargets(targets))
  }

  /** Nothing is accepted for conflicting targets. */
  lemma ConflictAcceptsNothing(cache: Option<Payload>, targets: seq<Target>, now: int)
    requires Conflict(PlacesOfTargets(targets))
    ensures !HasFreshMailboxUsageCache(cache, targets, now)
  {
    var wanted := PlacesOfTargets(targets);
    var i, j :| 0 <= i < j < |wanted| && wanted[i].0 == wanted[j].0 && wanted[i].1 != wanted[j].1;
    assert targets[i].address == targets[j].address && targets[i].maildirPath != targets[j].maildirPath;
  }

  /** Without repeated places, acceptance means a permutation even where addresses repeat. */
  lemma AcceptedIsPermutation(cache: Option<Payload>, targets: seq<Target>, now: int)
    requires NoRepeats(PlacesOfTargets(targets)) && HasFreshMailboxUsageCache(cache, targets, now)
    ensures multiset(PlacesOf(cache.value.entries)) == multiset(PlacesOfTargets(targets))
  {
    var places, wanted := PlacesOf(cache.value.entries), PlacesOfTargets(targets);
    forall i | 0 <= i < |wanted| ensures wanted[i] in places {
      FoundPathIsAPlace(places, targets[i].address);
    }
    CoveringIsPermutation(places, wanted);
  }

  /** An address that no target has. */
  lemma {:induction false} UnusedAddress(targets: seq<Target>) returns (address: string)
    ensures address != "" && forall t :: t in targets ==> |t.address| < |address|
  {
    address := "@";
    if targets != [] {
      address := UnusedAddress(targets[1..]);
      var longer := address + targets[0].address;
      forall t | t in targets ensures |t.address| < |longer| {
        assert t != targets[0] ==> t in targets[1..];
      }
      address := longer;
    }
  }

  /** Where all places of an address agree, any of them is found. */
  lemma {:induction false} AgreedPathIsFound(places: seq<Place>, i: nat)
    requires i < |places| && forall k :: 0 <= k < |places| && places[k].0 == places[i].0 ==> places[k].1 == places[i].1
    ensures PathOf(places, places[i].0) == Some(places[i].1)
  {
    if places[|places| - 1].0 != places[i].0 {
      AgreedPathIsFound(places[..|places| - 1], i);
    }
  }

  /** Of two equal targets, one can be replaced by a stranger unnoticed. */
  lemma RepeatedTargetHidesAnEntry(targets: seq<Target>, first: nat, second: nat, now: int)
    returns (cache: Option<Payload>)
    requires first < second < |targets| && !Conflict(PlacesOfTargets(targets))
    requires PlacesOfTargets(targets)[first] == PlacesOfTargets(targets)[second]
    ensures HasFreshMailboxUsageCache(cache, targets, now)
    ensures multiset(PlacesOf(cache.value.entries)) != multiset(PlacesOfTargets(targets))
  {
    var address := UnusedAddress(targets);
    var honest := MeasuredAll(targets, map[], now);
    var entries := honest[first := Entry(address, "", "", "", None, now)];
    cache := Some(Payload(SCHEMA_VERSION, Some(now), entries));
    var places, wanted := PlacesOf(entries), PlacesOfTargets(targets);
    forall i | 0 <= i < |targets| ensures PathOf(places, targets[i].address) == Some(targets[i].maildirPath) {
      var found := if i == first then second else i;
      assert places[found] == wanted[i] && targets[i] in targets;
      forall k | 0 <= k < |places| && places[k].0 == places[found].0 ensures places[k].1 == places[found].1 {
        assert k != first && places[k] == wanted[k];
      }
      AgreedPathIsFound(places, found);
    }
    assert places[first] in multiset(places);
    forall i | 0 <= i < |wanted| ensures wanted[i] != places[first] {
      assert targets[i] in targets;
    }
    assert places[first] !in wanted;
    assert places[first] !in multiset(wanted);
  }

  /** Acceptance means a permutation exactly for target lists without repeated places and for conflicting ones. */
  lemma AcceptsOnlyPermutationsExactly(targets: seq<Target>)
    ensures AcceptsOnlyPermutations(targets) <==>
      NoRepeats(PlacesOfTargets(targets)) || Conflict(PlacesOfTargets(targets))
  {
    var wanted := PlacesOfTargets(targets);
    if NoRepeats(wanted) {
      forall cache, now | HasFreshMailboxUsageCache(cache, targets, now)
        ensures multiset(PlacesOf(cache.value.entries)) == multiset(wanted)
      {
        AcceptedIsPermutation(cache, targets, now);
      }
    } else if Conflict(wanted) {
      forall cache, now ensures !HasFreshMailboxUsageCache(cache, targets, now) {
        ConflictAcceptsNothing(cache, targets, now);
      }
    } else {
      var i, j :| 0 <= i < j < |wanted| && wanted[i] == wanted[j];
      var cache := RepeatedTargetHidesAnEntry(targets, i, j, 0);
    }
  }

  // ---------------------------------------------------------------------------------------------------------------
  // The snapshot
  // ---------------------------------------------------------------------------------------------------------------

  function Measured(target: Target, sizes: map<string, nat>, checkedAt: int): Entry {
    Entry(target.address, target.domainName, target.localPart, target.maildirPath,
          if target.maildirPath in sizes then Some(sizes[target.maildirPath]) else None, checkedAt)
  }

  function MeasuredAll(targets: seq<Target>, sizes: map<string, nat>, checkedAt: int): (entries: seq<Entry>)
    ensures |entries| == |targets|
    ensures forall i :: 0 <= i < |targets| ==> entries[i] == Measured(targets[i], sizes, checkedAt)
  {
    seq(|targets|, i requires 0 <= i < |targets| => Measured(targets[i], sizes, checkedAt))
  }

  /** Entry by entry, the fields of the target, the measured size of its directory if there is one, and the time. */
  ghost predicate AreMeasured(entries: seq<Entry>, targets: seq<Target>, sizes: map<string, nat>, checkedAt: int) {
    && |entries| == |targets|
    && forall i :: 0 <= i < |entries| ==>
         && entries[i].address == targets[i].address && entries[i].domainName == targets[i].domainName
         && entries[i].localPart == targets[i].localPart && entries[i].maildirPath == targets[i].maildirPath
         && entries[i].checkedAt == checkedAt
         && (if targets[i].maildirPath in sizes then entries[i].usedBytes == Some(sizes[targets[i].maildirPath])
             else entries[i].usedBytes == None)
  }

  class UsageCache {
    var file: Option<Payload>
    /** What the miss that wrote the file computed, and when. */
    ghost var computed: seq<Entry>
    ghost var computedAt: int

    constructor ()
      ensures Valid() && file == None
    {
      file, computed, computedAt := None, [], 0;
    }

    /** The file is absent or holds what the last miss computed. */
    ghost predicate Valid()
      reads this
    {
      && (file.Some? ==> file.value == Payload(SCHEMA_VERSION, Some(computedAt), computed))
      && forall e :: e in computed ==> e.checkedAt == computedAt
    }

    /** `sizes` is what measuring the directories that are there would give. */
    method CollectMailboxUsageSnapshot(targets: seq<Target>, sizes: map<string, nat>, now: int, generatedAt: int)
      returns (entries: seq<Entry>)
      requires Valid() && now <= generatedAt
      modifies this
      ensures Valid()
      ensures AcceptsOnlyPermutations(targets) || !HasFreshMailboxUsageCache(old(file), targets, now) ==>
        multiset(PlacesOf(entries)) == multiset(PlacesOfTargets(targets))
      ensures |entries| == |targets|
      ensures forall e :: e in entries ==> now - e.checkedAt <= 5 * 60 * 1000
      ensures targets != [] ==> file.Some? && entries == computed
      ensures targets == [] || HasFreshMailboxUsageCache(old(file), targets, now) ==>
        file == old(file) && computed == old(computed) && computedAt == old(computedAt)
      ensures targets != [] && !HasFreshMailboxUsageCache(old(file), targets, now) ==>
        && AreMeasured(entries, targets, sizes, generatedAt)
        && file == Some(Payload(1, Some(generatedAt), entries)) && computedAt == generatedAt
    {
      if targets == [] {
        assert PlacesOf([]) == PlacesOfTargets(targets);
        return [];
      }
      if HasFreshMailboxUsageCache(file, targets, now) {
        return file.value.entries;
      }
      entries := MeasuredAll(targets, sizes, generatedAt);
      assert PlacesOf(entries) == PlacesOfTargets(targets);
      file := Some(Payload(SCHEMA_VERSION, Some(generatedAt), entries));
      computed, computedAt := entries, generatedAt;
    }
  }
}
