/**
 * A file system as a map from absolute, normalised paths to nodes, with the calls the release tools make on it.
 *
 * A path is the sequence of its components. A node's key is its physical location: symbolic links are followed at the
 * end of a path where the call follows them, and a link in the middle of a path counts as something that is not a
 * directory.
 */
module FileTree {
  import opened Prelude

  type Path = seq<string>

  datatype Action = Cutover | Rollback

  datatype HistoryRecord = HistoryRecord(action: Action, version: string, previousVersion: Option<string>)

  /** Text that is not JSON, or a manifest as its parsed value; `releases` are the release names in its strings. */
  datatype Content =
    | Text(text: string)
    | Manifest(releases: set<string>)
    | ApplyManifest(version: string, rollbackCandidate: Option<Path>)
    | History(records: seq<HistoryRecord>)

  datatype Node = Dir | File(content: Content) | Link(target: Path)

  type Tree = map<Path, Node>

  datatype Error = NotFound | AlreadyExists | NotADirectory | IsADirectory | InvalidCopy | MissingSource | MissingState

  /** What a failing call leaves behind matters, so an outcome always carries the tree. */
  datatype Outcome = Outcome(tree: Tree, error: Option<Error>)

  function Parent(p: Path): Path
    requires p != []
  {
    p[..|p| - 1]
  }

  function Base(p: Path): string {
    if p == [] then "" else p[|p| - 1]
  }

  /** `p` is `root` or lies below it. */
  predicate Within(p: Path, root: Path) {
    root <= p
  }

  /** The path below `to` that corresponds to `p` below `from`. */
  function Rebase(p: Path, from: Path, to: Path): (r: Path)
    requires Within(p, from)
    ensures Within(r, to) && r[|to|..] == p[|from|..]
  {
    to + p[|from|..]
  }

  lemma RebaseBack(p: Path, from: Path, to: Path)
    requires Within(p, from)
    ensures Rebase(Rebase(p, from, to), to, from) == p
  {
  }

  ghost predicate WellFormed(t: Tree) {
    && [] in t && t[[]] == Dir
    && forall p :: p in t && p != [] ==> Parent(p) in t && t[Parent(p)] == Dir
  }

  /** Nothing but directories stands on the way to `p`, `p` included. */
  ghost predicate Clear(t: Tree, p: Path) {
    forall q :: Within(p, q) && q in t ==> t[q] == Dir
  }

  lemma {:induction false} AncestorsAreDirectories(t: Tree, p: Path, q: Path)
    requires WellFormed(t) && p in t && Within(p, q) && q != p
    ensures q in t && t[q] == Dir
    decreases |p|
  {
    assert Within(Parent(p), q);
    if q != Parent(p) {
      AncestorsAreDirectories(t, Parent(p), q);
    }
  }

  /** The node at `p`, if there is one. */
  function Lookup(t: Tree, p: Path): Option<Node> {
    if p in t then Some(t[p]) else None
  }

  lemma SameLookups(t: Tree, u: Tree)
    requires forall p :: Lookup(t, p) == Lookup(u, p)
    ensures t == u
  {
    assert forall p :: p in t <==> Lookup(t, p).Some?;
    assert forall p :: p in u <==> Lookup(u, p).Some?;
    assert forall p :: p in t ==> Lookup(t, p).value == t[p];
  }

  // ---------------------------------------------------------------------------------------------------------------
  // Calls
  // ---------------------------------------------------------------------------------------------------------------

  /** `lstat` finds something other than a link at the end of the chain of links starting at `p`. */
  predicate Exists(t: Tree, p: Path, hops: nat := 40)
    decreases hops
  {
    p in t && (t[p].Link? ==> hops > 0 && Exists(t, t[p].target, hops - 1))
  }

  /** The end of the chain of links starting at `p`. */
  function RealPath(t: Tree, p: Path, hops: nat := 40): (r: Path)
    requires Exists(t, p, hops)
    ensures r in t && !t[r].Link?
    decreases hops
  {
    if t[p].Link? then RealPath(t, t[p].target, hops - 1) else p
  }

  /** Each of these paths is a link to the next, and the last is no link. */
  ghost predicate IsChain(t: Tree, chain: seq<Path>) {
    && chain != []
    && (forall i :: 0 <= i < |chain| ==> chain[i] in t)
    && (forall i :: 0 <= i < |chain| - 1 ==> t[chain[i]] == Link(chain[i + 1]))
    && !t[chain[|chain| - 1]].Link?
  }

  /** Up to so many links in a row are followed to their end. */
  lemma {:induction false} ChainIsFollowed(t: Tree, chain: seq<Path>, hops: nat)
    requires IsChain(t, chain)
    ensures Exists(t, chain[0], hops) <==> |chain| - 1 <= hops
    ensures |chain| - 1 <= hops ==> RealPath(t, chain[0], hops) == chain[|chain| - 1]
    decreases |chain|
  {
    if |chain| > 1 {
      assert t[chain[0]] == Link(chain[1]);
    }
    if |chain| > 1 && hops > 0 {
      var rest := chain[1..];
      assert forall i :: 0 <= i < |rest| ==> rest[i] == chain[i + 1];
      ChainIsFollowed(t, rest, hops - 1);
    }
  }

  /** On a disk a call follows up to forty links. */
  lemma FortyLinksAreFollowed(t: Tree, chain: seq<Path>)
    requires IsChain(t, chain)
    ensures Exists(t, chain[0]) <==> |chain| <= 41
    ensures |chain| <= 41 ==> RealPath(t, chain[0]) == chain[|chain| - 1]
  {
    ChainIsFollowed(t, chain, 40);
  }

  /** `mkdir` with `recursive`. */
  function MakeDirectories(t: Tree, p: Path): Outcome
    decreases |p|
  {
    if p == [] then Outcome(t, None)
    else
      var above := MakeDirectories(t, Parent(p));
      if above.error.Some? then above
      else if p !in above.tree then Outcome(above.tree[p := Dir], None)
      else if above.tree[p] == Dir then above
      else Outcome(t, Some(NotADirectory))
  }

  function Remove(t: Tree, p: Path): (r: Tree)
  {
    map q | q in t && !Within(q, p) :: t[q]
  }

  /** The apply engines' helper: `existsSync` follows links, so a dangling link is left in place. */
  function RemovePathIfExists(t: Tree, p: Path): Tree {
    if Exists(t, p) then Remove(t, p) else t
  }

  /** The copy filter: no component below the copied root is called `.tmp`. */
  predicate Copied(below: Path) {
    ".tmp" !in below
  }

  /** Adding nodes cannot make a path dangle. */
  lemma {:induction false} ExistsIsMonotone(t: Tree, u: Tree, p: Path, hops: nat)
    requires forall q :: q in t ==> Lookup(u, q) == Lookup(t, q)
    requires Exists(t, p, hops)
    ensures Exists(u, p, hops)
    decreases hops
  {
    assert Lookup(u, p) == Lookup(t, p);
    if t[p].Link? {
      ExistsIsMonotone(t, u, t[p].target, hops - 1);
    }
  }

  /** What a copy of `source` places at `q`, a path at or below `target`. */
  predicate IsCopied(t: Tree, source: Path, target: Path, q: Path) {
    Within(q, target) && Copied(q[|target|..]) && Rebase(q, target, source) in t
  }

  /** The part of the tree that a copy from `source` to `target` creates. */
  function CopiedNodes(t: Tree, source: Path, target: Path): (r: Tree)
    ensures forall q :: q in r <==> IsCopied(t, source, target, q)
    ensures forall q :: IsCopied(t, source, target, q) ==> r[q] == t[Rebase(q, target, source)]
  {
    var places := set p | p in t && Within(p, source) && Copied(p[|source|..]) :: Rebase(p, source, target);
    assert forall q :: IsCopied(t, source, target, q) ==>
      Within(Rebase(q, target, source), source) && Rebase(Rebase(q, target, source), source, target) == q;
    assert forall p :: p in t && Within(p, source) ==> Rebase(Rebase(p, source, target), target, source) == p;
    map q | q in places :: t[Rebase(q, target, source)]
  }

  /** `cp` with `recursive` and the filter; whatever `target` resolved to has just been removed. */
  function CopyDirectory(t: Tree, source: Path, target: Path): Outcome {
    if source !in t then Outcome(t, Some(NotFound))
    else if Within(target, source) then Outcome(t, Some(InvalidCopy))
    else if target in t then Outcome(t, Some(AlreadyExists))
    else Outcome(t + CopiedNodes(t, source, target), None)
  }

  /** `cp` of one file: links are copied as links, and an existing file or link gives way to a file. */
  function CopyFile(t: Tree, source: Path, target: Path): Outcome {
    if source !in t then Outcome(t, Some(NotFound))
    else if t[source].Dir? then Outcome(t, Some(IsADirectory))
    else if source == target then Outcome(t, Some(InvalidCopy))
    else if target in t && t[target].Dir? then Outcome(t, Some(IsADirectory))
    else if t[source].Link? && target in t && t[target].File? then Outcome(t, Some(AlreadyExists))
    else Outcome(t[target := t[source]], None)
  }

  function MakeLink(t: Tree, to: Path, p: Path): Outcome
    requires p != []
  {
    if Parent(p) !in t then Outcome(t, Some(NotFound))
    else if t[Parent(p)] != Dir then Outcome(t, Some(NotADirectory))
    else if p in t then Outcome(t, Some(AlreadyExists))
    else Outcome(t[p := Link(to)], None)
  }

  function WriteFile(t: Tree, p: Path, content: Content): Outcome
    requires p != []
  {
    if Parent(p) !in t then Outcome(t, Some(NotFound))
    else if t[Parent(p)] != Dir then Outcome(t, Some(NotADirectory))
    else if p in t && t[p].Dir? then Outcome(t, Some(IsADirectory))
    else Outcome(t[p := File(content)], None)
  }

  // ---------------------------------------------------------------------------------------------------------------
  // Their effects
  // ---------------------------------------------------------------------------------------------------------------

  lemma {:induction false} MakeDirectoriesEffect(t: Tree, p: Path)
    requires WellFormed(t)
    ensures MakeDirectories(t, p).error == None <==> Clear(t, p)
    ensures MakeDirectories(t, p).error.Some? ==> MakeDirectories(t, p) == Outcome(t, Some(NotADirectory))
    ensures var u := MakeDirectories(t, p).tree;
      Clear(t, p) ==> WellFormed(u) && forall q :: Lookup(u, q) == if Within(p, q) then Some(Dir) else Lookup(t, q)
    decreases |p|
  {
    if p == [] {
      assert forall q :: Within(p, q) ==> q == [];
    } else {
      MakeDirectoriesEffect(t, Parent(p));
      assert forall q :: Within(p, q) <==> q == p || Within(Parent(p), q);
      if Clear(t, p) {
        var above := MakeDirectories(t, Parent(p)).tree;
        assert Lookup(above, p) == Lookup(t, p);
        assert Lookup(above, Parent(p)) == Some(Dir);
      } else if Clear(t, Parent(p)) {
        assert p in t && Lookup(MakeDirectories(t, Parent(p)).tree, p) == Some(t[p]);
      }
    }
  }

  /** Making a directory that is there changes nothing. */
  lemma MakeExistingDirectory(t: Tree, p: Path)
    requires WellFormed(t) && p in t && t[p] == Dir
    ensures MakeDirectories(t, p) == Outcome(t, None)
  {
    forall q | Within(p, q) ensures q in t && t[q] == Dir {
      if q != p {
        AncestorsAreDirectories(t, p, q);
      }
    }
    MakeDirectoriesEffect(t, p);
    SameLookups(t, MakeDirectories(t, p).tree);
  }

  lemma RemoveKeepsWellFormed(t: Tree, p: Path)
    requires WellFormed(t) && p != []
    ensures WellFormed(Remove(t, p))
  {
    assert forall q :: q != [] && Within(Parent(q), p) ==> Within(q, p);
  }

  /** Nothing lies below a path that is not there. */
  lemma RemoveAbsent(t: Tree, p: Path)
    requires WellFormed(t) && p !in t
    ensures Remove(t, p) == t
  {
    forall q | q in t ensures !Within(q, p) {
      if Within(q, p) {
        AncestorsAreDirectories(t, q, p);
      }
    }
  }

  lemma ReplaceKeepsWellFormed(t: Tree, p: Path, node: Node)
    requires WellFormed(t) && p != [] && Parent(p) in t && t[Parent(p)] == Dir
    requires p in t ==> t[p] != Dir
    ensures WellFormed(t[p := node])
  {
    assert Parent(p) != p;
    forall q | q in t && q != [] ensures Parent(q) != p {
    }
  }

  /** What is at `p` once `source` has been copied to `target`. */
  function AfterCopy(t: Tree, source: Path, target: Path, p: Path): Option<Node> {
    if !Within(p, target) then Lookup(t, p)
    else if Copied(p[|target|..]) then Lookup(t, Rebase(p, target, source))
    else None
  }

  lemma CopyDirectoryEffect(t: Tree, source: Path, target: Path)
    requires WellFormed(t) && target != [] && Parent(target) in t && t[Parent(target)] == Dir
    requires target !in t && source in t && !Within(target, source)
    ensures CopyDirectory(t, source, target).error == None
    ensures WellFormed(CopyDirectory(t, source, target).tree)
    ensures forall p :: Lookup(CopyDirectory(t, source, target).tree, p) == AfterCopy(t, source, target, p)
  {
    RemoveAbsent(t, target);
    assert forall p :: p in t ==> !Within(p, target);
    var copied := CopiedNodes(t, source, target);
    forall p | p in t + copied && p != [] ensures Parent(p) in t + copied && (t + copied)[Parent(p)] == Dir {
      if p in copied && p != target {
        CopiedParent(t, source, target, p);
      } else if p !in copied {
        assert Parent(p) in t && Parent(p) !in copied;
      }
    }
  }

  lemma CopiedParent(t: Tree, source: Path, target: Path, p: Path)
    requires WellFormed(t) && IsCopied(t, source, target, p) && p != target
    ensures IsCopied(t, source, target, Parent(p)) && t[Rebase(Parent(p), target, source)] == Dir
  {
    assert Parent(p)[|target|..] == p[|target|..][..|p| - |target| - 1];
    assert Rebase(Parent(p), target, source) == Parent(Rebase(p, target, source));
  }
}
