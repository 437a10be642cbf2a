/**
 * Relocation of a plan to another root.
 *
 * The staging engine and the target engine run the hand-off plan under a root of their own. `MapTargetPath` and
 * `MapSourcePath` are the string functions they use; the theorem at the end says that running a relocated plan builds
 * under the new root what the original plan builds under the old one.
 */
module PlanRelocation {
  import opened Prelude
  import opened FileTree
  import opened ReleasePlan
  import opened Text

  // ---------------------------------------------------------------------------------------------------------------
  // Path strings
  // ---------------------------------------------------------------------------------------------------------------

  /** The text of a path. */
  function Render(p: Path): string {
    if p == [] then "" else "/" + p[0] + Render(p[1..])
  }

  /** `replace` with a string pattern: the first occurrence only. */
  function ReplaceFirst(s: string, pattern: string, replacement: string): string
    decreases |s|
  {
    if StartsWith(s, pattern) then replacement + s[|pattern|..]
    else if s == "" then ""
    else [s[0]] + ReplaceFirst(s[1..], pattern, replacement)
  }

  function MapTargetPath(root: string, destination: string, target: string): Result<string, string> {
    if !StartsWith(target, root) then Err("Unsupported handoff target outside release root: " + target)
    else Ok(ReplaceFirst(target, root, destination))
  }

  function MapSourcePath(root: string, sourceRoot: string, source: string): string {
    if !StartsWith(source, root) then source else ReplaceFirst(source, root, sourceRoot)
  }

  /** Exactly the strings that start with the root string are accepted, and only that start is replaced. */
  lemma MapTargetAcceptsExactly(root: string, destination: string, target: string)
    ensures MapTargetPath(root, destination, target).Ok? <==> |target| >= |root| && target[..|root|] == root
    ensures |target| >= |root| && target[..|root|] == root ==>
      MapTargetPath(root, destination, target).value == destination + target[|root|..]
  {
  }

  /** A path is the text of its components, each after a slash. */
  lemma RenderedPath(first: string, rest: Path)
    ensures Render([]) == "" && Render([first] + rest) == "/" + first + Render(rest)
  {
    assert ([first] + rest)[1..] == rest;
  }

  /** Components are names: not empty and without a slash. */
  predicate Plain(p: Path) {
    forall i :: 0 <= i < |p| ==> p[i] != "" && '/' !in p[i]
  }

  lemma {:induction false} RenderAppend(p: Path, q: Path)
    ensures Render(p + q) == Render(p) + Render(q)
  {
    if p == [] {
      assert p + q == q;
    } else {
      assert (p + q)[1..] == p[1..] + q;
      RenderAppend(p[1..], q);
    }
  }

  /** The end of a path string starts a new component or is empty. */
  predicate AtBoundary(rest: string) {
    rest == "" || rest[0] == '/'
  }

  /** Two names followed by boundaries that agree as far as the first goes are the same name. */
  lemma {:induction false} NamesEndTogether(a: string, x: string, b: string, y: string)
    requires '/' !in a && '/' !in b && AtBoundary(x) && AtBoundary(y)
    requires StartsWith(b + y, a + x) && AtBoundary((b + y)[|a + x|..])
    ensures a == b
    decreases |a|
  {
    assert a != "" ==> (a + x)[0] == a[0] && a[0] in a;
    assert b != "" ==> (b + y)[0] == b[0] && b[0] in b;
    assert (a + x)[0..] == a + x && (b + y)[0..] == b + y;
    if a != "" && b != "" {
      assert (b + y)[..|a + x|][0] == (a + x)[0];
      assert (a + x)[1..] == a[1..] + x && (b + y)[1..] == b[1..] + y;
      assert (b + y)[1..][..|a + x| - 1] == (b + y)[..|a + x|][1..];
      NamesEndTogether(a[1..], x, b[1..], y);
    }
  }

  lemma RenderFirst(p: Path)
    requires Plain(p) && p != []
    ensures Render(p) == ['/'] + (p[0] + Render(p[1..])) && '/' !in p[0] && AtBoundary(Render(p[1..])) && Plain(p[1..])
  {
  }

  /** What is left of a prefix after a common start. */
  lemma PrefixWithout(start: string, a: string, b: string)
    requires StartsWith(start + b, start + a)
    ensures StartsWith(b, a) && b[|a|..] == (start + b)[|start + a|..]
  {
    assert (start + b)[..|start + a|][|start|..] == b[..|a|];
    assert (start + a)[|start|..] == a;
  }

  /** A string prefix that ends at a component boundary is a path prefix. */
  lemma {:induction false} BoundaryPrefixIsAncestor(root: Path, p: Path)
    requires Plain(root) && Plain(p)
    requires StartsWith(Render(p), Render(root)) && AtBoundary(Render(p)[|Render(root)|..])
    ensures Within(p, root)
    decreases |root|
  {
    if root != [] {
      RenderFirst(root);
      RenderFirst(p);
      var a, x, b, y := root[0], Render(root[1..]), p[0], Render(p[1..]);
      PrefixWithout(['/'], a + x, b + y);
      NamesEndTogether(a, x, b, y);
      PrefixWithout(a, x, y);
      BoundaryPrefixIsAncestor(root[1..], p[1..]);
      assert p == [a] + p[1..] && root == [a] + root[1..];
    }
  }

  /** The prefix test accepts every path below the root and maps it to the matching path below the destination. */
  lemma MapTargetOfPathBelowRoot(root: Path, destination: Path, p: Path)
    requires Within(p, root)
    ensures MapTargetPath(Render(root), Render(destination), Render(p)) == Ok(Render(Rebase(p, root, destination)))
  {
    var below := p[|root|..];
    assert p == root + below;
    RenderAppend(root, below);
    RenderAppend(destination, below);
    assert Render(p)[|Render(root)|..] == Render(below);
  }

  /** It also accepts a sibling whose name merely starts like the root's, and then leaves the destination. */
  lemma MapTargetStaysInsideExactlyBelowRoot(root: Path, destination: Path, p: Path)
    requires Plain(root) && Plain(p)
    requires StartsWith(Render(p), Render(root))
    ensures MapTargetPath(Render(root), Render(destination), Render(p)).Ok?
    ensures var mapped := MapTargetPath(Render(root), Render(destination), Render(p)).value;
      && StartsWith(mapped, Render(destination))
      && (AtBoundary(mapped[|Render(destination)|..]) <==> Within(p, root))
  {
    var mapped := MapTargetPath(Render(root), Render(destination), Render(p)).value;
    assert mapped[|Render(destination)|..] == Render(p)[|Render(root)|..];
    if Within(p, root) {
      assert p == root + p[|root|..];
      RenderAppend(root, p[|root|..]);
      assert Render(p)[|Render(root)|..] == Render(p[|root|..]);
    }
    if AtBoundary(Render(p)[|Render(root)|..]) {
      BoundaryPrefixIsAncestor(root, p);
    }
  }

  // ---------------------------------------------------------------------------------------------------------------
  // Relocated steps
  // ---------------------------------------------------------------------------------------------------------------

  /** From the root a plan was written for to the root it is run under. */
  datatype Move = Move(root: Path, destination: Path)

  /** Targets move, and so does what a link points at; the sources of copies stay. */
  function RelocateStep(step: Step, m: Move): Step
    requires StepFits(step, m)
  {
    Step(step.kind, Rebase(step.target, m.root, m.destination),
         if step.kind == WriteSymlink && step.source.Some? then Some(Rebase(step.source.value, m.root, m.destination))
         else step.source)
  }

  /** Neither at, above nor below one of the two roots. */
  predicate Foreign(p: Path, m: Move) {
    && !Within(p, m.root) && !Within(m.root, p)
    && !Within(p, m.destination) && !Within(m.destination, p)
  }

  /** Targets and links inside the root, copies from elsewhere. */
  predicate StepFits(step: Step, m: Move) {
    && Within(step.target, m.root)
    && (step.source.Some? ==>
          if step.kind == WriteSymlink then Within(step.source.value, m.root) else Foreign(step.source.value, m))
  }

  function RelocateAll(steps: seq<Step>, m: Move): (r: seq<Step>)
    requires forall i :: 0 <= i < |steps| ==> StepFits(steps[i], m)
    ensures |r| == |steps| && forall i :: 0 <= i < |r| ==> r[i] == RelocateStep(steps[i], m)
  {
    seq(|steps|, i requires 0 <= i < |steps| => RelocateStep(steps[i], m))
  }

  lemma PlanByIndex(l: Layout, i: nat)
    requires i < 12
    ensures |Plan(l)| == 12
    ensures Plan(l)[i] ==
      if i < 6 then Step(EnsureDir, l.Directories()[i], None)
      else if i == 6 then Step(CopyTree, l.VersionRoot(), Some(l.tree))
      else if i < 11 then Step(CopyOne, l.Manifests()[i - 7].0, Some(l.Manifests()[i - 7].1))
      else Step(WriteSymlink, l.Current(), Some(l.VersionRoot()))
  {
  }

  lemma RelocatedPlanStep(l: Layout, m: Move, i: nat)
    requires l.root == m.root && i < 12
    requires forall j :: 0 <= j < 5 ==> Foreign(Sources(l)[j], m)
    ensures |Plan(l)| == 12 && |Plan(l.(root := m.destination))| == 12
    ensures StepFits(Plan(l)[i], m) && RelocateStep(Plan(l)[i], m) == Plan(l.(root := m.destination))[i]
  {
    var k := l.(root := m.destination);
    PlanByIndex(l, i);
    PlanByIndex(k, i);
    if i < 6 {
      assert l.Directories()[i] == l.root + l.Directories()[i][|l.root|..];
      assert k.Directories()[i] == k.root + l.Directories()[i][|l.root|..];
    } else if i == 6 {
      assert Sources(l)[0] == l.tree;
    } else if i < 11 {
      assert Sources(l)[i - 6] == l.Manifests()[i - 7].1;
      assert l.Manifests()[i - 7].0 == l.root + l.Manifests()[i - 7].0[|l.root|..];
      assert k.Manifests()[i - 7].0 == k.root + l.Manifests()[i - 7].0[|l.root|..];
    }
  }

  /** The hand-off plan of one layout, relocated, is the plan of the layout with the new root. */
  lemma RelocatedPlanIsPlanOfRelocatedLayout(l: Layout, m: Move)
    requires l.root == m.root
    requires forall i :: 0 <= i < 5 ==> Foreign(Sources(l)[i], m)
    ensures forall i :: 0 <= i < |Plan(l)| ==> StepFits(Plan(l)[i], m)
    ensures RelocateAll(Plan(l), m) == Plan(l.(root := m.destination))
  {
    PlanByIndex(l, 0);
    forall i | 0 <= i < 12
      ensures StepFits(Plan(l)[i], m) && RelocateStep(Plan(l)[i], m) == Plan(l.(root := m.destination))[i]
    {
      RelocatedPlanStep(l, m, i);
    }
    PlanByIndex(l.(root := m.destination), 0);
  }

  // ---------------------------------------------------------------------------------------------------------------
  // Mirrored trees
  // ---------------------------------------------------------------------------------------------------------------

  /** A node as it looks under the new root: links into the root move with it. */
  function MovedNode(node: Node, m: Move): Node {
    if node.Link? && Within(node.target, m.root) then Link(Rebase(node.target, m.root, m.destination)) else node
  }

  function Moved(node: Option<Node>, m: Move): Option<Node> {
    if node.None? then None else Some(MovedNode(node.value, m))
  }

  /** Links stay inside the root or lead elsewhere for good. */
  ghost predicate LinksAreTame(t: Tree, m: Move) {
    forall p :: p in t && t[p].Link? ==>
      && (Within(p, m.root) ==> Within(t[p].target, m.root) || Foreign(t[p].target, m))
      && (Foreign(p, m) ==> Foreign(t[p].target, m))
  }

  /** Nothing but directories lies above `p`. */
  ghost predicate ClearAbove(t: Tree, p: Path) {
    p != [] && Clear(t, Parent(p))
  }

  /** `u` has under the destination what `t` has under the root; elsewhere the two agree. */
  ghost predicate Mirrors(t: Tree, u: Tree, m: Move) {
    && WellFormed(t) && WellFormed(u)
    && ClearAbove(t, m.root) && ClearAbove(u, m.destination)
    && LinksAreTame(t, m)
    && (forall p :: Within(p, m.root) ==> Lookup(u, Rebase(p, m.root, m.destination)) == Moved(Lookup(t, p), m))
    && (forall p :: Foreign(p, m) ==> Lookup(u, p) == Lookup(t, p))
  }

  lemma {:induction false} ExistsMirrors(t: Tree, u: Tree, m: Move, p: Path, hops: nat)
    requires Mirrors(t, u, m)
    ensures Within(p, m.root) ==> (Exists(t, p, hops) <==> Exists(u, Rebase(p, m.root, m.destination), hops))
    ensures Foreign(p, m) ==> (Exists(t, p, hops) <==> Exists(u, p, hops))
    decreases hops
  {
    if Within(p, m.root) {
      assert Lookup(u, Rebase(p, m.root, m.destination)) == Moved(Lookup(t, p), m);
    }
    if Foreign(p, m) {
      assert Lookup(u, p) == Lookup(t, p);
    }
    if p in t && t[p].Link? && hops > 0 {
      ExistsMirrors(t, u, m, t[p].target, hops - 1);
    }
  }

  /** Outcomes of the same step on both sides. */
  ghost predicate SameOutcome(a: Outcome, b: Outcome, m: Move) {
    a.error == b.error && Mirrors(a.tree, b.tree, m)
  }

  lemma ClearMirrors(t: Tree, u: Tree, m: Move, p: Path)
    requires Mirrors(t, u, m) && Within(p, m.root)
    ensures Clear(t, p) <==> Clear(u, Rebase(p, m.root, m.destination))
  {
    var p' := Rebase(p, m.root, m.destination);
    if Clear(t, p) {
      forall q | Within(p', q) && q in u ensures u[q] == Dir {
        if Within(q, m.destination) {
          var r := Rebase(q, m.destination, m.root);
          RebaseBack(q, m.destination, m.root);
          assert Within(p, r);
          assert Lookup(u, q) == Moved(Lookup(t, r), m);
        } else {
          assert Within(Parent(m.destination), q);
        }
      }
    }
    if Clear(u, p') {
      forall q | Within(p, q) && q in t ensures t[q] == Dir {
        if Within(q, m.root) {
          assert Within(p', Rebase(q, m.root, m.destination));
          assert Lookup(u, Rebase(q, m.root, m.destination)) == Moved(Lookup(t, q), m);
        } else {
          assert Within(Parent(m.root), q);
        }
      }
    }
  }

  /** Adding the directories down to `p` on one side and down to its image on the other. */
  lemma AddedDirectoryMirrors(t: Tree, u: Tree, a: Tree, b: Tree, m: Move, p: Path, q: Path)
    requires Mirrors(t, u, m) && Within(p, m.root) && Within(q, m.root)
    requires Lookup(a, q) == if Within(p, q) then Some(Dir) else Lookup(t, q)
    requires var q' := Rebase(q, m.root, m.destination);
      Lookup(b, q') == if Within(Rebase(p, m.root, m.destination), q') then Some(Dir) else Lookup(u, q')
    ensures Lookup(b, Rebase(q, m.root, m.destination)) == Moved(Lookup(a, q), m)
  {
    var p', q' := Rebase(p, m.root, m.destination), Rebase(q, m.root, m.destination);
    assert Within(p, q) <==> Within(p', q');
    assert Lookup(u, q') == Moved(Lookup(t, q), m);
  }

  lemma AddedDirectoriesMirror(t: Tree, u: Tree, a: Tree, b: Tree, m: Move, p: Path)
    requires Mirrors(t, u, m) && Within(p, m.root) && WellFormed(a) && WellFormed(b)
    requires forall q :: Lookup(a, q) == if Within(p, q) then Some(Dir) else Lookup(t, q)
    requires forall q :: Lookup(b, q) == if Within(Rebase(p, m.root, m.destination), q) then Some(Dir) else Lookup(u, q)
    ensures Mirrors(a, b, m)
  {
    var p' := Rebase(p, m.root, m.destination);
    forall q | Within(q, m.root) ensures Lookup(b, Rebase(q, m.root, m.destination)) == Moved(Lookup(a, q), m) {
      AddedDirectoryMirrors(t, u, a, b, m, p, q);
    }
    forall q | Foreign(q, m) ensures Lookup(b, q) == Lookup(a, q) {
      assert !Within(p, q) && !Within(p', q);
    }
    TameAfterDirectories(t, a, m, p);
    ClearAboveAfterDirectories(t, a, m.root, p);
    ClearAboveAfterDirectories(u, b, m.destination, p');
  }

  lemma TameAfterDirectories(t: Tree, a: Tree, m: Move, p: Path)
    requires LinksAreTame(t, m)
    requires forall q :: Lookup(a, q) == if Within(p, q) then Some(Dir) else Lookup(t, q)
    ensures LinksAreTame(a, m)
  {
    forall q | q in a && a[q].Link? ensures q in t && t[q] == a[q] {
      assert Lookup(a, q) == Some(a[q]);
    }
  }

  lemma ClearAboveAfterDirectories(t: Tree, a: Tree, root: Path, p: Path)
    requires ClearAbove(t, root)
    requires forall q :: Lookup(a, q) == if Within(p, q) then Some(Dir) else Lookup(t, q)
    ensures ClearAbove(a, root)
  {
    forall q | Within(Parent(root), q) && q in a ensures a[q] == Dir {
      assert Lookup(a, q) == Some(a[q]);
    }
  }

  lemma MakeDirectoriesMirrors(t: Tree, u: Tree, m: Move, p: Path)
    requires Mirrors(t, u, m) && Within(p, m.root)
    ensures SameOutcome(MakeDirectories(t, p), MakeDirectories(u, Rebase(p, m.root, m.destination)), m)
  {
    var p' := Rebase(p, m.root, m.destination);
    ClearMirrors(t, u, m, p);
    MakeDirectoriesEffect(t, p);
    MakeDirectoriesEffect(u, p');
    if Clear(t, p) {
      AddedDirectoriesMirror(t, u, MakeDirectories(t, p).tree, MakeDirectories(u, p').tree, m, p);
    }
  }

  /** The same for the directory that holds `p`, which lies above the root when `p` is the root. */
  lemma MakeParentMirrors(t: Tree, u: Tree, m: Move, p: Path)
    requires Mirrors(t, u, m) && Within(p, m.root)
    ensures p != [] && Rebase(p, m.root, m.destination) != []
    ensures SameOutcome(MakeDirectories(t, Parent(p)), MakeDirectories(u, Parent(Rebase(p, m.root, m.destination))), m)
  {
    var p' := Rebase(p, m.root, m.destination);
    if p == m.root {
      assert p' == m.destination;
      MakeDirectoriesEffect(t, Parent(p));
      MakeDirectoriesEffect(u, Parent(p'));
      var a, b := MakeDirectories(t, Parent(p)).tree, MakeDirectories(u, Parent(p')).tree;
      AddedAncestorsMirror(t, u, a, b, m);
    } else {
      assert Within(Parent(p), m.root);
      assert Parent(p') == Rebase(Parent(p), m.root, m.destination);
      MakeDirectoriesMirrors(t, u, m, Parent(p));
    }
  }

  lemma AddedAncestorsMirror(t: Tree, u: Tree, a: Tree, b: Tree, m: Move)
    requires Mirrors(t, u, m) && WellFormed(a) && WellFormed(b)
    requires forall q :: Lookup(a, q) == if Within(Parent(m.root), q) then Some(Dir) else Lookup(t, q)
    requires forall q :: Lookup(b, q) == if Within(Parent(m.destination), q) then Some(Dir) else Lookup(u, q)
    ensures Mirrors(a, b, m)
  {
    forall q | Within(q, m.root) ensures Lookup(b, Rebase(q, m.root, m.destination)) == Moved(Lookup(a, q), m) {
      assert !Within(Parent(m.root), q) && !Within(Parent(m.destination), Rebase(q, m.root, m.destination));
      assert Lookup(u, Rebase(q, m.root, m.destination)) == Moved(Lookup(t, q), m);
    }
    forall q | Foreign(q, m) ensures Lookup(b, q) == Lookup(a, q) {
      assert !Within(Parent(m.root), q) && !Within(Parent(m.destination), q);
    }
    TameAfterDirectories(t, a, m, Parent(m.root));
    ClearAboveAfterDirectories(t, a, m.root, Parent(m.root));
    ClearAboveAfterDirectories(u, b, m.destination, Parent(m.destination));
  }

  // ---------------------------------------------------------------------------------------------------------------
  // The other calls
  // ---------------------------------------------------------------------------------------------------------------

  lemma RemoveMirrors(t: Tree, u: Tree, m: Move, p: Path)
    requires Mirrors(t, u, m) && Within(p, m.root)
    ensures Mirrors(RemovePathIfExists(t, p), RemovePathIfExists(u, Rebase(p, m.root, m.destination)), m)
  {
    ExistsMirrors(t, u, m, p, 40);
    if Exists(t, p) {
      RemoveKeepsWellFormed(t, p);
      RemoveKeepsWellFormed(u, Rebase(p, m.root, m.destination));
      RemovedTreesMirror(t, u, m, p);
      RemoveKeepsClearAbove(t, m.root, p);
      RemoveKeepsClearAbove(u, m.destination, Rebase(p, m.root, m.destination));
    }
  }

  lemma RemoveKeepsClearAbove(t: Tree, root: Path, p: Path)
    requires ClearAbove(t, root)
    ensures ClearAbove(Remove(t, p), root)
  {
  }

  lemma RemovedTreesMirror(t: Tree, u: Tree, m: Move, p: Path)
    requires Mirrors(t, u, m) && Within(p, m.root)
    ensures var a, b := Remove(t, p), Remove(u, Rebase(p, m.root, m.destination));
      && (forall q :: Within(q, m.root) ==> Lookup(b, Rebase(q, m.root, m.destination)) == Moved(Lookup(a, q), m))
      && (forall q :: Foreign(q, m) ==> Lookup(b, q) == Lookup(a, q))
      && LinksAreTame(a, m)
  {
    var p' := Rebase(p, m.root, m.destination);
    var a, b := Remove(t, p), Remove(u, p');
    forall q | Within(q, m.root) ensures Lookup(b, Rebase(q, m.root, m.destination)) == Moved(Lookup(a, q), m) {
      assert Within(q, p) <==> Within(Rebase(q, m.root, m.destination), p');
      assert Lookup(u, Rebase(q, m.root, m.destination)) == Moved(Lookup(t, q), m);
    }
    forall q | Foreign(q, m) ensures Lookup(b, q) == Lookup(a, q) {
      assert !Within(q, p) && !Within(q, p');
      assert Lookup(u, q) == Lookup(t, q);
    }
  }

  /** Writing one node at `p` and its moved form at the image of `p`. */
  lemma NodeAfterWriteMirrors(t: Tree, u: Tree, m: Move, p: Path, node: Node, q: Path)
    requires Mirrors(t, u, m) && Within(p, m.root) && Within(q, m.root)
    ensures Lookup(u[Rebase(p, m.root, m.destination) := MovedNode(node, m)], Rebase(q, m.root, m.destination))
         == Moved(Lookup(t[p := node], q), m)
  {
    RebaseBack(q, m.root, m.destination);
    RebaseBack(p, m.root, m.destination);
    assert Lookup(u, Rebase(q, m.root, m.destination)) == Moved(Lookup(t, q), m);
  }

  lemma ClearAboveAfterWrite(t: Tree, root: Path, p: Path, node: Node)
    requires ClearAbove(t, root) && Within(p, root)
    ensures ClearAbove(t[p := node], root)
  {
    assert !Within(Parent(root), p);
  }

  lemma TameAfterWrite(t: Tree, m: Move, p: Path, node: Node)
    requires LinksAreTame(t, m) && Within(p, m.root)
    requires node.Link? ==> Within(node.target, m.root) || Foreign(node.target, m)
    ensures LinksAreTame(t[p := node], m)
  {
    assert !Foreign(p, m);
  }

  lemma WriteNodeMirrors(t: Tree, u: Tree, m: Move, p: Path, node: Node)
    requires Mirrors(t, u, m) && Within(p, m.root) && p != []
    requires WellFormed(t[p := node]) && WellFormed(u[Rebase(p, m.root, m.destination) := MovedNode(node, m)])
    requires node.Link? ==> Within(node.target, m.root) || Foreign(node.target, m)
    ensures Mirrors(t[p := node], u[Rebase(p, m.root, m.destination) := MovedNode(node, m)], m)
  {
    var p' := Rebase(p, m.root, m.destination);
    var a, b := t[p := node], u[p' := MovedNode(node, m)];
    forall q | Within(q, m.root) ensures Lookup(b, Rebase(q, m.root, m.destination)) == Moved(Lookup(a, q), m) {
      NodeAfterWriteMirrors(t, u, m, p, node, q);
    }
    forall q | Foreign(q, m) ensures Lookup(b, q) == Lookup(a, q) {
      assert q != p && q != p' && Lookup(u, q) == Lookup(t, q);
    }
    ClearAboveAfterWrite(t, m.root, p, node);
    ClearAboveAfterWrite(u, m.destination, p', MovedNode(node, m));
    TameAfterWrite(t, m, p, node);
  }

  lemma CopyDirectoryMirrors(t: Tree, u: Tree, m: Move, source: Path, p: Path)
    requires Mirrors(t, u, m) && Within(p, m.root) && Foreign(source, m)
    requires p != [] && Parent(p) in t && t[Parent(p)] == Dir
    requires var p' := Rebase(p, m.root, m.destination); p' != [] && Parent(p') in u && u[Parent(p')] == Dir
    ensures SameOutcome(CopyDirectory(t, source, p), CopyDirectory(u, source, Rebase(p, m.root, m.destination)), m)
  {
    var p' := Rebase(p, m.root, m.destination);
    assert Lookup(u, source) == Lookup(t, source);
    assert Lookup(u, p') == Moved(Lookup(t, p), m);
    assert !Within(p, source) && !Within(p', source);
    if source in t && p !in t {
      CopyDirectoryEffect(t, source, p);
      CopyDirectoryEffect(u, source, p');
      CopiedTreesMirror(t, u, CopyDirectory(t, source, p).tree, CopyDirectory(u, source, p').tree, m, source, p);
    }
  }

  lemma CopiedTreesMirror(t: Tree, u: Tree, a: Tree, b: Tree, m: Move, source: Path, p: Path)
    requires Mirrors(t, u, m) && Within(p, m.root) && Foreign(source, m) && p != []
    requires WellFormed(a) && WellFormed(b)
    requires forall q :: Lookup(a, q) == AfterCopy(t, source, p, q)
    requires forall q :: Lookup(b, q) == AfterCopy(u, source, Rebase(p, m.root, m.destination), q)
    ensures Mirrors(a, b, m)
  {
    forall q | Within(q, m.root) ensures Lookup(b, Rebase(q, m.root, m.destination)) == Moved(Lookup(a, q), m) {
      CopiedNodeMirrors(t, u, m, source, p, q);
    }
    forall q | Foreign(q, m) ensures Lookup(b, q) == Lookup(a, q) {
      assert !Within(q, p) && !Within(q, Rebase(p, m.root, m.destination));
      assert Lookup(u, q) == Lookup(t, q);
    }
    CopiedLinksAreTame(t, a, m, source, p);
    ClearAboveAfterCopy(t, a, m.root, source, p);
    ClearAboveAfterCopy(u, b, m.destination, source, Rebase(p, m.root, m.destination));
  }

  lemma CopiedOriginIsForeign(m: Move, source: Path, p: Path, q: Path)
    requires Within(p, m.root) && Foreign(source, m) && Within(q, p)
    ensures var p', q' := Rebase(p, m.root, m.destination), Rebase(q, m.root, m.destination);
      && Within(q', p') && Rebase(q', p', source) == Rebase(q, p, source) && Foreign(Rebase(q, p, source), m)
  {
    var p', q' := Rebase(p, m.root, m.destination), Rebase(q, m.root, m.destination);
    assert q == p + q[|p|..] && q' == p' + q[|p|..];
  }

  lemma CopiedNodeMirrors(t: Tree, u: Tree, m: Move, source: Path, p: Path, q: Path)
    requires Mirrors(t, u, m) && Within(p, m.root) && Foreign(source, m) && Within(q, m.root)
    ensures AfterCopy(u, source, Rebase(p, m.root, m.destination), Rebase(q, m.root, m.destination))
         == Moved(AfterCopy(t, source, p, q), m)
  {
    var p', q' := Rebase(p, m.root, m.destination), Rebase(q, m.root, m.destination);
    if Within(q, p) {
      CopiedOriginIsForeign(m, source, p, q);
      assert q[|p|..] == q'[|p'|..];
      assert Lookup(u, Rebase(q, p, source)) == Lookup(t, Rebase(q, p, source));
    } else {
      assert !Within(q', p') by {
        RebaseBack(q, m.root, m.destination);
        RebaseBack(p, m.root, m.destination);
      }
      assert Lookup(u, q') == Moved(Lookup(t, q), m);
    }
  }

  lemma CopiedLinksAreTame(t: Tree, a: Tree, m: Move, source: Path, p: Path)
    requires LinksAreTame(t, m) && Within(p, m.root) && Foreign(source, m)
    requires forall q :: Lookup(a, q) == AfterCopy(t, source, p, q)
    ensures LinksAreTame(a, m)
  {
    forall q | q in a && a[q].Link?
      ensures Within(q, m.root) ==> Within(a[q].target, m.root) || Foreign(a[q].target, m)
      ensures Foreign(q, m) ==> Foreign(a[q].target, m)
    {
      assert Lookup(a, q) == Some(a[q]);
      if Within(q, p) {
        assert Foreign(Rebase(q, p, source), m);
      }
    }
  }

  lemma ClearAboveAfterCopy(t: Tree, a: Tree, root: Path, source: Path, p: Path)
    requires ClearAbove(t, root) && Within(p, root)
    requires forall q :: Lookup(a, q) == AfterCopy(t, source, p, q)
    ensures ClearAbove(a, root)
  {
    forall q | Within(Parent(root), q) && q in a ensures a[q] == Dir {
      assert !Within(q, p);
      assert Lookup(a, q) == Some(a[q]);
    }
  }

  // ---------------------------------------------------------------------------------------------------------------
  // Main results
  // ---------------------------------------------------------------------------------------------------------------

  lemma CopyFileMirrors(t: Tree, u: Tree, m: Move, source: Path, p: Path)
    requires Mirrors(t, u, m) && Within(p, m.root) && Foreign(source, m)
    requires p != [] && Parent(p) in t && t[Parent(p)] == Dir
    requires var p' := Rebase(p, m.root, m.destination); p' != [] && Parent(p') in u && u[Parent(p')] == Dir
    ensures SameOutcome(CopyFile(t, source, p), CopyFile(u, source, Rebase(p, m.root, m.destination)), m)
  {
    var p' := Rebase(p, m.root, m.destination);
    assert Lookup(u, source) == Lookup(t, source);
    assert Lookup(u, p') == Moved(Lookup(t, p), m);
    if CopyFile(t, source, p).error == None {
      ReplaceKeepsWellFormed(t, p, t[source]);
      ReplaceKeepsWellFormed(u, p', t[source]);
      WriteNodeMirrors(t, u, m, p, t[source]);
    }
  }

  lemma RebasedParent(p: Path, root: Path, destination: Path)
    requires Within(p, root) && p != root
    ensures Within(Parent(p), root) && Rebase(p, root, destination) != []
    ensures Parent(Rebase(p, root, destination)) == Rebase(Parent(p), root, destination)
  {
    assert Parent(p)[|root|..] == p[|root|..][..|p| - |root| - 1];
    assert Rebase(p, root, destination) == destination + p[|root|..];
  }

  /** A link can be made on both sides or on neither. */
  lemma LinkIsMadeOnBothSides(t: Tree, u: Tree, m: Move, to: Path, p: Path)
    requires Mirrors(t, u, m) && Within(p, m.root) && Within(to, m.root) && p != m.root
    ensures var p', to' := Rebase(p, m.root, m.destination), Rebase(to, m.root, m.destination);
      && p' != [] && Parent(p') == Rebase(Parent(p), m.root, m.destination)
      && MakeLink(u, to', p').error == MakeLink(t, to, p).error
  {
    var p' := Rebase(p, m.root, m.destination);
    RebasedParent(p, m.root, m.destination);
    assert Lookup(u, Parent(p')) == Moved(Lookup(t, Parent(p)), m);
    assert Lookup(u, p') == Moved(Lookup(t, p), m);
  }

  lemma MakeLinkMirrors(t: Tree, u: Tree, m: Move, to: Path, p: Path)
    requires Mirrors(t, u, m) && Within(p, m.root) && Within(to, m.root) && p != []
    requires Rebase(p, m.root, m.destination) != []
    requires p != m.root
    ensures SameOutcome(MakeLink(t, to, p),
                        MakeLink(u, Rebase(to, m.root, m.destination), Rebase(p, m.root, m.destination)), m)
  {
    var p' := Rebase(p, m.root, m.destination);
    LinkIsMadeOnBothSides(t, u, m, to, p);
    if MakeLink(t, to, p).error == None {
      ReplaceKeepsWellFormed(t, p, Link(to));
      ReplaceKeepsWellFormed(u, p', MovedNode(Link(to), m));
      WriteNodeMirrors(t, u, m, p, Link(to));
    }
  }

  lemma StepMirrors(t: Tree, u: Tree, m: Move, step: Step)
    requires Mirrors(t, u, m) && StepFits(step, m)
    requires step.kind == WriteSymlink ==> step.target != m.root
    ensures step.target != [] && RelocateStep(step, m).target != []
    ensures SameOutcome(RunStep(t, step), RunStep(u, RelocateStep(step, m)), m)
  {
    var p, p' := step.target, Rebase(step.target, m.root, m.destination);
    MakeParentMirrors(t, u, m, p);
    if step.kind == EnsureDir {
      MakeDirectoriesMirrors(t, u, m, p);
    } else if step.source.Some? {
      if step.kind == CopyTree {
        RemoveMirrors(t, u, m, p);
        var a, b := RemovePathIfExists(t, p), RemovePathIfExists(u, p');
        MakeParentMirrors(a, b, m, p);
        MakeDirectoriesEffect(a, Parent(p));
        MakeDirectoriesEffect(b, Parent(p'));
        if MakeDirectories(a, Parent(p)).error == None {
          ParentIsMade(a, p);
          ParentIsMade(b, p');
          CopyDirectoryMirrors(MakeDirectories(a, Parent(p)).tree, MakeDirectories(b, Parent(p')).tree, m,
                               step.source.value, p);
        }
      } else if step.kind == CopyOne {
        if MakeDirectories(t, Parent(p)).error == None {
          ParentIsMade(t, p);
          ParentIsMade(u, p');
          CopyFileMirrors(MakeDirectories(t, Parent(p)).tree, MakeDirectories(u, Parent(p')).tree, m,
                          step.source.value, p);
        }
      } else {
        RemoveMirrors(t, u, m, p);
        MakeLinkMirrors(RemovePathIfExists(t, p), RemovePathIfExists(u, p'), m, step.source.value, p);
      }
    }
  }

  lemma ParentIsMade(t: Tree, p: Path)
    requires WellFormed(t) && p != [] && MakeDirectories(t, Parent(p)).error == None
    ensures Lookup(MakeDirectories(t, Parent(p)).tree, Parent(p)) == Some(Dir)
  {
    MakeDirectoriesEffect(t, Parent(p));
  }

  /** Running the relocated steps does under the destination what the steps do under the root, failures included. */
  lemma {:induction false} RelocatedRunMirrorsRun(t: Tree, u: Tree, m: Move, steps: seq<Step>)
    requires Mirrors(t, u, m)
    requires forall i :: 0 <= i < |steps| ==> StepFits(steps[i], m)
    requires forall i :: 0 <= i < |steps| && steps[i].kind == WriteSymlink ==> steps[i].target != m.root
    ensures Runnable(steps) && Runnable(RelocateAll(steps, m))
    ensures SameOutcome(RunSteps(t, steps), RunSteps(u, RelocateAll(steps, m)), m)
    decreases |steps|
  {
    assert m.root != [] && m.destination != [];
    if steps != [] {
      StepMirrors(t, u, m, steps[0]);
      var a, b := RunStep(t, steps[0]), RunStep(u, RelocateStep(steps[0], m));
      assert RelocateAll(steps, m)[1..] == RelocateAll(steps[1..], m);
      if a.error == None {
        RelocatedRunMirrorsRun(a.tree, b.tree, m, steps[1..]);
      }
    }
  }

  /** Making directories down to `p` touches nothing but `p` and what lies above it. */
  lemma {:induction false} DirectoriesStayAbove(t: Tree, p: Path, q: Path)
    requires !Within(p, q)
    ensures Lookup(MakeDirectories(t, p).tree, q) == Lookup(t, q)
    decreases |p|
  {
    if p != [] {
      DirectoriesStayAbove(t, Parent(p), q);
    }
  }

  lemma StepStaysInside(t: Tree, step: Step, q: Path)
    requires step.target != [] && !Within(step.target, q) && !Within(q, step.target)
    ensures Lookup(RunStep(t, step).tree, q) == Lookup(t, q)
  {
    var p := step.target;
    assert !Within(Parent(p), q);
    DirectoriesStayAbove(t, p, q);
    DirectoriesStayAbove(t, Parent(p), q);
    DirectoriesStayAbove(RemovePathIfExists(t, p), Parent(p), q);
    assert Lookup(RemovePathIfExists(t, p), q) == Lookup(t, q);
    if step.kind == CopyTree && step.source.Some? {
      var made := MakeDirectories(RemovePathIfExists(t, p), Parent(p)).tree;
      assert q !in CopiedNodes(made, step.source.value, p);
    }
  }

  /** A run never touches what is neither below nor above the root its targets lie under. */
  lemma {:induction false} RunStaysInside(t: Tree, steps: seq<Step>, root: Path, q: Path)
    requires root != [] && forall i :: 0 <= i < |steps| ==> Within(steps[i].target, root)
    requires !Within(q, root) && !Within(root, q)
    ensures Runnable(steps) && Lookup(RunSteps(t, steps).tree, q) == Lookup(t, q)
    decreases |steps|
  {
    if steps != [] {
      assert Within(steps[0].target, root);
      StepStaysInside(t, steps[0], q);
      RunStaysInside(RunStep(t, steps[0]).tree, steps[1..], root, q);
    }
  }

  /** After a clean start the two sides mirror each other: both roots are empty. */
  lemma CleanStartMirrors(disk: Tree, m: Move)
    requires WellFormed(disk) && ClearAbove(disk, m.root) && ClearAbove(disk, m.destination)
    requires forall p :: p in disk && disk[p].Link? && Foreign(p, m) ==> Foreign(disk[p].target, m)
    ensures Mirrors(Remove(disk, m.root), Remove(disk, m.destination), m)
  {
    RemoveKeepsWellFormed(disk, m.root);
    RemoveKeepsWellFormed(disk, m.destination);
  }

  /** What the hand-off plan needs of a disk to be run under another root. */
  ghost predicate CanRelocate(disk: Tree, l: Layout, m: Move) {
    && l.root == m.root
    && (forall i :: 0 <= i < 5 ==> Foreign(Sources(l)[i], m))
    && WellFormed(disk) && ClearAbove(disk, m.root) && ClearAbove(disk, m.destination)
    && (forall p :: p in disk && disk[p].Link? && Foreign(p, m) ==> Foreign(disk[p].target, m))
  }

  /** `done` is what the plan does under its own root, moved, and the rest of the disk is as it was. */
  ghost predicate IsRelocatedRun(disk: Tree, l: Layout, m: Move, done: Outcome)
    requires Runnable(Plan(l))
  {
    && SameOutcome(RunSteps(Remove(disk, m.root), Plan(l)), done, m)
    && forall q :: !Within(q, m.destination) && !Within(m.destination, q) ==> Lookup(done.tree, q) == Lookup(disk, q)
  }

  /** The hand-off plan run under another root builds there what it would build under its own. */
  lemma HandoffPlanRelocates(disk: Tree, l: Layout, m: Move)
    requires CanRelocate(disk, l, m)
    ensures Runnable(Plan(l)) && Runnable(Plan(l.(root := m.destination)))
    ensures IsRelocatedRun(disk, l, m, RunSteps(Remove(disk, m.destination), Plan(l.(root := m.destination))))
  {
    var there := l.(root := m.destination);
    CleanStartMirrors(disk, m);
    RelocatedPlanIsPlanOfRelocatedLayout(l, m);
    PlanByIndex(l, 11);
    forall i | 0 <= i < |Plan(l)| && Plan(l)[i].kind == WriteSymlink ensures Plan(l)[i].target != m.root {
      PlanByIndex(l, i);
    }
    RelocatedRunMirrorsRun(Remove(disk, m.root), Remove(disk, m.destination), m, Plan(l));
    forall q | !Within(q, m.destination) && !Within(m.destination, q)
      ensures Lookup(RunSteps(Remove(disk, m.destination), Plan(there)).tree, q) == Lookup(disk, q)
    {
      assert forall i :: 0 <= i < |Plan(there)| ==> Plan(there)[i] == RelocateStep(Plan(l)[i], m);
      RunStaysInside(Remove(disk, m.destination), Plan(there), m.destination, q);
    }
  }

  // ---------------------------------------------------------------------------------------------------------------
  // The manifest's steps are strings
  // ---------------------------------------------------------------------------------------------------------------

  datatype TextStep = TextStep(kind: StepKind, target: string, source: Option<string>)

  function RenderStep(step: Step): TextStep {
    TextStep(step.kind, Render(step.target), if step.source.None? then None else Some(Render(step.source.value)))
  }

  /** How staging maps one step of the hand-off manifest. */
  function MapStep(root: string, destination: string, sourceRoot: string, step: TextStep): Result<TextStep, string> {
    var target := MapTargetPath(root, destination, step.target);
    if target.Err? then Err(target.error)
    else if step.source.None? then Ok(TextStep(step.kind, target.value, None))
    else if step.kind == WriteSymlink then
      var to := MapTargetPath(root, destination, step.source.value);
      if to.Err? then Err(to.error) else Ok(TextStep(step.kind, target.value, Some(to.value)))
    else Ok(TextStep(step.kind, target.value, Some(MapSourcePath(root, sourceRoot, step.source.value))))
  }

  /** The mapped source is the source exactly when it does not start with the root string, or both roots agree. */
  lemma MapSourceKeepsExactly(root: string, sourceRoot: string, source: string)
    ensures MapSourcePath(root, sourceRoot, source) == source <==> !StartsWith(source, root) || sourceRoot == root
  {
    if StartsWith(source, root) {
      var rest := source[|root|..];
      assert source == root + rest;
      assert MapSourcePath(root, sourceRoot, source) == sourceRoot + rest;
      assert sourceRoot + rest == root + rest ==> (sourceRoot + rest)[..|root|] == root;
    }
  }

  /** On strings the mapping is the relocation of a step exactly when it keeps the source of a copy. */
  lemma MapStepIsRelocation(step: Step, m: Move, sourceRoot: string)
    requires StepFits(step, m)
    ensures MapStep(Render(m.root), Render(m.destination), sourceRoot, RenderStep(step))
         == Ok(RenderStep(RelocateStep(step, m)))
      <==> (step.source.Some? && step.kind != WriteSymlink ==>
              !StartsWith(Render(step.source.value), Render(m.root)) || sourceRoot == Render(m.root))
  {
    MapTargetOfPathBelowRoot(m.root, m.destination, step.target);
    if step.source.Some? {
      if step.kind == WriteSymlink {
        MapTargetOfPathBelowRoot(m.root, m.destination, step.source.value);
      } else {
        MapSourceKeepsExactly(Render(m.root), sourceRoot, Render(step.source.value));
      }
    }
  }

  // ---------------------------------------------------------------------------------------------------------------
  // Cleaning above the destination
  // ---------------------------------------------------------------------------------------------------------------

  /**
   * The commands clean a directory that holds the destination. What they then build is the plan's own run on the
   * cleaned disk, moved, and outside the cleaned directory and what lies above it nothing changes.
   */
  lemma CleanedRunRelocates(disk: Tree, l: Layout, m: Move, cleaned: Path)
    requires CanRelocate(disk, l, m) && cleaned != [] && Within(m.destination, cleaned)
    ensures Runnable(Plan(l)) && Runnable(Plan(l.(root := m.destination)))
    ensures var start := Remove(disk, cleaned);
      var done := RunSteps(start, Plan(l.(root := m.destination)));
      && IsRelocatedRun(start, l, m, done)
      && forall q :: !Within(q, cleaned) && !Within(cleaned, q) ==> Lookup(done.tree, q) == Lookup(disk, q)
  {
    var start := Remove(disk, cleaned);
    RemoveKeepsWellFormed(disk, cleaned);
    assert CanRelocate(start, l, m);
    HandoffPlanRelocates(start, l, m);
    assert forall q :: Within(q, m.destination) ==> q !in start;
    assert Remove(start, m.destination) == start;
  }
}
