/**
 The memory of the namespace tree: the nodes that are still allocated, linked by owning child
 pointers and weak parent pointers. A reference that is no longer a key has expired.
 */
module Arenas {
  import opened Options
  import opened NamespaceSpec

  type Ref = nat

  const DUMMY: Ref := 0
  const ROOT: Ref := 1

  datatype DNode = DNode(
    name: string, data: string, kind: int, owner: SessionId,
    children: map<string, Ref>, parent: Option<Ref>)

  type Arena = map<Ref, DNode>

  /** Where each node was put when it was created; nodes never move. */
  type Places = map<Ref, Path>

  /** The node whose child table holds r: the parent, or the dummy for the root, which has no parent pointer. */
  function Holder(a: Arena, r: Ref): Ref
    requires r in a
  {
    if a[r].parent.Some? then a[r].parent.value else DUMMY
  }

  /** r hangs under its own name in the child table of a live holder. */
  ghost predicate Hangs(a: Arena, at: Places, r: Ref)
    requires r in a && a.Keys <= at.Keys
  {
    && (a[r].parent.None? <==> r == ROOT)
    && Holder(a, r) in a
    && at[r] == at[Holder(a, r)] + [a[r].name]
    && a[r].name in a[Holder(a, r)].children
    && a[Holder(a, r)].children[a[r].name] == r
  }

  /** The child of p under name k is live and is held by p only. */
  ghost predicate Holds(a: Arena, p: Ref, k: string)
    requires p in a && k in a[p].children
  {
    var c := a[p].children[k];
    c in a && c != DUMMY && a[c].name == k && Holder(a, c) == p
  }

  ghost predicate Anchored(a: Arena, at: Places)
  {
    && a.Keys <= at.Keys
    && DUMMY in a && at[DUMMY] == [] && a[DUMMY].parent.None? && a[DUMMY].kind == PERSISTENT
    && ROOT in a && at[ROOT] == [""] && a[ROOT].kind == PERSISTENT
  }

  ghost predicate SamePlace(at: Places, r: Ref, q: Ref)
  {
    r in at && q in at && at[r] == at[q]
  }

  ghost predicate Injective(a: Arena, at: Places)
    requires a.Keys <= at.Keys
  {
    forall r, q {:trigger SamePlace(at, r, q)} :: r in a && q in a && SamePlace(at, r, q) ==> r == q
  }

  /** The live nodes form a tree below the dummy node. */
  ghost predicate IsTree(a: Arena, at: Places)
  {
    && Anchored(a, at)
    && Injective(a, at)
    && (forall r {:trigger Hangs(a, at, r)} :: r in a && r != DUMMY ==> Hangs(a, at, r))
    && (forall p, k {:trigger Holds(a, p, k)} :: p in a && k in a[p].children ==> Holds(a, p, k))
  }

  ghost function ViewOf(a: Arena, at: Places): View
    requires a.Keys <= at.Keys && Injective(a, at)
  {
    assert forall r, q :: r in a && q in a && at[r] == at[q] ==> SamePlace(at, r, q);
    map r | r in a :: at[r] := Content(a[r])
  }

  ghost predicate IsBelow(at: Places, top: Ref, r: Ref)
  {
    top in at && r in at && at[top] <= at[r]
  }

  ghost function Content(n: DNode): Payload
  {
    Payload(n.data, n.kind, n.owner)
  }

  lemma ViewAt(a: Arena, at: Places, r: Ref)
    requires a.Keys <= at.Keys && Injective(a, at) && r in a
    ensures at[r] in ViewOf(a, at) && ViewOf(a, at)[at[r]] == Content(a[r])
  {
    assert forall q :: q in a && at[q] == at[r] ==> SamePlace(at, q, r);
  }

  /** A node with everything that hangs from it. */
  ghost function Subtree(a: Arena, at: Places, top: Ref): set<Ref>
    requires a.Keys <= at.Keys
  {
    set r | r in a && IsBelow(at, top, r)
  }

  ghost predicate Closed(a: Arena, at: Places, d: set<Ref>)
    requires a.Keys <= at.Keys
  {
    forall p, r :: p in a && r in a && p in d && IsBelow(at, p, r) ==> r in d
  }

  function PruneNode(n: DNode, d: set<Ref>): DNode
  {
    n.(children := map k | k in n.children && n.children[k] !in d :: n.children[k])
  }

  /** The arena without the nodes of d and without the links to them. */
  function Prune(a: Arena, d: set<Ref>): Arena
  {
    map r | r in a && r !in d :: PruneNode(a[r], d)
  }

  lemma PruneTwice(a: Arena, d: set<Ref>, e: set<Ref>)
    ensures Prune(Prune(a, d), e) == Prune(a, d + e)
  {
    forall r | r in a && r !in d && r !in e
      ensures PruneNode(PruneNode(a[r], d), e) == PruneNode(a[r], d + e)
    {
    }
  }

  lemma PruneNothing(a: Arena, d: set<Ref>)
    requires forall r :: r in a ==> r !in d
    requires forall p, k :: p in a && k in a[p].children ==> a[p].children[k] !in d
    ensures Prune(a, d) == a
  {
    forall r | r in a
      ensures PruneNode(a[r], d) == a[r]
    {
      assert PruneNode(a[r], d).children == a[r].children;
    }
  }

  /** Freeing whole subtrees leaves a tree. */
  lemma PruneKeepsTree(a: Arena, at: Places, d: set<Ref>)
    requires IsTree(a, at) && Closed(a, at, d) && DUMMY !in d && ROOT !in d
    ensures IsTree(Prune(a, d), at)
  {
    var b := Prune(a, d);
    forall r | r in b && r != DUMMY
      ensures Hangs(b, at, r)
    {
      assert Hangs(a, at, r);
      assert IsBelow(at, Holder(a, r), r);
    }
    forall p, k | p in b && k in b[p].children
      ensures Holds(b, p, k)
    {
      assert Holds(a, p, k);
    }
  }

  lemma SubtreeClosed(a: Arena, at: Places, top: Ref)
    requires a.Keys <= at.Keys
    ensures Closed(a, at, Subtree(a, at, top))
  {
  }

  /** The node that stands n steps below the dummy on the way to r. */
  lemma {:induction false} AncestorAt(a: Arena, at: Places, r: Ref, n: nat) returns (x: Ref)
    requires IsTree(a, at) && r in a && n <= |at[r]|
    ensures x in a && at[x] == at[r][..n]
    decreases |at[r]|
  {
    if n == |at[r]| {
      x := r;
    } else {
      assert Hangs(a, at, r);
      x := AncestorAt(a, at, Holder(a, r), n);
    }
  }

  /** Whatever lies strictly below p lies below one of its children. */
  lemma BelowSomeChild(a: Arena, at: Places, p: Ref, r: Ref) returns (k: string)
    requires IsTree(a, at) && p in a && r in a && r != p && IsBelow(at, p, r)
    ensures k in a[p].children && IsBelow(at, a[p].children[k], r)
    ensures Holds(a, p, k)
  {
    assert |at[p]| < |at[r]| by {
      if at[p] == at[r] {
        assert SamePlace(at, p, r);
      }
    }
    var x := AncestorAt(a, at, r, |at[p]| + 1);
    assert Hangs(a, at, x);
    k := a[x].name;
    assert SamePlace(at, Holder(a, x), p);
    assert Holds(a, p, k);
  }

  lemma ChildPlace(a: Arena, at: Places, p: Ref, k: string)
    requires IsTree(a, at) && p in a && k in a[p].children
    ensures Holds(a, p, k) && at[a[p].children[k]] == at[p] + [k]
  {
    assert Holds(a, p, k);
    assert Hangs(a, at, a[p].children[k]);
  }

  lemma TreeWellFormed(a: Arena, at: Places)
    requires IsTree(a, at)
    ensures WellFormed(ViewOf(a, at))
  {
    var v := ViewOf(a, at);
    ViewAt(a, at, DUMMY);
    ViewAt(a, at, ROOT);
    forall q | q in v && q != []
      ensures Parent(q) in v
    {
      var r :| r in a && at[r] == q;
      assert Hangs(a, at, r);
      assert at[Holder(a, r)] in v;
    }
  }

  /** Following child links, as walkTo does; the outcome for a missing link is None. */
  function Walk(a: Arena, from: Ref, cs: Path): Option<Ref>
    decreases |cs|
  {
    if cs == [] then Some(from)
    else if from in a && cs[0] in a[from].children then Walk(a, a[from].children[cs[0]], cs[1..])
    else None
  }

  lemma {:induction false} WalkFinds(a: Arena, at: Places, p: Ref, r: Ref)
    requires IsTree(a, at) && p in a && r in a && IsBelow(at, p, r)
    ensures Walk(a, p, at[r][|at[p]|..]) == Some(r)
    decreases |at[r]| - |at[p]|
  {
    if at[p] != at[r] {
      var k := BelowSomeChild(a, at, p, r);
      ChildPlace(a, at, p, k);
      var c := a[p].children[k];
      WalkFinds(a, at, c, r);
      var rest := at[r][|at[p]|..];
      assert rest[1..] == at[r][|at[c]|..] && rest[0] == at[c][|at[p]|];
    } else {
      assert SamePlace(at, p, r);
      assert at[r][|at[p]|..] == [];
    }
  }

  lemma {:induction false} WalkIsSound(a: Arena, at: Places, p: Ref, cs: Path)
    requires IsTree(a, at) && p in a && Walk(a, p, cs).Some?
    ensures var r := Walk(a, p, cs).value; r in a && at[r] == at[p] + cs
    decreases |cs|
  {
    if cs != [] {
      ChildPlace(a, at, p, cs[0]);
      WalkIsSound(a, at, a[p].children[cs[0]], cs[1..]);
      assert at[p] + [cs[0]] + cs[1..] == at[p] + cs;
    }
  }

  /** A node is allocated iff it is reached from the dummy through child links, and then along its own place only. */
  lemma LiveIffReachable(a: Arena, at: Places, r: Ref)
    requires IsTree(a, at)
    ensures r in a <==> exists cs :: Walk(a, DUMMY, cs) == Some(r)
    ensures forall cs :: Walk(a, DUMMY, cs) == Some(r) ==> r in a && cs == at[r]
  {
    if r in a {
      WalkFinds(a, at, DUMMY, r);
    }
    forall cs | Walk(a, DUMMY, cs) == Some(r)
      ensures r in a && cs == at[r]
    {
      WalkIsSound(a, at, DUMMY, cs);
      assert [] + cs == cs;
    }
  }

  /** walkTo succeeds exactly for the places in the view. */
  lemma WalkMeetsView(a: Arena, at: Places, cs: Path)
    requires IsTree(a, at)
    ensures Walk(a, DUMMY, cs).Some? <==> cs in ViewOf(a, at)
    ensures var r := Walk(a, DUMMY, cs); r.Some? ==> r.value in a && at[r.value] == cs
  {
    if Walk(a, DUMMY, cs).Some? {
      WalkIsSound(a, at, DUMMY, cs);
      assert [] + cs == cs;
    }
    if cs in ViewOf(a, at) {
      var r :| r in a && at[r] == cs;
      WalkFinds(a, at, DUMMY, r);
      assert cs[0..] == cs;
    }
  }

  lemma SubtreeSparesTop(a: Arena, at: Places, c: Ref)
    requires IsTree(a, at) && c in a && c != DUMMY && c != ROOT
    ensures DUMMY !in Subtree(a, at, c) && ROOT !in Subtree(a, at, c)
  {
    assert Hangs(a, at, c);
    assert IsBelow(at, c, ROOT) ==> SamePlace(at, c, ROOT);
  }

  /** Taking one link out and freeing the subtree behind it is a pruning. */
  lemma EraseIsPrune(a: Arena, at: Places, p: Ref, k: string)
    requires IsTree(a, at) && p in a && k in a[p].children
    ensures var c := a[p].children[k];
            a[p := a[p].(children := a[p].children - {k})] - Subtree(a, at, c) == Prune(a, Subtree(a, at, c))
  {
    ChildPlace(a, at, p, k);
    var c := a[p].children[k];
    var d := Subtree(a, at, c);
    forall q, j | q in a && q !in d && j in a[q].children
      ensures a[q].children[j] in d <==> q == p && j == k
    {
      ChildPlace(a, at, q, j);
      assert SamePlace(at, a[q].children[j], c) ==> a[q].children[j] == c;
    }
    forall q | q in a && q !in d
      ensures PruneNode(a[q], d) == if q == p then a[p].(children := a[p].children - {k}) else a[q]
    {
      assert PruneNode(a[q], d).children == if q == p then a[p].children - {k} else a[q].children;
    }
  }

  /** What the destructor cascade still has to free below c: the subtrees of the children not yet destroyed. */
  ghost function BelowChildren(a: Arena, at: Places, c: Ref, keys: set<string>): set<Ref>
    requires a.Keys <= at.Keys && c in a
  {
    set r | r in a && exists k :: k in keys && k in a[c].children && IsBelow(at, a[c].children[k], r)
  }

  lemma SubtreeIsTopAndChildren(a: Arena, at: Places, c: Ref)
    requires IsTree(a, at) && c in a
    ensures Subtree(a, at, c) == {c} + BelowChildren(a, at, c, a[c].children.Keys)
  {
    forall r | r in Subtree(a, at, c) && r != c
      ensures r in BelowChildren(a, at, c, a[c].children.Keys)
    {
      var k := BelowSomeChild(a, at, c, r);
    }
    forall k, r | k in a[c].children && r in a && IsBelow(at, a[c].children[k], r)
      ensures r in Subtree(a, at, c)
    {
      ChildPlace(a, at, c, k);
    }
  }

  lemma ChildSubtree(a: Arena, at: Places, c: Ref, keys: set<string>, k: string)
    requires IsTree(a, at) && c in a && k in a[c].children && k !in keys && keys <= a[c].children.Keys
    ensures BelowChildren(a, at, c, keys + {k}) == BelowChildren(a, at, c, keys) + Subtree(a, at, a[c].children[k])
    ensures BelowChildren(a, at, c, keys) !! Subtree(a, at, a[c].children[k])
    ensures Subtree(a, at, a[c].children[k]) < Subtree(a, at, c) && c !in Subtree(a, at, a[c].children[k])
  {
    ChildPlace(a, at, c, k);
    forall j, r | j in a[c].children && r in a && IsBelow(at, a[c].children[j], r)
      ensures |at[c]| < |at[r]| && at[r][|at[c]|] == j
    {
      ChildPlace(a, at, c, j);
    }
    assert c in Subtree(a, at, c);
  }

  /** The nodes strictly below top that are, or are below, a node of session s. */
  ghost function DoomedRefs(a: Arena, at: Places, top: Ref, s: SessionId): set<Ref>
    requires a.Keys <= at.Keys
  {
    set r | r in a && exists x :: DoomedBy(a, at, top, s, x, r)
  }

  ghost predicate DoomedBy(a: Arena, at: Places, top: Ref, s: SessionId, x: Ref, r: Ref)
  {
    x in a && x != top && IsBelow(at, top, x) && Owned(Content(a[x]), {s}) && IsBelow(at, x, r)
  }

  lemma DoomedClosed(a: Arena, at: Places, top: Ref, s: SessionId)
    requires IsTree(a, at)
    ensures Closed(a, at, DoomedRefs(a, at, top, s))
    ensures DUMMY !in DoomedRefs(a, at, top, s) && ROOT !in DoomedRefs(a, at, top, s)
  {
    forall p, r | p in DoomedRefs(a, at, top, s) && r in a && IsBelow(at, p, r)
      ensures r in DoomedRefs(a, at, top, s)
    {
      var x :| DoomedBy(a, at, top, s, x, p);
      assert DoomedBy(a, at, top, s, x, r);
    }
    forall x | x in a && (IsBelow(at, x, DUMMY) || IsBelow(at, x, ROOT))
      ensures x == DUMMY || x == ROOT
    {
      assert SamePlace(at, x, DUMMY) || SamePlace(at, x, ROOT);
    }
  }

  /** Pruning the doomed nodes is the removal the clients' view prescribes. */
  lemma PruneDoomedView(a: Arena, at: Places, s: SessionId)
    requires IsTree(a, at)
    ensures var d := DoomedRefs(a, at, DUMMY, s);
            Injective(Prune(a, d), at) && ViewOf(Prune(a, d), at) == RemoveOwned(ViewOf(a, at), {s})
  {
    var d, v := DoomedRefs(a, at, DUMMY, s), ViewOf(a, at);
    forall r | r in a
      ensures r in d <==> Doomed(v, at[r], {s})
    {
      if x :| DoomedBy(a, at, DUMMY, s, x, r) {
        ViewAt(a, at, x);
        assert OwnedAt(v, at[x], {s});
      }
      if p :| OwnedAt(v, p, {s}) && p <= at[r] {
        var x :| x in a && at[x] == p;
        ViewAt(a, at, x);
        assert DoomedBy(a, at, DUMMY, s, x, r);
      }
    }
    PruneView(a, at, d, RemoveOwned(v, {s}));
  }

  /** A view w that keeps exactly the places outside d, unchanged, is the view of the pruned arena. */
  lemma PruneView(a: Arena, at: Places, d: set<Ref>, w: View)
    requires a.Keys <= at.Keys && Injective(a, at)
    requires forall q :: q in w ==> q in ViewOf(a, at) && w[q] == ViewOf(a, at)[q]
    requires forall r :: r in a ==> (at[r] in w <==> r !in d)
    ensures Injective(Prune(a, d), at) && ViewOf(Prune(a, d), at) == w
  {
  }

  lemma PruneSubtreeView(a: Arena, at: Places, c: Ref)
    requires IsTree(a, at) && c in a
    ensures var d := Subtree(a, at, c);
            Injective(Prune(a, d), at)
            && ViewOf(Prune(a, d), at) == map q | q in ViewOf(a, at) && !(at[c] <= q) :: ViewOf(a, at)[q]
  {
  }

  lemma ChildInView(a: Arena, at: Places, p: Ref, k: string)
    requires IsTree(a, at) && p in a
    ensures k in a[p].children <==> at[p] + [k] in ViewOf(a, at)
  {
    if k in a[p].children {
      ChildPlace(a, at, p, k);
      ViewAt(a, at, a[p].children[k]);
    }
    if at[p] + [k] in ViewOf(a, at) {
      var r :| r in a && at[r] == at[p] + [k];
      assert Hangs(a, at, r);
      assert Parent(at[r]) == at[Holder(a, r)] && Parent(at[p] + [k]) == at[p];
      assert SamePlace(at, Holder(a, r), p);
    }
  }

  lemma ChildrenAreChildNames(a: Arena, at: Places, p: Ref)
    requires IsTree(a, at) && p in a
    ensures a[p].children.Keys == ChildNames(ViewOf(a, at), at[p])
  {
    var v := ViewOf(a, at);
    forall k | k in a[p].children
      ensures k in ChildNames(v, at[p])
    {
      ChildInView(a, at, p, k);
      assert Parent(at[p] + [k]) == at[p];
    }
    forall q | q in v && q != [] && Parent(q) == at[p]
      ensures q[|q| - 1] in a[p].children
    {
      ChildInView(a, at, p, q[|q| - 1]);
      assert Parent(q) + [q[|q| - 1]] == q;
    }
  }

  /** The arena in which p got the freshly allocated child c. */
  function Linked(a: Arena, p: Ref, c: Ref, n: DNode): Arena
    requires p in a
  {
    a[p := a[p].(children := a[p].children[n.name := c])][c := n]
  }

  ghost predicate CanLink(a: Arena, at: Places, p: Ref, c: Ref, n: DNode)
  {
    && p in a && c !in at && n.name !in a[p].children
    && n.children == map[] && n.parent == Some(p)
  }

  lemma LinkedPlaceIsNew(a: Arena, at: Places, p: Ref, c: Ref, n: DNode, r: Ref)
    requires IsTree(a, at) && CanLink(a, at, p, c, n) && r in a
    ensures at[r] != at[p] + [n.name]
  {
    ChildInView(a, at, p, n.name);
    ViewAt(a, at, r);
  }

  lemma LinkInjective(a: Arena, at: Places, p: Ref, c: Ref, n: DNode)
    requires IsTree(a, at) && CanLink(a, at, p, c, n)
    ensures Injective(Linked(a, p, c, n), at[c := at[p] + [n.name]])
  {
    var b, there := Linked(a, p, c, n), at[c := at[p] + [n.name]];
    forall r, q | r in b && q in b && SamePlace(there, r, q)
      ensures r == q
    {
      assert SamePlace(at, r, q) ==> r in a && q in a;
      if r in a {
        LinkedPlaceIsNew(a, at, p, c, n, r);
      }
      if q in a {
        LinkedPlaceIsNew(a, at, p, c, n, q);
      }
    }
  }

  lemma LinkHangs(a: Arena, at: Places, p: Ref, c: Ref, n: DNode, r: Ref)
    requires IsTree(a, at) && CanLink(a, at, p, c, n)
    requires r in Linked(a, p, c, n) && r != DUMMY
    ensures Hangs(Linked(a, p, c, n), at[c := at[p] + [n.name]], r)
  {
    if r in a {
      assert Hangs(a, at, r);
    }
  }

  lemma LinkHolds(a: Arena, at: Places, p: Ref, c: Ref, n: DNode, q: Ref, k: string)
    requires IsTree(a, at) && CanLink(a, at, p, c, n)
    requires q in Linked(a, p, c, n) && k in Linked(a, p, c, n)[q].children
    ensures Holds(Linked(a, p, c, n), q, k)
  {
    if q in a && k in a[q].children {
      assert Holds(a, q, k);
    }
  }

  lemma LinkAnchored(a: Arena, at: Places, p: Ref, c: Ref, n: DNode)
    requires Anchored(a, at) && CanLink(a, at, p, c, n)
    ensures Anchored(Linked(a, p, c, n), at[c := at[p] + [n.name]])
  {
  }

  lemma LinkKeepsTree(a: Arena, at: Places, p: Ref, c: Ref, n: DNode)
    requires IsTree(a, at) && CanLink(a, at, p, c, n)
    ensures IsTree(Linked(a, p, c, n), at[c := at[p] + [n.name]])
  {
    var b, there := Linked(a, p, c, n), at[c := at[p] + [n.name]];
    LinkAnchored(a, at, p, c, n);
    LinkInjective(a, at, p, c, n);
    forall r | r in b && r != DUMMY
      ensures Hangs(b, there, r)
    {
      LinkHangs(a, at, p, c, n, r);
    }
    forall q, k | q in b && k in b[q].children
      ensures Holds(b, q, k)
    {
      LinkHolds(a, at, p, c, n, q, k);
    }
  }

  /** A map that has the content of every live node at its place, and no other places, is the view. */
  lemma ViewIs(a: Arena, at: Places, w: View)
    requires a.Keys <= at.Keys && Injective(a, at)
    requires forall r :: r in a ==> at[r] in w && w[at[r]] == Content(a[r])
    requires forall q :: q in w ==> exists r :: r in a && at[r] == q
    ensures ViewOf(a, at) == w
  {
  }

  lemma LinkView(a: Arena, at: Places, p: Ref, c: Ref, n: DNode)
    requires IsTree(a, at) && CanLink(a, at, p, c, n)
    ensures Injective(Linked(a, p, c, n), at[c := at[p] + [n.name]])
    ensures ViewOf(Linked(a, p, c, n), at[c := at[p] + [n.name]]) == ViewOf(a, at)[at[p] + [n.name] := Content(n)]
  {
    var b, there := Linked(a, p, c, n), at[c := at[p] + [n.name]];
    var w := ViewOf(a, at)[at[p] + [n.name] := Content(n)];
    LinkInjective(a, at, p, c, n);
    forall r | r in b
      ensures there[r] in w && w[there[r]] == Content(b[r])
    {
      if r in a {
        LinkedPlaceIsNew(a, at, p, c, n, r);
        ViewAt(a, at, r);
      }
    }
    forall q | q in w
      ensures exists r :: r in b && there[r] == q
    {
      if q in ViewOf(a, at) {
        var r :| r in a && at[r] == q;
        assert r in b && there[r] == q;
      } else {
        assert c in b && there[c] == q;
      }
    }
    ViewIs(b, there, w);
  }

  function WithData(a: Arena, r: Ref, data: string): Arena
    requires r in a
  {
    a[r := a[r].(data := data)]
  }

  lemma SetDataKeepsTree(a: Arena, at: Places, r: Ref, data: string)
    requires IsTree(a, at) && r in a
    ensures IsTree(WithData(a, r, data), at)
  {
    var b := WithData(a, r, data);
    forall q | q in b && q != DUMMY
      ensures Hangs(b, at, q)
    {
      assert Hangs(a, at, q);
    }
    forall p, k | p in b && k in b[p].children
      ensures Holds(b, p, k)
    {
      assert Holds(a, p, k);
    }
  }

  lemma SetDataView(a: Arena, at: Places, r: Ref, data: string)
    requires a.Keys <= at.Keys && Injective(a, at) && r in a
    ensures var v := ViewOf(a, at);
            Injective(WithData(a, r, data), at) && at[r] in v
            && ViewOf(WithData(a, r, data), at) == v[at[r] := v[at[r]].(data := data)]
  {
    ViewAt(a, at, r);
    var b, w := WithData(a, r, data), ViewOf(a, at)[at[r] := ViewOf(a, at)[at[r]].(data := data)];
    forall q | q in b
      ensures at[q] in w && w[at[q]] == Content(b[q])
    {
      ViewAt(a, at, q);
      assert SamePlace(at, q, r) ==> q == r;
    }
    ViewIs(b, at, w);
  }

  /** The dummy and, below it under the empty name, the root. */
  function InitialArena(): Arena
  {
    map[DUMMY := DNode("", "dummy", PERSISTENT, 0, map["" := ROOT], None),
        ROOT := DNode("", "root", PERSISTENT, 0, map[], None)]
  }

  ghost function InitialPlaces(): Places
  {
    map[DUMMY := [], ROOT := [""]]
  }

  lemma InitialTree()
    ensures IsTree(InitialArena(), InitialPlaces())
  {
  }

  lemma InitialView()
    requires IsTree(InitialArena(), InitialPlaces())
    ensures ViewOf(InitialArena(), InitialPlaces()) == INITIAL
  {
  }
}
