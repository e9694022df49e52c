/**
 The namespace service: the pointer tree, the session index, and both ways of removing the
 nodes of a dead session.
 */
module ServiceTree {
  import opened Options
  import opened NamespaceSpec
  import opened Arenas
  import Paths

  /** Session index: for every session the weak pointers to the ephemeral nodes it created. */
  type Index = map<SessionId, seq<Ref>>

  /** A live session node is listed under its owner. */
  ghost predicate Listed(a: Arena, index: Index, r: Ref)
    requires r in a
  {
    a[r].kind == EPHEMERAL ==> a[r].owner in index && r in index[a[r].owner]
  }

  /** Entry i of session s was allocated once, and while unexpired is a node of s. */
  ghost predicate EntryOk(a: Arena, at: Places, index: Index, s: SessionId, i: nat)
    requires s in index && i < |index[s]|
  {
    var r := index[s][i];
    r in at && (r in a ==> Owned(Content(a[r]), {s}))
  }

  ghost predicate IndexOk(a: Arena, at: Places, index: Index)
  {
    && (forall r {:trigger Listed(a, index, r)} :: r in a ==> Listed(a, index, r))
    && (forall s, i :: s in index && 0 <= i < |index[s]| ==> EntryOk(a, at, index, s, i))
  }

  lemma PruneKeepsIndex(a: Arena, at: Places, index: Index, d: set<Ref>)
    requires IndexOk(a, at, index)
    ensures IndexOk(Prune(a, d), at, index)
  {
    forall r | r in Prune(a, d)
      ensures Listed(Prune(a, d), index, r)
    {
      assert Listed(a, index, r);
    }
    forall s, i | s in index && 0 <= i < |index[s]|
      ensures EntryOk(Prune(a, d), at, index, s, i)
    {
      assert EntryOk(a, at, index, s, i);
    }
  }

  /** m_sessionMap[s].push_back(c) */
  function Enlisted(index: Index, s: SessionId, c: Ref): Index
  {
    index[s := (if s in index then index[s] else []) + [c]]
  }

  lemma LinkKeepsIndex(a: Arena, at: Places, index: Index, p: Ref, c: Ref, n: DNode)
    requires p in a && p in at && a.Keys <= at.Keys && c !in at && IndexOk(a, at, index)
    ensures var b, there := Linked(a, p, c, n), at[c := at[p] + [n.name]];
            IndexOk(b, there, if n.kind == EPHEMERAL then Enlisted(index, n.owner, c) else index)
  {
    var b, there := Linked(a, p, c, n), at[c := at[p] + [n.name]];
    var ix := if n.kind == EPHEMERAL then Enlisted(index, n.owner, c) else index;
    forall r | r in b
      ensures Listed(b, ix, r)
    {
      if r in a {
        assert Listed(a, index, r);
      } else if n.kind == EPHEMERAL {
        assert ix[n.owner][|ix[n.owner]| - 1] == c;
      }
    }
    forall s, i | s in ix && 0 <= i < |ix[s]|
      ensures EntryOk(b, there, ix, s, i)
    {
      assert s in index && i < |index[s]| ==> EntryOk(a, at, index, s, i);
    }
  }

  lemma EmptyListKeepsIndex(a: Arena, at: Places, index: Index, s: SessionId)
    requires IndexOk(a, at, index) && s !in index
    ensures IndexOk(a, at, index[s := []])
  {
    var ix := index[s := []];
    forall r | r in a
      ensures Listed(a, ix, r)
    {
      assert Listed(a, index, r);
    }
    forall t, i | t in ix && 0 <= i < |ix[t]|
      ensures EntryOk(a, at, ix, t, i)
    {
      assert EntryOk(a, at, index, t, i);
    }
  }

  lemma SetDataKeepsIndex(a: Arena, at: Places, index: Index, r: Ref, data: string)
    requires r in a && IndexOk(a, at, index)
    ensures IndexOk(WithData(a, r, data), at, index)
  {
    var b := WithData(a, r, data);
    forall q | q in b
      ensures Listed(b, index, q)
    {
      assert Listed(a, index, q);
    }
    forall s, i | s in index && 0 <= i < |index[s]|
      ensures EntryOk(b, at, index, s, i)
    {
      assert EntryOk(a, at, index, s, i);
    }
  }

  /** What erasing the entries of a list one by one has removed: the subtrees of those that were live. */
  ghost function Hit(a: Arena, at: Places, refs: seq<Ref>): set<Ref>
    requires a.Keys <= at.Keys
  {
    set r | r in a && exists i :: 0 <= i < |refs| && refs[i] in a && IsBelow(at, refs[i], r)
  }

  /** What is left after erasing r, which may have expired already. */
  ghost function WithoutSubtree(a: Arena, at: Places, r: Ref): Arena
    requires a.Keys <= at.Keys
  {
    if r in a then Prune(a, Subtree(a, at, r)) else a
  }

  lemma HitSnoc(a: Arena, at: Places, refs: seq<Ref>, i: nat)
    requires a.Keys <= at.Keys && i < |refs|
    ensures Hit(a, at, refs[..i + 1]) == Hit(a, at, refs[..i]) + if refs[i] in a then Subtree(a, at, refs[i]) else {}
  {
    assert refs[..i + 1][i] == refs[i] && forall j :: 0 <= j < i ==> refs[..i + 1][j] == refs[..i][j];
  }

  /** What is left of a subtree after closed pruning: all of it, but for what was pruned. */
  lemma SubtreeAfterPrune(a: Arena, at: Places, d: set<Ref>, r: Ref)
    requires a.Keys <= at.Keys && Closed(a, at, d) && r in a
    ensures r in d ==> Subtree(a, at, r) <= d
    ensures r !in d ==> d + Subtree(Prune(a, d), at, r) == d + Subtree(a, at, r)
  {
  }

  lemma HitClosed(a: Arena, at: Places, refs: seq<Ref>)
    requires a.Keys <= at.Keys
    ensures Closed(a, at, Hit(a, at, refs))
  {
    forall p, r | p in Hit(a, at, refs) && r in a && IsBelow(at, p, r)
      ensures r in Hit(a, at, refs)
    {
      var i :| 0 <= i < |refs| && refs[i] in a && IsBelow(at, refs[i], p);
      assert IsBelow(at, refs[i], r);
    }
  }

  /** One more entry: an expired one adds nothing, whether it expired before or during the loop. */
  lemma HitStep(a: Arena, at: Places, refs: seq<Ref>, i: nat)
    requires a.Keys <= at.Keys && i < |refs|
    ensures WithoutSubtree(Prune(a, Hit(a, at, refs[..i])), at, refs[i]) == Prune(a, Hit(a, at, refs[..i + 1]))
  {
    var r, d := refs[i], Hit(a, at, refs[..i]);
    HitSnoc(a, at, refs, i);
    HitClosed(a, at, refs[..i]);
    if r in a {
      SubtreeAfterPrune(a, at, d, r);
      if r !in d {
        PruneTwice(a, d, Subtree(Prune(a, d), at, r));
      } else {
        assert d + Subtree(a, at, r) == d;
      }
    } else {
      assert d + {} == d;
    }
  }

  /** The index names exactly what is doomed: all live nodes of s, and nothing else that is live. */
  lemma IndexNamesDoomed(a: Arena, at: Places, index: Index, s: SessionId)
    requires IsTree(a, at) && IndexOk(a, at, index) && s in index
    ensures Hit(a, at, index[s]) == DoomedRefs(a, at, DUMMY, s)
  {
    forall i, r | 0 <= i < |index[s]| && index[s][i] in a && r in a && IsBelow(at, index[s][i], r)
      ensures r in DoomedRefs(a, at, DUMMY, s)
    {
      assert EntryOk(a, at, index, s, i);
      assert DoomedBy(a, at, DUMMY, s, index[s][i], r);
    }
    forall r | r in DoomedRefs(a, at, DUMMY, s)
      ensures r in Hit(a, at, index[s])
    {
      var x :| DoomedBy(a, at, DUMMY, s, x, r);
      assert Listed(a, index, x);
      var i :| 0 <= i < |index[s]| && index[s][i] == x;
    }
  }

  /** What the scan of one child removes: the child with everything below it, or what is doomed below it. */
  ghost function ChildDoomed(a: Arena, at: Places, p: Ref, k: string, s: SessionId): set<Ref>
    requires a.Keys <= at.Keys && p in a && k in a[p].children && a[p].children[k] in a
  {
    var c := a[p].children[k];
    if Owned(Content(a[c]), {s}) then Subtree(a, at, c) else DoomedRefs(a, at, c, s)
  }

  /** The scan of p's children, with todo still to visit, has pruned d from the arena a it started with. */
  ghost predicate ScanInv(a: Arena, at: Places, p: Ref, todo: set<string>, s: SessionId, d: set<Ref>)
    requires a.Keys <= at.Keys && p in a
  {
    && todo <= a[p].children.Keys
    && d <= DoomedRefs(a, at, p, s) && Closed(a, at, d) && p !in d
    && (forall k :: k in todo ==> a[p].children[k] !in d)
    && (forall k, r :: (k in a[p].children && k !in todo && r in DoomedRefs(a, at, p, s)
                        && IsBelow(at, a[p].children[k], r)) ==> r in d)
  }

  lemma ChildDoomedIsDoomed(a: Arena, at: Places, p: Ref, k: string, s: SessionId, d: set<Ref>)
    requires IsTree(a, at) && p in a && k in a[p].children && a[p].children[k] in Prune(a, d)
    requires p in Prune(a, d) && k in Prune(a, d)[p].children
    ensures forall r :: r in ChildDoomed(Prune(a, d), at, p, k, s)
                    ==> r in DoomedRefs(a, at, p, s) && IsBelow(at, a[p].children[k], r)
  {
    ChildPlace(a, at, p, k);
    var c, b := a[p].children[k], Prune(a, d);
    forall r | r in ChildDoomed(b, at, p, k, s)
      ensures r in DoomedRefs(a, at, p, s) && IsBelow(at, c, r)
    {
      if Owned(Content(a[c]), {s}) {
        assert DoomedBy(a, at, p, s, c, r);
      } else {
        var x :| DoomedBy(b, at, c, s, x, r);
        assert DoomedBy(a, at, p, s, x, r);
      }
    }
  }

  lemma DoomedBelowChild(a: Arena, at: Places, p: Ref, k: string, s: SessionId, d: set<Ref>, r: Ref)
    requires IsTree(a, at) && p in a && k in a[p].children && a[p].children[k] in Prune(a, d)
    requires p in Prune(a, d) && k in Prune(a, d)[p].children && Closed(a, at, d)
    requires r in DoomedRefs(a, at, p, s) && IsBelow(at, a[p].children[k], r) && r !in d
    ensures r in ChildDoomed(Prune(a, d), at, p, k, s)
  {
    ChildPlace(a, at, p, k);
    var c, b := a[p].children[k], Prune(a, d);
    if !Owned(Content(a[c]), {s}) {
      var x :| DoomedBy(a, at, p, s, x, r);
      assert x !in d;
      assert SamePlace(at, x, p) ==> x == p;
      assert SamePlace(at, x, c) ==> x == c;
      assert |at[x]| > |at[p]|;
      assert DoomedBy(b, at, c, s, x, r);
    }
  }

  lemma OtherChildrenApart(a: Arena, at: Places, p: Ref, k: string)
    requires IsTree(a, at) && p in a && k in a[p].children
    ensures !IsBelow(at, a[p].children[k], p)
    ensures forall j :: j in a[p].children && j != k ==> !IsBelow(at, a[p].children[k], a[p].children[j])
  {
    ChildPlace(a, at, p, k);
    forall j | j in a[p].children && j != k
      ensures !IsBelow(at, a[p].children[k], a[p].children[j])
    {
      ChildPlace(a, at, p, j);
      assert (at[p] + [j])[|at[p]|] == j;
    }
  }

  lemma ScanStep(a: Arena, at: Places, p: Ref, todo: set<string>, s: SessionId, d: set<Ref>, k: string)
    requires IsTree(a, at) && p in a && ScanInv(a, at, p, todo, s, d) && k in todo
    ensures var b := Prune(a, d);
            && p in b && k in b[p].children && b[p].children[k] == a[p].children[k] && b[p].children[k] in b
            && ScanInv(a, at, p, todo - {k}, s, d + ChildDoomed(b, at, p, k, s))
            && Prune(b, ChildDoomed(b, at, p, k, s)) == Prune(a, d + ChildDoomed(b, at, p, k, s))
  {
    ChildPlace(a, at, p, k);
    var b := Prune(a, d);
    var gone := ChildDoomed(b, at, p, k, s);
    PruneTwice(a, d, gone);
    ChildDoomedIsDoomed(a, at, p, k, s, d);
    OtherChildrenApart(a, at, p, k);
    forall r | r in DoomedRefs(a, at, p, s) && IsBelow(at, a[p].children[k], r) && r !in d
      ensures r in gone
    {
      DoomedBelowChild(a, at, p, k, s, d, r);
    }
    forall q, r | q in d + gone && r in a && IsBelow(at, q, r)
      ensures r in d + gone
    {
      if r !in d && q in gone {
        DoomedClosed(a, at, p, s);
      }
    }
  }

  lemma ScanDone(a: Arena, at: Places, p: Ref, s: SessionId, d: set<Ref>)
    requires IsTree(a, at) && p in a && ScanInv(a, at, p, {}, s, d)
    ensures d == DoomedRefs(a, at, p, s)
  {
    forall r | r in DoomedRefs(a, at, p, s)
      ensures r in d
    {
      var x :| DoomedBy(a, at, p, s, x, r);
      assert at[p] == at[r] ==> SamePlace(at, p, x);
      var k := BelowSomeChild(a, at, p, r);
    }
  }

  class Services {
    var arena: Arena
    var index: Index
    var next: Ref             // no node has been allocated here or above
    ghost var at: Places

    ghost predicate Valid()
      reads this
    {
      && IsTree(arena, at)
      && IndexOk(arena, at, index)
      && (forall r :: r in at ==> r < next)
    }

    /** What the clients see. */
    ghost function Tree(): View
      reads this
      requires Valid()
    {
      ViewOf(arena, at)
    }

    constructor ()
      ensures Valid() && Tree() == INITIAL
    {
      arena := InitialArena();
      index := map[];
      next := 2;
      at := InitialPlaces();
      new;
      InitialTree();
      InitialView();
    }

    /** The destructor: c goes, then its children, whose only owner its child table was. t is the tree before. */
    method Release(c: Ref, ghost t: Arena)
      requires IsTree(t, at) && c in t
      requires forall x :: x in Subtree(t, at, c) ==> x in arena && arena[x] == t[x]
      modifies this`arena
      ensures arena == old(arena) - Subtree(t, at, c)
      decreases Subtree(t, at, c)
    {
      var kids := arena[c].children;
      assert arena[c] == t[c];
      SubtreeIsTopAndChildren(t, at, c);
      arena := arena - {c};
      var todo := kids.Keys;
      ghost var done: set<string> := {};
      while todo != {}
        invariant done + todo == kids.Keys && done !! todo
        invariant arena == old(arena) - {c} - BelowChildren(t, at, c, done)
        decreases todo
      {
        var k :| k in todo;
        ChildSubtree(t, at, c, done, k);
        ChildPlace(t, at, c, k);
        Release(kids[k], t);
        todo, done := todo - {k}, done + {k};
      }
      assert done == kids.Keys;
    }

    /** children.erase(k) on node p. */
    method Erase(p: Ref, k: string)
      requires Valid() && p in arena && k in arena[p].children && arena[p].children[k] != ROOT
      modifies this`arena
      ensures Valid()
      ensures arena == Prune(old(arena), Subtree(old(arena), at, old(arena)[p].children[k]))
    {
      ghost var t := arena;
      var c := arena[p].children[k];
      ChildPlace(t, at, p, k);
      arena := arena[p := arena[p].(children := arena[p].children - {k})];
      Release(c, t);
      EraseIsPrune(t, at, p, k);
      SubtreeSparesTop(t, at, c);
      SubtreeClosed(t, at, c);
      PruneKeepsTree(t, at, Subtree(t, at, c));
      PruneKeepsIndex(t, at, index, Subtree(t, at, c));
    }

    method WalkTo(pathes: Path) returns (curr: Option<Ref>)
      requires Valid()
      ensures curr.Some? <==> pathes in Tree()
      ensures curr.Some? ==> curr.value in arena && at[curr.value] == pathes
    {
      var r := DUMMY;
      for i := 0 to |pathes|
        invariant Walk(arena, DUMMY, pathes) == Walk(arena, r, pathes[i..])
        invariant r in arena
      {
        assert pathes[i..][1..] == pathes[i + 1..];
        if pathes[i] in arena[r].children {
          ChildPlace(arena, at, r, pathes[i]);
          r := arena[r].children[pathes[i]];
        } else {
          WalkMeetsView(arena, at, pathes);
          return None;
        }
      }
      WalkMeetsView(arena, at, pathes);
      return Some(r);
    }

    /** The parent of a place, and what its child table says about the place. */
    method WalkToParent(pathes: Path) returns (curr: Option<Ref>)
      requires Valid() && pathes != []
      ensures curr.Some? <==> Parent(pathes) in Tree()
      ensures curr.Some? ==>
                && curr.value in arena && at[curr.value] + [pathes[|pathes| - 1]] == pathes
                && (pathes[|pathes| - 1] in arena[curr.value].children <==> pathes in Tree())
    {
      curr := WalkTo(pathes[..|pathes| - 1]);
      if curr.Some? {
        ChildInView(arena, at, curr.value, pathes[|pathes| - 1]);
        assert at[curr.value] + [pathes[|pathes| - 1]] == pathes;
      }
    }

    method CreateNode(sessionId: SessionId, path: string, data: string, kind: int) returns (ok: bool)
      requires Valid()
      modifies this
      ensures Valid()
      ensures ok == CreateOk(old(Tree()), Paths.Split(path))
      ensures Tree() == Create(old(Tree()), sessionId, path, data, kind)
    {
      var pathes := Paths.SplitPath(path);
      if |pathes| <= 0 {
        return false;
      }
      var name := pathes[|pathes| - 1];
      var curr := WalkToParent(pathes);
      if curr.None? {
        return false;
      }
      if name in arena[curr.value].children {
        return false;
      }
      var owner := if kind == EPHEMERAL then sessionId else 0;
      Link(curr.value, DNode(name, data, kind, owner, map[], Some(curr.value)));
      return true;
    }

    /** Stores a new child under its name and, for a session node, a weak pointer in the index. */
    method Link(p: Ref, n: DNode)
      requires Valid() && p in arena && n.name !in arena[p].children
      requires n.children == map[] && n.parent == Some(p)
      modifies this
      ensures Valid()
      ensures Tree() == old(Tree())[old(at)[p] + [n.name] := Content(n)]
    {
      var c := next;
      LinkKeepsTree(arena, at, p, c, n);
      LinkView(arena, at, p, c, n);
      LinkKeepsIndex(arena, at, index, p, c, n);
      arena := arena[p := arena[p].(children := arena[p].children[n.name := c])][c := n];
      next := next + 1;
      at := at[c := at[p] + [n.name]];
      if n.kind == EPHEMERAL {
        index := Enlisted(index, n.owner, c);
      }
    }

    method GetNode(path: string) returns (data: Option<string>)
      requires Valid()
      ensures var cs := Paths.Split(path);
              data == if cs != [] && cs in Tree() then Some(Tree()[cs].data) else None
    {
      var pathes := Paths.SplitPath(path);
      if |pathes| <= 0 {
        return None;
      }
      var curr := WalkTo(pathes);
      if curr.None? {
        return None;
      }
      ViewAt(arena, at, curr.value);
      return Some(arena[curr.value].data);
    }

    method SetNode(path: string, data: string) returns (ok: bool)
      requires Valid()
      modifies this
      ensures Valid()
      ensures ok == SetOk(old(Tree()), Paths.Split(path))
      ensures Tree() == Set(old(Tree()), path, data)
    {
      var pathes := Paths.SplitPath(path);
      if |pathes| <= 0 {
        return false;
      }
      var curr := WalkTo(pathes);
      if curr.None? {
        return false;
      }
      SetDataKeepsTree(arena, at, curr.value, data);
      SetDataView(arena, at, curr.value, data);
      SetDataKeepsIndex(arena, at, index, curr.value, data);
      arena := arena[curr.value := arena[curr.value].(data := data)];
      return true;
    }

    method DeleteNode(path: string) returns (ok: bool)
      requires Valid()
      modifies this
      ensures Valid()
      ensures ok == DeleteOk(old(Tree()), Paths.Split(path))
      ensures Tree() == Delete(old(Tree()), path)
    {
      var pathes := Paths.SplitPath(path);
      if |pathes| <= 1 {
        return false;
      }
      var name := pathes[|pathes| - 1];
      var curr := WalkToParent(pathes);
      TreeWellFormed(arena, at);
      if curr.None? {
        return false;
      }
      if name !in arena[curr.value].children {
        return false;
      }
      var c := arena[curr.value].children[name];
      ChildPlace(arena, at, curr.value, name);
      PruneSubtreeView(arena, at, c);
      Erase(curr.value, name);
      return true;
    }

    method LsNode(path: string) returns (names: Option<set<string>>)
      requires Valid()
      ensures var cs := Paths.Split(path);
              names == if cs != [] && cs in Tree() then Some(ChildNames(Tree(), cs)) else None
    {
      var pathes := Paths.SplitPath(path);
      if |pathes| <= 0 {
        return None;
      }
      var curr := WalkTo(pathes);
      if curr.None? {
        return None;
      }
      ChildrenAreChildNames(arena, at, curr.value);
      return Some(arena[curr.value].children.Keys);
    }

    method ExistsNode(path: string) returns (found: Option<bool>)
      requires Valid()
      ensures var cs := Paths.Split(path);
              found == if cs == [] then None else Some(cs in Tree())
    {
      var pathes := Paths.SplitPath(path);
      if |pathes| <= 0 {
        return None;
      }
      var curr := WalkTo(pathes);
      return Some(curr.Some?);
    }

    /** One index entry: erased from its parent's children unless it, or its parent, has expired. */
    method EraseEntry(sessionId: SessionId, i: nat)
      requires Valid() && sessionId in index && i < |index[sessionId]|
      modifies this`arena
      ensures Valid()
      ensures arena == WithoutSubtree(old(arena), at, index[sessionId][i])
    {
      var ptr := index[sessionId][i];
      assert EntryOk(arena, at, index, sessionId, i);
      assert ptr in arena ==> Hangs(arena, at, ptr);
      if ptr in arena && arena[ptr].parent.Some? && arena[ptr].parent.value in arena {
        Erase(arena[ptr].parent.value, arena[ptr].name);
      }
    }

    /** The removal in use: it follows the session's index entries. */
    method RemoveEphemeral(sessionId: SessionId)
      requires Valid()
      modifies this
      ensures Valid() && at == old(at) && next == old(next)
      ensures index == if sessionId in old(index) then old(index) else old(index)[sessionId := []]
      ensures arena == Prune(old(arena), DoomedRefs(old(arena), old(at), DUMMY, sessionId))
      ensures Tree() == RemoveOwned(old(Tree()), {sessionId})
    {
      if sessionId !in index {
        EmptyListKeepsIndex(arena, at, index, sessionId);
        index := index[sessionId := []];
      }
      EraseEntries(sessionId);
      IndexNamesDoomed(old(arena), at, index, sessionId);
      PruneDoomedView(old(arena), at, sessionId);
    }

    /** The loop over the session's entries. */
    method EraseEntries(sessionId: SessionId)
      requires Valid() && sessionId in index
      modifies this`arena
      ensures Valid()
      ensures arena == Prune(old(arena), Hit(old(arena), at, index[sessionId]))
    {
      ghost var a, refs := arena, index[sessionId];
      PruneNothing(a, Hit(a, at, []));
      for i := 0 to |index[sessionId]|
        invariant Valid() && arena == Prune(a, Hit(a, at, refs[..i]))
      {
        HitStep(a, at, refs, i);
        EraseEntry(sessionId, i);
      }
      assert refs[..|refs|] == refs;
    }

    /** The deprecated removal: it scans everything below a node. */
    method RemoveEphemeralScan(node: Ref, sessionId: SessionId)
      requires Valid() && node in arena
      modifies this`arena
      ensures Valid()
      ensures arena == Prune(old(arena), DoomedRefs(old(arena), at, node, sessionId))
      decreases Subtree(arena, at, node), 1
    {
      ghost var a := arena;
      ghost var d: set<Ref> := {};
      var todo := arena[node].children.Keys;
      PruneNothing(a, {});
      while todo != {}
        invariant Valid() && arena == Prune(a, d) && ScanInv(a, at, node, todo, sessionId, d)
        decreases todo
      {
        var k :| k in todo;
        ScanStep(a, at, node, todo, sessionId, d, k);
        d := d + ChildDoomed(arena, at, node, k, sessionId);
        assert Subtree(arena, at, node) <= Subtree(a, at, node);
        ScanChild(node, k, sessionId);
        todo := todo - {k};
      }
      ScanDone(a, at, node, sessionId, d);
    }

    /** One round of the scan. */
    method ScanChild(node: Ref, k: string, sessionId: SessionId)
      requires Valid() && node in arena && k in arena[node].children && arena[node].children[k] in arena
      modifies this`arena
      ensures Valid()
      ensures arena == Prune(old(arena), ChildDoomed(old(arena), at, node, k, sessionId))
      decreases Subtree(arena, at, node), 0
    {
      var c := arena[node].children[k];
      ChildPlace(arena, at, node, k);
      ChildSubtree(arena, at, node, {}, k);
      if arena[c].kind == EPHEMERAL && arena[c].owner == sessionId {
        Erase(node, k);
      } else {
        RemoveEphemeralScan(c, sessionId);
      }
    }
  }

  /**
   Both removals, run on the same memory from the dummy node, leave the same memory; the clients
   see that exactly the doomed places are gone.
   */
  method CompareRemovals(fast: Services, simple: Services, sessionId: SessionId)
    requires fast != simple && fast.Valid() && simple.Valid()
    requires fast.arena == simple.arena && fast.at == simple.at
    modifies fast, simple
    ensures fast.Valid() && simple.Valid()
    ensures fast.arena == simple.arena
    ensures fast.Tree() == simple.Tree() == RemoveOwned(old(simple.Tree()), {sessionId})
  {
    fast.RemoveEphemeral(sessionId);
    simple.RemoveEphemeralScan(DUMMY, sessionId);
  }
}
