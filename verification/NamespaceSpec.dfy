/**
 The registry as its clients see it: a map from component lists to node contents.
 The pointer tree of module Services is proved to behave as this map.
 */
module NamespaceSpec {
  import Paths

  type SessionId = nat
  type Path = seq<string>

  // Node types travel as plain integers; other values than these are stored as they come.
  const PERSISTENT := 1
  const EPHEMERAL := 2

  datatype Payload = Payload(data: string, kind: int, owner: SessionId)

  type View = map<Path, Payload>

  /** The dummy node above the root "" is part of the view, under the empty list. */
  const INITIAL: View := map[[] := Payload("dummy", PERSISTENT, 0), [""] := Payload("root", PERSISTENT, 0)]

  function Parent(q: Path): Path
    requires q != []
  {
    q[..|q| - 1]
  }

  ghost predicate PrefixClosed(v: View)
  {
    && [] in v
    && forall q :: q in v && q != [] ==> Parent(q) in v
  }

  lemma {:induction false} PrefixesInside(v: View, q: Path, p: Path)
    requires PrefixClosed(v) && q in v && p <= q
    ensures p in v
    decreases |q|
  {
    if p != q {
      assert p <= Parent(q);
      PrefixesInside(v, Parent(q), p);
    }
  }

  /** A session's node: it goes when the session goes. */
  predicate Owned(p: Payload, dead: set<SessionId>)
  {
    p.kind == EPHEMERAL && p.owner in dead
  }

  ghost predicate OwnedAt(v: View, p: Path, dead: set<SessionId>)
  {
    p in v && Owned(v[p], dead)
  }

  /** q is, or sits below, an ephemeral node of a dead session. */
  ghost predicate Doomed(v: View, q: Path, dead: set<SessionId>)
  {
    exists p :: OwnedAt(v, p, dead) && p <= q
  }

  predicate CreateOk(v: View, cs: Path)
  {
    cs != [] && Parent(cs) in v && cs !in v
  }

  function Create(v: View, s: SessionId, path: string, data: string, kind: int): View
  {
    var cs := Paths.Split(path);
    if CreateOk(v, cs) then v[cs := Payload(data, kind, if kind == EPHEMERAL then s else 0)] else v
  }

  predicate SetOk(v: View, cs: Path)
  {
    cs != [] && cs in v
  }

  function Set(v: View, path: string, data: string): View
  {
    var cs := Paths.Split(path);
    if SetOk(v, cs) then v[cs := v[cs].(data := data)] else v
  }

  /** A one-component path is refused whether or not it names the root. */
  predicate DeleteOk(v: View, cs: Path)
  {
    |cs| >= 2 && cs in v
  }

  ghost function Delete(v: View, path: string): View
  {
    var cs := Paths.Split(path);
    if DeleteOk(v, cs) then map q | q in v && !(cs <= q) :: v[q] else v
  }

  /** The names one step below cs. */
  ghost function ChildNames(v: View, cs: Path): set<string>
  {
    set q | q in v && q != [] && Parent(q) == cs :: q[|q| - 1]
  }

  ghost function RemoveOwned(v: View, dead: set<SessionId>): View
  {
    map q | q in v && !Doomed(v, q, dead) :: v[q]
  }

  /** Every operation keeps the key set prefix-closed, and keeps the dummy and the root. */
  ghost predicate WellFormed(v: View)
  {
    PrefixClosed(v) && [""] in v && v[[]].kind == PERSISTENT && v[[""]].kind == PERSISTENT
  }

  lemma CreateKeepsWellFormed(v: View, s: SessionId, path: string, data: string, kind: int)
    requires WellFormed(v)
    ensures WellFormed(Create(v, s, path, data, kind))
  {
  }

  lemma SetKeepsWellFormed(v: View, path: string, data: string)
    requires WellFormed(v)
    ensures WellFormed(Set(v, path, data))
  {
  }

  lemma DeleteKeepsWellFormed(v: View, path: string)
    requires WellFormed(v)
    ensures WellFormed(Delete(v, path))
  {
  }

  lemma RemoveOwnedKeepsWellFormed(v: View, dead: set<SessionId>)
    requires WellFormed(v)
    ensures WellFormed(RemoveOwned(v, dead))
  {
    forall q | q in v && q != [] && Doomed(v, Parent(q), dead)
      ensures Doomed(v, q, dead)
    {
      var p :| OwnedAt(v, p, dead) && p <= Parent(q);
      assert p <= q;
    }
    assert forall p :: OwnedAt(v, p, dead) && p <= [] ==> p == [];
    assert forall p :: OwnedAt(v, p, dead) && p <= [""] ==> p == [] || p == [""];
  }

  /** Sessions that die one after the other leave what they leave when they die together. */
  lemma RemoveOwnedInSteps(v: View, dead: set<SessionId>, s: SessionId)
    ensures RemoveOwned(RemoveOwned(v, dead), {s}) == RemoveOwned(v, dead + {s})
  {
    var w := RemoveOwned(v, dead);
    forall q | q in v
      ensures Doomed(v, q, dead + {s}) <==> Doomed(v, q, dead) || (q in w && Doomed(w, q, {s}))
    {
      if p :| OwnedAt(v, p, dead + {s}) && p <= q {
        if Doomed(v, p, dead) {
          var a :| OwnedAt(v, a, dead) && a <= p;
          assert a <= q;
        } else {
          assert !OwnedAt(v, p, dead);
          assert OwnedAt(w, p, {s});
        }
      }
      if p :| OwnedAt(v, p, dead) && p <= q {
        assert OwnedAt(v, p, dead + {s});
      }
      if p :| OwnedAt(w, p, {s}) && p <= q {
        assert OwnedAt(v, p, dead + {s});
      }
    }
  }

  lemma RemoveNobody(v: View)
    ensures RemoveOwned(v, {}) == v
  {
  }

  /** After a session's removal nothing of it is left, not even below other nodes. */
  lemma NothingOwnedRemains(v: View, dead: set<SessionId>, q: Path)
    ensures !Doomed(RemoveOwned(v, dead), q, dead)
  {
    var w := RemoveOwned(v, dead);
    if p :| OwnedAt(w, p, dead) && p <= q {
      assert OwnedAt(v, p, dead);
    }
  }

  /**
   Deleting a node that was just created gives back the tree there was, creation having added one
   key and no more, exactly when its path has at least two components: the others cannot be deleted.
   */
  lemma CreateThenDelete(v: View, s: SessionId, path: string, data: string, kind: int)
    requires WellFormed(v) && CreateOk(v, Paths.Split(path))
    ensures Delete(Create(v, s, path, data, kind), path) == v <==> |Paths.Split(path)| >= 2
  {
    var cs := Paths.Split(path);
    forall q | q in v
      ensures !(cs <= q)
    {
      if cs <= q {
        PrefixesInside(v, q, cs);
      }
    }
    assert cs in Create(v, s, path, data, kind) && cs !in v;
  }

  /** A node next to the root, whatever tree it is in, is beyond the reach of every delete request. */
  lemma DeleteSparesTopLevel(v: View, name: string, path: string)
    requires [name] in v
    ensures [name] in Delete(v, path) && Delete(v, path)[[name]] == v[[name]]
  {
  }

  /** A slash-free name without a leading slash makes such a node; the same path does not delete it. */
  lemma TopLevelNodeStays(s: SessionId, name: string, data: string, kind: int)
    requires name != "" && '/' !in name
    ensures CreateOk(INITIAL, Paths.Split(name))
    ensures var v := Create(INITIAL, s, name, data, kind);
            [name] in v && !DeleteOk(v, Paths.Split(name)) && Delete(v, name) == v
  {
    Paths.SplitCharacterised(name, [name]);
    assert Parent([name]) == [];
  }

  // ---- What each request does, place by place ----

  /** A create is accepted iff the parent is there and the place is free; then the place holds what was asked for. */
  lemma CreateExact(v: View, s: SessionId, path: string, data: string, kind: int, q: Path)
    ensures var cs, w := Paths.Split(path), Create(v, s, path, data, kind);
            var accepted := cs != [] && cs[..|cs| - 1] in v && cs !in v;
            && (CreateOk(v, cs) <==> accepted)
            && (q in w <==> q in v || (accepted && q == cs))
            && (q in v ==> w[q] == v[q])
            && (accepted && q == cs ==> w[q].data == data && w[q].kind == kind
                                        && w[q].owner == if kind == EPHEMERAL then s else 0)
  {
  }

  /** A set is accepted iff the place is there; then it holds the data, and nothing else has changed. */
  lemma SetExact(v: View, path: string, data: string, q: Path)
    ensures var cs, w := Paths.Split(path), Set(v, path, data);
            && (SetOk(v, cs) <==> cs != [] && cs in v)
            && (q in w <==> q in v)
            && (q in v && cs != [] && q == cs ==> w[q] == Payload(data, v[q].kind, v[q].owner))
            && (q in v && (cs == [] || q != cs) ==> w[q] == v[q])
  {
  }

  /** A delete is accepted iff the place is there and is not a one-component place; then it goes with all below it. */
  lemma DeleteExact(v: View, path: string, q: Path)
    requires WellFormed(v)
    ensures var cs, w := Paths.Split(path), Delete(v, path);
            && (DeleteOk(v, cs) <==> |cs| >= 2 && cs in v)
            && (q in w <==> q in v && !(|cs| >= 2 && cs <= q))
            && (q in w ==> w[q] == v[q])
  {
    if q in v && Paths.Split(path) <= q {
      PrefixesInside(v, q, Paths.Split(path));
    }
  }

  /** What the end of sessions takes away: exactly the places at or below one of their nodes. */
  lemma RemoveOwnedExact(v: View, dead: set<SessionId>, q: Path)
    ensures var w := RemoveOwned(v, dead);
            && (q in w <==> q in v && forall a :: OwnedAt(v, a, dead) ==> !(a <= q))
            && (q in w ==> w[q] == v[q])
  {
  }

  /** The listing of a place: exactly the names that lead one step on. */
  lemma ChildNamesExact(v: View, cs: Path, k: string)
    ensures k in ChildNames(v, cs) <==> cs + [k] in v
  {
    if cs + [k] in v {
      assert Parent(cs + [k]) == cs;
    }
    if k in ChildNames(v, cs) {
      var q :| q in v && q != [] && Parent(q) == cs && q[|q| - 1] == k;
      assert q == cs + [k];
    }
  }

  // ---- How requests combine ----

  /** The last of two sets wins. */
  lemma SetTwice(v: View, path: string, first: string, second: string)
    ensures Set(Set(v, path, first), path, second) == Set(v, path, second)
  {
  }

  /** Setting a node just created is creating it with that data. */
  lemma CreateThenSet(v: View, s: SessionId, path: string, first: string, second: string, kind: int)
    requires CreateOk(v, Paths.Split(path))
    ensures Set(Create(v, s, path, first, kind), path, second) == Create(v, s, path, second, kind)
  {
  }

  /** Setting a node that is then deleted, or anything below it, makes no difference. */
  lemma SetThenDelete(v: View, path: string, above: string, data: string)
    requires WellFormed(v) && |Paths.Split(above)| >= 2 && Paths.Split(above) <= Paths.Split(path)
    ensures Delete(Set(v, path, data), above) == Delete(v, above)
  {
    SetKeepsWellFormed(v, path, data);
    SamePlaces(Set(v, path, data), v, above);
  }

  /** Nor does creating a node below one that is then deleted, whose children never keep it from being deleted. */
  lemma CreateThenDeleteAbove(v: View, s: SessionId, path: string, above: string, data: string, kind: int)
    requires WellFormed(v) && |Paths.Split(above)| >= 2
    requires Paths.Split(above) <= Paths.Split(path) && Paths.Split(above) != Paths.Split(path)
    ensures Delete(Create(v, s, path, data, kind), above) == Delete(v, above)
  {
    CreateKeepsWellFormed(v, s, path, data, kind);
    SamePlaces(Create(v, s, path, data, kind), v, above);
  }

  /** Two trees that differ only at or below a place are equal once it is deleted. */
  lemma SamePlaces(v: View, w: View, path: string)
    requires WellFormed(v) && WellFormed(w) && |Paths.Split(path)| >= 2
    requires forall q :: !(Paths.Split(path) <= q) ==> (q in v <==> q in w) && (q in v ==> v[q] == w[q])
    ensures Delete(v, path) == Delete(w, path)
  {
    forall q
      ensures q in Delete(v, path) <==> q in Delete(w, path)
      ensures q in Delete(v, path) ==> Delete(v, path)[q] == Delete(w, path)[q]
    {
      DeleteExact(v, path, q);
      DeleteExact(w, path, q);
    }
  }
}
