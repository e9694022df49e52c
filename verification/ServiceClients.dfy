/** What clients of the namespace service can rely on from one request to the next. */
module ServiceClients {
  import opened Options
  import opened Arenas
  import opened NamespaceSpec
  import opened ServiceTree
  import Paths

  /** An accepted set is read back; it is accepted iff the node can be read. */
  method SetThenGet(services: Services, path: string, data: string) returns (ok: bool, got: Option<string>)
    requires services.Valid()
    modifies services
    ensures services.Valid()
    ensures ok <==> Paths.Split(path) != [] && Paths.Split(path) in old(services.Tree())
    ensures got == if ok then Some(data) else None
  {
    SetExact(services.Tree(), path, data, Paths.Split(path));
    ok := services.SetNode(path, data);
    got := services.GetNode(path);
  }

  /** A set is seen at its own place only. */
  method SetThenGetOther(services: Services, path: string, other: string, data: string)
    returns (before: Option<string>, after: Option<string>)
    requires services.Valid() && Paths.Split(path) != Paths.Split(other)
    modifies services
    ensures services.Valid() && after == before
  {
    before := services.GetNode(other);
    SetExact(services.Tree(), path, data, Paths.Split(other));
    var ok := services.SetNode(path, data);
    after := services.GetNode(other);
  }

  /** An accepted create is read back and listed; it is accepted iff the parent is there and the node is not. */
  method CreateThenGet(services: Services, s: SessionId, path: string, parent: string, data: string, kind: int)
    returns (ok: bool, got: Option<string>, names: Option<set<string>>)
    requires services.Valid()
    requires Paths.Split(path) != [] && Paths.Split(parent) != [] && Paths.Split(parent) == Parent(Paths.Split(path))
    modifies services
    ensures services.Valid()
    ensures ok <==> Paths.Split(parent) in old(services.Tree()) && Paths.Split(path) !in old(services.Tree())
    ensures ok ==> got == Some(data) && names.Some? && Paths.Split(path)[|Paths.Split(path)| - 1] in names.value
  {
    var cs := Paths.Split(path);
    CreateExact(services.Tree(), s, path, data, kind, cs);
    CreateExact(services.Tree(), s, path, data, kind, Parent(cs));
    ok := services.CreateNode(s, path, data, kind);
    got := services.GetNode(path);
    names := services.LsNode(parent);
    ChildNamesExact(services.Tree(), Parent(cs), cs[|cs| - 1]);
    assert Parent(cs) + [cs[|cs| - 1]] == cs;
  }

  /** After an accepted delete neither the node nor anything below it exists; children do not prevent it. */
  method DeleteThenExists(services: Services, path: string, below: string) returns (ok: bool, found: Option<bool>)
    requires services.Valid()
    requires |Paths.Split(path)| >= 2 && Paths.Split(path) <= Paths.Split(below)
    modifies services
    ensures services.Valid()
    ensures ok <==> Paths.Split(path) in old(services.Tree())
    ensures found == Some(false)
  {
    WellFormedTree(services);
    DeleteExact(services.Tree(), path, Paths.Split(below));
    ok := services.DeleteNode(path);
    found := services.ExistsNode(below);
  }

  /** A node whose place is not below the deleted one keeps its data. */
  method DeleteThenGet(services: Services, path: string, other: string) returns (before: Option<string>, after: Option<string>)
    requires services.Valid()
    requires !(Paths.Split(path) <= Paths.Split(other))
    modifies services
    ensures services.Valid() && after == before
  {
    before := services.GetNode(other);
    WellFormedTree(services);
    DeleteExact(services.Tree(), path, Paths.Split(other));
    var ok := services.DeleteNode(path);
    after := services.GetNode(other);
  }

  /** The end of a session is seen exactly at and below its own nodes. */
  method EndThenExists(services: Services, s: SessionId, path: string) returns (before: Option<bool>, after: Option<bool>)
    requires services.Valid()
    modifies services
    ensures services.Valid()
    ensures before.Some? <==> Paths.Split(path) != []
    ensures before == None ==> after == None
    ensures before == Some(false) ==> after == Some(false)
    ensures before == Some(true) ==>
              after == Some(forall a :: OwnedAt(old(services.Tree()), a, {s}) ==> !(a <= Paths.Split(path)))
  {
    before := services.ExistsNode(path);
    RemoveOwnedExact(services.Tree(), {s}, Paths.Split(path));
    services.RemoveEphemeral(s);
    after := services.ExistsNode(path);
  }

  lemma WellFormedTree(services: Services)
    requires services.Valid()
    ensures WellFormed(services.Tree())
  {
    TreeWellFormed(services.arena, services.at);
  }
}
