/** Path strings of the registry: how "/a/b" is cut into components. */
module Paths {

  /** Length of the first run of characters without a slash: what one getline(…, '/') reads. */
  function LineLength(s: string): (k: nat)
    ensures k <= |s|
    ensures k < |s| ==> s[k] == '/'
    ensures '/' !in s[..k]
  {
    if s == "" || s[0] == '/' then 0
    else
      var k := 1 + LineLength(s[1..]);
      assert s[..k] == [s[0]] + s[1..][..k - 1];
      k
  }

  /** Every item the getline loop would read: a trailing slash yields no further item. */
  function Items(s: string): seq<string>
  {
    if s == "" then []
    else
      var k := LineLength(s);
      if k == |s| then [s] else [s[..k]] + Items(s[k + 1..])
  }

  /** Only the first component may be empty. */
  predicate Accepted(items: seq<string>)
  {
    forall i :: 0 < i < |items| ==> items[i] != ""
  }

  /** The components of a path; [] stands for "path error". */
  function Split(path: string): seq<string>
  {
    if Accepted(Items(path)) then Items(path) else []
  }

  function Join(cs: seq<string>): string
  {
    if cs == [] then ""
    else if |cs| == 1 then cs[0]
    else cs[0] + "/" + Join(cs[1..])
  }

  ghost predicate SlashFree(cs: seq<string>)
  {
    forall i :: 0 <= i < |cs| ==> '/' !in cs[i]
  }

  ghost predicate HasDoubleSlash(s: string)
  {
    exists i :: 0 <= i < |s| - 1 && s[i] == '/' && s[i + 1] == '/'
  }

  /** Reading on from position pos of a path: the item found there and where the next one starts. */
  lemma ItemsStep(path: string, pos: nat, k: nat)
    requires pos < |path| && k == LineLength(path[pos..])
    ensures pos + k == |path| ==> Items(path[pos..]) == [path[pos..pos + k]] + Items(path[|path|..])
    ensures pos + k < |path| ==> Items(path[pos..]) == [path[pos..pos + k]] + Items(path[pos + k + 1..])
  {
    var rest := path[pos..];
    assert rest[..k] == path[pos..pos + k];
    if pos + k < |path| {
      assert rest[k + 1..] == path[pos + k + 1..];
    } else {
      assert rest[..k] == rest;
    }
  }

  /** Having read pathes, and then item, of a path: an empty item after others spoils it. */
  lemma ReadOne(path: string, pathes: seq<string>, pos: nat, item: string, next: nat)
    requires pos <= |path| && next <= |path|
    requires pathes + Items(path[pos..]) == Items(path)
    requires Items(path[pos..]) == [item] + Items(path[next..])
    ensures (pathes + [item]) + Items(path[next..]) == Items(path)
    ensures item == "" && pathes != [] ==> Split(path) == []
  {
    assert Items(path)[|pathes|] == item;
  }

  /** The loop of Services::splitPath, reading one item after the other. */
  method SplitPath(path: string) returns (pathes: seq<string>)
    ensures pathes == Split(path)
  {
    pathes := [];
    var pos := 0;
    while pos < |path|
      invariant 0 <= pos <= |path|
      invariant pathes + Items(path[pos..]) == Items(path)
      invariant Accepted(pathes)
    {
      var k := LineLength(path[pos..]);
      var item := path[pos..pos + k];
      var next := if pos + k == |path| then |path| else pos + k + 1;
      ItemsStep(path, pos, k);
      ReadOne(path, pathes, pos, item, next);
      if item == "" && pathes != [] {
        return [];
      }
      pathes := pathes + [item];
      pos := next;
    }
    assert path[pos..] == "" && pathes + [] == pathes;
  }

  /** A slash-free component in front of a slash is the first item. */
  lemma ItemsCons(c: string, rest: string)
    requires '/' !in c
    ensures Items(c + "/" + rest) == [c] + Items(rest)
  {
    var s := c + "/" + rest;
    var k := LineLength(s);
    assert s[|c|] == '/';
    assert forall i :: 0 <= i < k ==> s[i] == s[..k][i];
    assert k == |c| && s[..k] == c && s[k + 1..] == rest;
  }

  lemma ItemsLast(c: string)
    requires '/' !in c && c != ""
    ensures Items(c) == [c]
  {
  }

  lemma JoinCons(cs: seq<string>)
    requires |cs| > 1
    ensures Join(cs) == cs[0] + "/" + Join(cs[1..])
    ensures Join(cs) + "/" == cs[0] + "/" + (Join(cs[1..]) + "/")
  {
  }

  lemma {:induction false} ItemsOfJoin(cs: seq<string>)
    requires cs != [] && SlashFree(cs)
    ensures Items(Join(cs) + "/") == cs
    ensures cs[|cs| - 1] != "" ==> Items(Join(cs)) == cs
  {
    var c := cs[0];
    if |cs| == 1 {
      assert c + "/" == c + "/" + "";
      ItemsCons(c, "");
      if c != "" {
        ItemsLast(c);
      }
    } else {
      var tail := cs[1..];
      assert tail[|tail| - 1] == cs[|cs| - 1];
      ItemsOfJoin(tail);
      JoinCons(cs);
      ItemsCons(c, Join(tail));
      ItemsCons(c, Join(tail) + "/");
      assert [c] + tail == cs;
    }
  }

  lemma {:induction false} JoinOfItems(s: string)
    requires s != ""
    ensures Items(s) != [] && SlashFree(Items(s))
    ensures var cs := Items(s); (s == Join(cs) && cs[|cs| - 1] != "") || s == Join(cs) + "/"
    decreases |s|
  {
    var k := LineLength(s);
    if k < |s| {
      var c, rest := s[..k], s[k + 1..];
      assert s == c + "/" + rest;
      if rest != "" {
        JoinOfItems(rest);
        JoinWithFirst(c, Items(rest));
      } else {
        assert Items(s) == [c];
      }
    } else {
      assert s[..k] == s;
    }
  }

  lemma JoinWithFirst(c: string, tail: seq<string>)
    requires tail != []
    ensures Join([c] + tail) == c + "/" + Join(tail)
    ensures Join([c] + tail) + "/" == c + "/" + (Join(tail) + "/")
  {
  }

  lemma {:induction false} JoinEmpty(cs: seq<string>)
    requires cs != [] && Accepted(cs)
    ensures Join(cs) == "" <==> cs[|cs| - 1] == ""
  {
  }

  /** Exact characterisation: a path splits into cs iff it prints cs, with or without one trailing slash. */
  lemma SplitCharacterised(path: string, cs: seq<string>)
    requires cs != []
    ensures Split(path) == cs
       <==> && SlashFree(cs) && Accepted(cs)
            && ((path == Join(cs) && path != "") || path == Join(cs) + "/")
  {
    if Split(path) == cs {
      JoinOfItems(path);
    }
    if SlashFree(cs) && Accepted(cs) {
      ItemsOfJoin(cs);
      JoinEmpty(cs);
    }
  }

  lemma DoubleSlashStep(c: string, rest: string)
    requires '/' !in c
    ensures HasDoubleSlash(c + "/" + rest) <==> (rest != "" && rest[0] == '/') || HasDoubleSlash(rest)
  {
    var s := c + "/" + rest;
    assert forall i :: 0 <= i < |c| ==> s[i] == c[i];
    assert s[|c|] == '/' && forall i :: 0 <= i < |rest| ==> s[|c| + 1 + i] == rest[i];
    if i :| 0 <= i < |rest| - 1 && rest[i] == '/' && rest[i + 1] == '/' {
      assert s[|c| + 1 + i] == '/' && s[|c| + 1 + i + 1] == '/';
    }
    if i :| 0 <= i < |s| - 1 && s[i] == '/' && s[i + 1] == '/' {
      assert i >= |c|;
      if i > |c| {
        assert rest[i - |c| - 1] == '/' && rest[i - |c| - 1 + 1] == '/';
      }
    }
  }

  lemma {:induction false} DoubleSlashInItems(s: string)
    ensures Accepted(Items(s)) <==> !HasDoubleSlash(s)
    ensures s != "" ==> Items(s) != [] && (Items(s)[0] == "" <==> s[0] == '/')
    decreases |s|
  {
    if s != "" {
      var k := LineLength(s);
      if k < |s| {
        var c, rest := s[..k], s[k + 1..];
        assert s == c + "/" + rest;
        DoubleSlashInItems(rest);
        DoubleSlashStep(c, rest);
        var items, tail := Items(s), Items(rest);
        assert items == [c] + tail;
        assert forall i :: 0 < i < |items| ==> items[i] == tail[i - 1];
        assert forall i :: 0 <= i < |tail| ==> tail[i] == items[i + 1];
      } else {
        assert s[..k] == s;
      }
    }
  }

  /** "path error" is reported exactly for the empty path and for paths with two slashes in a row. */
  lemma SplitFailsIff(path: string)
    ensures Split(path) == [] <==> path == "" || HasDoubleSlash(path)
  {
    DoubleSlashInItems(path);
    if path != "" {
      JoinOfItems(path);
    }
  }

  lemma JoinAbsolute(cs: seq<string>)
    requires cs != []
    ensures Join([""] + cs) == "/" + Join(cs)
  {
  }

  lemma AbsoluteAccepted(cs: seq<string>)
    requires SlashFree(cs) && forall i :: 0 <= i < |cs| ==> cs[i] != ""
    ensures SlashFree([""] + cs) && Accepted([""] + cs)
    ensures cs != [] ==> ([""] + cs)[|cs|] == cs[|cs| - 1] != ""
  {
    assert forall i :: 0 < i < |[""] + cs| ==> ([""] + cs)[i] == cs[i - 1];
  }

  /** The documented form: "/c1/…/ck", optionally with one trailing slash, gives "", c1, …, ck. */
  lemma AbsolutePathRoundTrip(cs: seq<string>)
    requires SlashFree(cs) && forall i :: 0 <= i < |cs| ==> cs[i] != ""
    ensures Split("/" + Join(cs)) == [""] + cs
    ensures cs != [] ==> Split("/" + Join(cs) + "/") == [""] + cs
  {
    AbsoluteAccepted(cs);
    ItemsOfJoin([""] + cs);
    if cs == [] {
      assert [""] + cs == [""] && "/" + Join(cs) == Join([""]) + "/";
    } else {
      JoinAbsolute(cs);
    }
  }
}
