/*
 * Path resolution over the resource tree. ResolveItem (on the nodes
 * themselves) never fails: a component that names no child ends the walk
 * on the node reached so far, after a logged warning. This module gives a
 * strict reference walk that reports the miss instead, and relates the
 * two: resolution yields the node of the longest matched prefix, warns
 * exactly when the strict walk misses, and inverts the names along any
 * path through the tree.
 */
module Resolution {
  import opened WorkspaceResources
  import ChildList

  /** The first child of `n` named `name`; none for a file, a symbolic link or an unmatched name. */
  function Child(n: ResourceRef, name: string): (r: Option<ResourceRef>)
    reads *
    ensures r.Some? ==> r.value.Name() == name && n.FolderRef? && r.value in n.folder.children
    ensures r.None? && n.FolderRef? ==> forall c :: c in n.folder.children ==> c.Name() != name
    ensures r.Some? ==> r.value == n.folder.children[FirstIndexNamed(n.folder.children, name)]
  {
    match n
    case FolderRef(d) =>
      var i := FirstIndexNamed(d.children, name);
      if i < |d.children| then Some(d.children[i]) else None
    case _ => None
  }

  /** Strict resolution: follows every component, or reports that one of them matched nothing. */
  function StrictResolve(n: ResourceRef, components: seq<string>): (r: Option<ResourceRef>)
    reads *
    ensures components == [] ==> r == Some(n)
    ensures r.Some? && components != [] ==> r.value.Name() == components[|components| - 1]
    decreases |components|
  {
    if components == [] then Some(n)
    else
      match Child(n, components[0])
      case None => None
      case Some(c) => StrictResolve(c, components[1..])
  }

  /**
   * Whether resolving `components` from `n` reaches one of the warning log
   * calls: components remain at a file or a symbolic link, or a folder has
   * no child named by the next component.
   */
  function ResolveWarns(n: ResourceRef, components: seq<string>): (warns: bool)
    reads *
    ensures warns ==> components != []
    ensures !n.FolderRef? ==> (warns <==> components != [])
    ensures components != [] && Child(n, components[0]).None? ==> warns
    ensures components != [] && Child(n, components[0]).Some? ==>
      (warns <==> ResolveWarns(Child(n, components[0]).value, components[1..]))
    decreases |components|
  {
    match n
    case FileRef(_) => components != []
    case SymLinkRef(_) => components != []
    case FolderRef(d) =>
      components != [] &&
      var i := FirstIndexNamed(d.children, components[0]);
      i == |d.children| || ResolveWarns(d.children[i], components[1..])
  }

  /** A warning is logged exactly when some component fails to match. */
  lemma {:induction false} WarnsIffStrictMiss(n: ResourceRef, components: seq<string>)
    ensures ResolveWarns(n, components) <==> StrictResolve(n, components).None?
    decreases |components|
  {
    if components != [] {
      match Child(n, components[0])
      case None =>
      case Some(c) => WarnsIffStrictMiss(c, components[1..]);
    }
  }

  /**
   * One step of resolution: with components left, a node descends into
   * the first child named by the first component, passing on the rest;
   * a node with no such child (a file, a symbolic link, or a folder
   * without a match) stays where it is.
   */
  lemma ResolveStep(n: ResourceRef, components: seq<string>)
    requires components != []
    ensures Child(n, components[0]).None? ==> n.ResolveItem(components) == n
    ensures Child(n, components[0]).Some? ==>
      n.ResolveItem(components) == Child(n, components[0]).value.ResolveItem(components[1..])
  {
    if n.FolderRef? {
      assert n.ResolveItem(components) == n.folder.ResolveItem(components);
    }
  }

  /** Where the strict walk succeeds, resolution returns the same node. */
  lemma {:induction false} ResolveAgreesWithStrict(n: ResourceRef, components: seq<string>)
    requires StrictResolve(n, components).Some?
    ensures n.ResolveItem(components) == StrictResolve(n, components).value
    decreases |components|
  {
    if components != [] {
      ResolveStep(n, components);
      ResolveAgreesWithStrict(Child(n, components[0]).value, components[1..]);
    }
  }

  /**
   * The length of the prefix of the components that resolution matches:
   * the strict walk of that prefix ends on the result, and the next
   * component, if any, names no child of it.
   */
  lemma {:induction false} MatchedLength(n: ResourceRef, components: seq<string>) returns (k: nat)
    ensures k <= |components|
    ensures StrictResolve(n, components[..k]) == Some(n.ResolveItem(components))
    ensures k < |components| ==> Child(n.ResolveItem(components), components[k]).None?
    decreases |components|
  {
    if components == [] {
      k := 0;
      assert components[..0] == [];
    } else {
      ResolveStep(n, components);
      match Child(n, components[0])
      case None =>
        k := 0;
        assert components[..0] == [];
      case Some(c) =>
        var rest := components[1..];
        var k' := MatchedLength(c, rest);
        k := k' + 1;
        assert components[..k][0] == components[0];
        assert components[..k][1..] == rest[..k'];
        assert k < |components| ==> components[k] == rest[k'];
    }
  }

  /**
   * Resolution yields the node reached by the longest prefix of the
   * components that matches child by child: the strict walk of that
   * prefix ends on the result, and the next component, if any, names no
   * child of it.
   */
  lemma ResolveIsLongestMatch(n: ResourceRef, components: seq<string>)
    ensures exists k :: (0 <= k <= |components| &&
      StrictResolve(n, components[..k]) == Some(n.ResolveItem(components)) &&
      (k < |components| ==> Child(n.ResolveItem(components), components[k]).None?))
  {
    var k := MatchedLength(n, components);
  }

  /** The node at the end of a path of child positions, if every position exists. */
  function NodeAt(n: ResourceRef, path: seq<nat>): (r: Option<ResourceRef>)
    reads *
    ensures path == [] ==> r == Some(n)
    ensures r.Some? ==> |NamesAlong(n, path)| == |path|
    ensures r.Some? && path != [] ==> r.value.Name() == NamesAlong(n, path)[|path| - 1]
    decreases |path|
  {
    if path == [] then Some(n)
    else match n.Children2()
      case None => None
      case Some(cs) => if path[0] < |cs| then NodeAt(cs[path[0]], path[1..]) else None
  }

  /** The names of the nodes along a path of child positions, as far as the positions exist. */
  function NamesAlong(n: ResourceRef, path: seq<nat>): (names: seq<string>)
    reads *
    ensures |names| <= |path|
    decreases |path|
  {
    if path == [] then []
    else match n.Children2()
      case None => []
      case Some(cs) =>
        if path[0] < |cs| then [cs[path[0]].Name()] + NamesAlong(cs[path[0]], path[1..]) else []
  }

  /** Every step of the path exists and takes the first sibling carrying that child's name. */
  predicate FirstNamedPath(n: ResourceRef, path: seq<nat>)
    reads *
    decreases |path|
  {
    path == [] ||
    (n.FolderRef? && path[0] < |n.folder.children| &&
     FirstIndexNamed(n.folder.children, n.folder.children[path[0]].Name()) == path[0] &&
     FirstNamedPath(n.folder.children[path[0]], path[1..]))
  }

  /**
   * Round trip: resolving the names along a path through the tree returns
   * the node at the end of the path, provided each step takes the first
   * sibling with its name.
   */
  lemma {:induction false} ResolveNamesAlong(n: ResourceRef, path: seq<nat>)
    requires FirstNamedPath(n, path)
    ensures NodeAt(n, path).Some?
    ensures StrictResolve(n, NamesAlong(n, path)) == NodeAt(n, path)
    ensures n.ResolveItem(NamesAlong(n, path)) == NodeAt(n, path).value
    decreases |path|
  {
    if path != [] {
      var cs := n.folder.children;
      var c := cs[path[0]];
      ResolveNamesAlong(c, path[1..]);
      var names := NamesAlong(n, path);
      assert names == [c.Name()] + NamesAlong(c, path[1..]);
      assert names[1..] == NamesAlong(c, path[1..]);
      assert Child(n, names[0]) == Some(c);
    }
    ResolveAgreesWithStrict(n, NamesAlong(n, path));
  }

  /** A strict walk that succeeds on a non-empty path goes through the first child named by its first component. */
  lemma StrictStep(n: ResourceRef, components: seq<string>)
    requires components != [] && StrictResolve(n, components).Some?
    ensures n.FolderRef?
    ensures FirstIndexNamed(n.folder.children, components[0]) < |n.folder.children|
    ensures StrictResolve(n, components) ==
      StrictResolve(n.folder.children[FirstIndexNamed(n.folder.children, components[0])], components[1..])
  {
  }

  /** One step down a path: through the child at position `i`, which is the first carrying its name. */
  lemma FirstNamedStep(n: ResourceRef, i: nat, p: seq<nat>)
    requires n.FolderRef? && i < |n.folder.children|
    requires FirstIndexNamed(n.folder.children, n.folder.children[i].Name()) == i
    ensures FirstNamedPath(n, [i] + p) == FirstNamedPath(n.folder.children[i], p)
    ensures NamesAlong(n, [i] + p) == [n.folder.children[i].Name()] + NamesAlong(n.folder.children[i], p)
    ensures NodeAt(n, [i] + p) == NodeAt(n.folder.children[i], p)
  {
    assert ([i] + p)[0] == i && ([i] + p)[1..] == p;
  }

  /** The path of child positions a successful strict walk takes. */
  lemma {:induction false} StrictPath(n: ResourceRef, components: seq<string>) returns (path: seq<nat>)
    requires StrictResolve(n, components).Some?
    ensures FirstNamedPath(n, path) && NamesAlong(n, path) == components
    ensures NodeAt(n, path) == StrictResolve(n, components)
    decreases |components|
  {
    if components == [] {
      path := [];
    } else {
      StrictStep(n, components);
      var cs := n.folder.children;
      var i := FirstIndexNamed(cs, components[0]);
      var p := StrictPath(cs[i], components[1..]);
      FirstNamedStep(n, i, p);
      assert [components[0]] + components[1..] == components;
      path := [i] + p;
    }
  }

  /**
   * Conversely, every node the strict walk reaches lies at the end of a
   * path of first-named children whose names are exactly the components.
   */
  lemma StrictResolveFollowsPath(n: ResourceRef, components: seq<string>)
    requires StrictResolve(n, components).Some?
    ensures exists path :: (FirstNamedPath(n, path) && NamesAlong(n, path) == components &&
      NodeAt(n, path) == StrictResolve(n, components))
  {
    var path := StrictPath(n, components);
  }

  /** Every folder the path passes through has distinct child names. */
  ghost predicate DistinctAlong(n: ResourceRef, path: seq<nat>)
    reads *
    decreases |path|
  {
    path == [] ||
    (n.FolderRef? && ChildList.DistinctNames(n.folder.children) &&
     (path[0] < |n.folder.children| ==> DistinctAlong(n.folder.children[path[0]], path[1..])))
  }

  /**
   * When the folders a path passes through have distinct child names, as
   * in a directory listing, the path is a first-named path, so the round
   * trip holds for the node at its end.
   */
  lemma {:induction false} DistinctNamesGiveFirstNamedPaths(n: ResourceRef, path: seq<nat>)
    requires NodeAt(n, path).Some?
    requires DistinctAlong(n, path)
    ensures FirstNamedPath(n, path)
    decreases |path|
  {
    if path != [] {
      var cs := n.folder.children;
      ChildList.DistinctNamesFindThemselves(cs, path[0]);
      DistinctNamesGiveFirstNamedPaths(cs[path[0]], path[1..]);
    }
  }
}
