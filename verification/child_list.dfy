/*
 * Properties of a folder's ordered list of children under the two edits a
 * folder offers -- appending a child and removing a child by identity --
 * and of the in-order search for a child by name.
 */
module ChildList {
  import opened WorkspaceResources

  /** Removal distributes over concatenation, so the entries that stay keep their relative order. */
  lemma {:induction false} WithoutConcat(s: seq<ResourceRef>, t: seq<ResourceRef>, x: ResourceRef)
    ensures Without(s + t, x) == Without(s, x) + Without(t, x)
  {
    if s == [] {
      assert s + t == t;
    } else {
      assert (s + t)[1..] == s[1..] + t;
      WithoutConcat(s[1..], t, x);
    }
  }

  /** Removing a node that is not in the list leaves the list as it was. */
  lemma {:induction false} WithoutAbsent(s: seq<ResourceRef>, x: ResourceRef)
    requires x !in s
    ensures Without(s, x) == s
  {
    if s != [] {
      WithoutAbsent(s[1..], x);
      assert Without(s, x) == [s[0]] + Without(s[1..], x);
      assert s == [s[0]] + s[1..];
    }
  }

  /** Removing the same node a second time changes nothing. */
  lemma WithoutIdempotent(s: seq<ResourceRef>, x: ResourceRef)
    ensures Without(Without(s, x), x) == Without(s, x)
  {
    assert multiset(Without(s, x))[x] == 0;
    WithoutAbsent(Without(s, x), x);
  }

  /**
   * Removal is by identity, not by name: a different node that happens to
   * carry the same name as the removed one keeps every one of its entries.
   */
  lemma NamesakeSurvivesRemoval(s: seq<ResourceRef>, x: ResourceRef, y: ResourceRef)
    requires y != x && y in s
    ensures y in Without(s, x)
    ensures multiset(Without(s, x))[y] == multiset(s)[y]
  {
    assert multiset(s)[y] > 0;
  }

  /**
   * Appending a child never changes which child a name finds when an
   * earlier child already has that name; otherwise the name finds the new
   * child exactly when the new child carries it.
   */
  lemma {:induction false} FirstIndexAfterAppend(nodes: seq<ResourceRef>, c: ResourceRef, name: string)
    ensures FirstIndexNamed(nodes + [c], name) ==
      if FirstIndexNamed(nodes, name) < |nodes| then FirstIndexNamed(nodes, name)
      else if c.Name() == name then |nodes|
      else |nodes| + 1
  {
    if nodes != [] {
      assert (nodes + [c])[1..] == nodes[1..] + [c];
      FirstIndexAfterAppend(nodes[1..], c, name);
    }
  }

  /** Sibling names are pairwise different. */
  ghost predicate DistinctNames(nodes: seq<ResourceRef>)
    reads set r | r in nodes :: r.Obj()
  {
    forall i, j :: 0 <= i < j < |nodes| ==> nodes[i].Name() != nodes[j].Name()
  }

  /** When sibling names are distinct, every child is the first one carrying its name. */
  lemma DistinctNamesFindThemselves(nodes: seq<ResourceRef>, i: nat)
    requires DistinctNames(nodes) && i < |nodes|
    ensures FirstIndexNamed(nodes, nodes[i].Name()) == i
  {
  }
}
