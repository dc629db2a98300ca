/*
 * Resolution on a small concrete tree, root/a/b/c.txt: a full match, a
 * partial match that falls back to the deepest folder reached, and a path
 * that runs past a file.
 */
module Scenarios {
  import opened WorkspaceResources
  import Resolution

  /** The tree root/a/b/c.txt as the folders' child lists and the nodes' names describe it. */
  lemma ResolveInNestedFolders(root: Folder, a: Folder, b: Folder, c: File)
    requires root.children == [FolderRef(a)] && a.children == [FolderRef(b)] && b.children == [FileRef(c)]
    requires a.name == "a" && b.name == "b" && c.name == "c.txt"
    ensures root.ResolveItem(["a", "b", "c.txt"]) == FileRef(c)
    ensures root.ResolveItem(["a", "x"]) == FolderRef(a)
    ensures root.ResolveItem(["a", "b", "c.txt", "d"]) == FileRef(c)
    ensures Resolution.ResolveWarns(FolderRef(root), ["a", "x"])
    ensures !Resolution.ResolveWarns(FolderRef(root), ["a", "b", "c.txt"])
  {
    var full: seq<string> := ["a", "b", "c.txt"];
    var past: seq<string> := ["a", "b", "c.txt", "d"];
    var miss: seq<string> := ["a", "x"];
    assert full[1..] == ["b", "c.txt"] && full[1..][1..] == ["c.txt"] && full[1..][1..][1..] == [];
    assert past[1..] == ["b", "c.txt", "d"] && past[1..][1..] == ["c.txt", "d"] && past[1..][1..][1..] == ["d"];
    assert miss[1..] == ["x"];

    // c.txt is the only child of b, and past it resolution stays on the file
    assert FirstIndexNamed(b.children, "c.txt") == 0;
    assert b.ResolveItem(full[1..][1..]) == FileRef(c);
    assert b.ResolveItem(past[1..][1..]) == FileRef(c);
    // b is the only child of a; no child of a is named x
    assert FirstIndexNamed(a.children, "b") == 0;
    assert FirstIndexNamed(a.children, "x") == 1;
    assert a.ResolveItem(full[1..]) == FileRef(c);
    assert a.ResolveItem(past[1..]) == FileRef(c);
    assert a.ResolveItem(miss[1..]) == FolderRef(a);
    // a is the only child of root
    assert FirstIndexNamed(root.children, "a") == 0;
    // a warning is logged for a/x, at folder a, and none for the full match
    assert Resolution.ResolveWarns(FolderRef(a), miss[1..]);
    assert !Resolution.ResolveWarns(FolderRef(b), full[1..][1..]);
    assert !Resolution.ResolveWarns(FolderRef(a), full[1..]);
  }
}
