/*
 * The workspace resource tree: three kinds of node (File, SymLink, Folder)
 * that share one contract -- a mutable name, a fixed url that is also the
 * node's identity, a back-link to the enclosing folder and path
 * resolution. A folder owns an ordered list of children.
 *
 * The list of children is heterogeneous, so a child is held as a
 * ResourceRef: a tagged reference to one of the three classes. Two
 * ResourceRefs are equal exactly when they wrap the same object, which is
 * the object-identity comparison the folder uses to remove a child.
 */
module WorkspaceResources {

  datatype Option<T> = None | Some(value: T)

  /** A filesystem location; the node's identity. */
  type Url = string

  /** A reference to a node of any of the three kinds. */
  datatype ResourceRef = FileRef(file: File) | SymLinkRef(link: SymLink) | FolderRef(folder: Folder)
  {
    /** The object behind the reference. */
    function Obj(): object
    {
      match this
      case FileRef(f) => f
      case SymLinkRef(l) => l
      case FolderRef(d) => d
    }

    /** The node's location; fixed at creation, so it reads no state. */
    function Url(): Url
    {
      match this
      case FileRef(f) => f.url
      case SymLinkRef(l) => l.url
      case FolderRef(d) => d.url
    }

    /** The identity of a node is its location, whatever happens to its name or parent. */
    function Id(): (id: Url)
      ensures id == Url()
    {
      Url()
    }

    function Name(): string
      reads Obj()
    {
      match this
      case FileRef(f) => f.name
      case SymLinkRef(l) => l.name
      case FolderRef(d) => d.name
    }

    function ParentFolder(): Folder?
      reads Obj()
    {
      match this
      case FileRef(f) => f.parentFolder
      case SymLinkRef(l) => l.parentFolder
      case FolderRef(d) => d.parentFolder
    }

    /** The children of a folder; absent for files and symbolic links. */
    function Children2(): (r: Option<seq<ResourceRef>>)
      reads Obj()
      ensures r.Some? <==> FolderRef?
      ensures FolderRef? ==> r.value == folder.children
    {
      match this
      case FolderRef(d) => Some(d.children)
      case _ => None
    }

    /**
     * Resolves a path given as components, relative to this node, by
     * dispatching to the node's own kind. Resolution never fails: it
     * ends on this node or on a node named by one of the components.
     */
    function ResolveItem(components: seq<string>): (r: ResourceRef)
      reads *
      ensures components == [] ==> r == this
      ensures r == this || r.Name() in components
      decreases |components|, 1
    {
      match this
      case FileRef(f) => f.ResolveItem(components)
      case SymLinkRef(l) => l.ResolveItem(components)
      case FolderRef(d) => d.ResolveItem(components)
    }
  }

  /**
   * The position of the first node in `nodes` whose name is `name`, or
   * |nodes| when there is none (a search in list order, as by first(where:)).
   */
  function FirstIndexNamed(nodes: seq<ResourceRef>, name: string): (i: nat)
    reads set r | r in nodes :: r.Obj()
    ensures i <= |nodes|
    ensures i < |nodes| ==> nodes[i].Name() == name
    ensures forall j :: 0 <= j < i ==> nodes[j].Name() != name
  {
    if nodes == [] then 0
    else if nodes[0].Name() == name then 0
    else 1 + FirstIndexNamed(nodes[1..], name)
  }

  /** `nodes` with every entry that is the object `x` taken out. */
  function Without(nodes: seq<ResourceRef>, x: ResourceRef): (r: seq<ResourceRef>)
    ensures multiset(r) == multiset(nodes)[x := 0]
  {
    if nodes == [] then []
    else
      assert nodes == [nodes[0]] + nodes[1..];
      (if nodes[0] == x then [] else [nodes[0]]) + Without(nodes[1..], x)
  }

  /** An entry stays exactly when it is not `x`. */
  lemma WithoutMember(nodes: seq<ResourceRef>, x: ResourceRef, y: ResourceRef)
    ensures y in Without(nodes, x) <==> y in nodes && y != x
  {
    assert y in Without(nodes, x) <==> multiset(Without(nodes, x))[y] > 0;
    assert y in nodes <==> multiset(nodes)[y] > 0;
  }

  class File {
    const url: Url
    var name: string
    var parentFolder: Folder?

    constructor (url: Url, name: string)
      ensures this.url == url && this.name == name && parentFolder == null
    {
      this.url := url;
      this.name := name;
      parentFolder := null;
    }

    /** A file is a leaf: whatever components are left, it resolves to itself. */
    function ResolveItem(components: seq<string>): (r: ResourceRef)
      reads this
      ensures r.FileRef? && r.file == this
    {
      FileRef(this)
    }
  }

  class SymLink {
    const url: Url
    var name: string
    var parentFolder: Folder?

    constructor (url: Url, name: string)
      ensures this.url == url && this.name == name && parentFolder == null
    {
      this.url := url;
      this.name := name;
      parentFolder := null;
    }

    /** A symbolic link is not followed: whatever components are left, it resolves to itself. */
    function ResolveItem(components: seq<string>): (r: ResourceRef)
      reads this
      ensures r.SymLinkRef? && r.link == this
    {
      SymLinkRef(this)
    }
  }

  class Folder {
    var children: seq<ResourceRef>
    const url: Url
    var name: string
    var parentFolder: Folder?

    constructor (url: Url, name: string)
      ensures this.url == url && this.name == name && parentFolder == null && children == []
    {
      children := [];
      this.url := url;
      this.name := name;
      parentFolder := null;
    }

    /**
     * Descends into the first child named by the first component, with
     * the remaining components; stays on this folder when the components
     * are used up or no child has that name.
     */
    function ResolveItem(components: seq<string>): (r: ResourceRef)
      reads *
      ensures components == [] ==> r == FolderRef(this)
      ensures r == FolderRef(this) || r.Name() in components
      decreases |components|, 0
    {
      if components == [] then FolderRef(this)
      else
        var i := FirstIndexNamed(children, components[0]);
        if i == |children| then FolderRef(this)
        else children[i].ResolveItem(components[1..])
    }

    /** Every child links back to this folder. */
    predicate ParentLinked()
      reads this, set r | r in children :: r.Obj()
    {
      forall r :: r in children ==> r.ParentFolder() == this
    }

    /** Takes out of the children every entry that is the object `child`. */
    method RemoveChild(child: ResourceRef)
      modifies this`children
      ensures children == Without(old(children), child)
      ensures child !in children
      ensures forall r :: r in old(children) && r != child ==> r in children
      ensures old(ParentLinked()) ==> ParentLinked()
    {
      ghost var before := children;
      children := Without(children, child);
      WithoutMember(before, child, child);
      forall r | r in before && r != child ensures r in children {
        WithoutMember(before, child, r);
      }
      forall r | r in children ensures r in before && r.ParentFolder() == old(r.ParentFolder()) {
        WithoutMember(before, child, r);
      }
    }

    /** Appends `child` to the children; its parent link is left as it was. */
    method AddChild(child: ResourceRef)
      modifies this`children
      ensures children == old(children) + [child]
      ensures old(ParentLinked()) && child.ParentFolder() == this ==> ParentLinked()
    {
      children := children + [child];
    }
  }
}
