# CodeEdit workspace resource tree, in Dafny

This project models the in-memory resource tree behind CodeEdit's workspace
file explorer (`CEWorkspaceActor.swift`). The tree has three kinds of node:
`File`, `SymLink` and `Folder`. All three share the `ResourceData` contract:

- a mutable `name`;
- a fixed `url` that is also the node's `id`;
- a settable back-link `parentFolder` to the enclosing folder;
- path resolution, `resolveItem(components:)`.

A `Folder` also owns an ordered `children` list. Its `addChild` appends to
that list and its `removeChild` removes entries by object identity.

Layout:

- `workspace_resources.dfy` (module `WorkspaceResources`) holds the three
  classes with their fields, constructors and `ResolveItem` functions, and
  the folder's `AddChild` and `RemoveChild` methods.
  - Swift's heterogeneous `[any ResourceData]` becomes `seq<ResourceRef>`.
    `ResourceRef` is a tagged reference to a `File`, a `SymLink` or a `Folder`.
    Two `ResourceRef`s are equal exactly when they wrap the same object, which
    is Swift's `===`.
  - `ResourceRef` carries the protocol extension: `Id`, `Children2`, and the
    dispatch of `ResolveItem` to the node's own class.
  - `FirstIndexNamed` is the in-order search done by `first(where:)`.
  - `Without` is the list that `removeAll { $0 === child }` leaves.
- `child_list.dfy` (module `ChildList`) proves lemmas about the two
  child-list edits and the search by name.
- `resolution.dfy` (module `Resolution`) relates `ResolveItem` to a strict
  reference walk, `StrictResolve`, and to paths of child positions.
  - Resolution yields the node of the longest matched prefix.
  - It logs a warning exactly when the strict walk misses.
  - It inverts the names along any first-named path through the tree.
- `scenarios.dfy` (module `Scenarios`) resolves paths in a concrete tree,
  `root/a/b/c.txt`.
- `ignored.dfy` (module `Resource`) holds the three-case `Ignored` enum
  (`file(name:)`, `folder(name:)`, `url(_:)`). The live code never matches on
  it, so it has no operations.

The graph of nodes lives on the heap and could in principle contain a cycle.
Resolution functions therefore read the whole heap (`reads *`). They
terminate because each step uses up one component, as in the Swift code.
Taking one step per component, resolution ends after at most
`|components|` steps.

## Model

| member | source | states |
|---|---|---|
| `WorkspaceResources.ResourceRef.Id` | CodeEdit/Features/CEWorkspace/Models/CEWorkspaceActor.swift:21 | a node's id is its url; the url is a constant, so renaming or re-parenting never changes the id |
| `WorkspaceResources.ResourceRef.Children2` | CodeEdit/Features/CEWorkspace/Models/CEWorkspaceActor.swift:23-26 | present exactly for a folder, and then equal to its current children; absent for files and symbolic links |
| `WorkspaceResources.ResourceRef.ResolveItem` | CodeEdit/Features/CEWorkspace/Models/CEWorkspaceActor.swift:17 | resolution never fails: the empty component list gives the node itself, for every kind; any other result is a node whose name is one of the components |
| `WorkspaceResources.File.ResolveItem` | CodeEdit/Features/CEWorkspace/Models/CEWorkspaceActor.swift:42-47 | a file resolves to itself whatever components are passed |
| `WorkspaceResources.SymLink.ResolveItem` | CodeEdit/Features/CEWorkspace/Models/CEWorkspaceActor.swift:61-66 | a symbolic link resolves to itself whatever components are passed; the link is not followed |
| `WorkspaceResources.Folder.ResolveItem` | CodeEdit/Features/CEWorkspace/Models/CEWorkspaceActor.swift:81-95 | the empty list gives the folder itself; otherwise the result is the folder or a node named by one of the components |
| `WorkspaceResources.FirstIndexNamed` | CodeEdit/Features/CEWorkspace/Models/CEWorkspaceActor.swift:86-87 | the position of the first child in list order carrying the name, or the list's length when none does; no earlier child carries it |
| `WorkspaceResources.Without` | CodeEdit/Features/CEWorkspace/Models/CEWorkspaceActor.swift:98 | every entry that is the removed object is gone, and every other entry keeps its multiplicity |
| `WorkspaceResources.WithoutMember` | CodeEdit/Features/CEWorkspace/Models/CEWorkspaceActor.swift:98 | an entry survives removal exactly when it is a different object from the removed one |
| `WorkspaceResources.File.constructor` | CodeEdit/Features/CEWorkspace/Models/CEWorkspaceActor.swift:37-40 | a new file has the given url and name and no parent folder |
| `WorkspaceResources.SymLink.constructor` | CodeEdit/Features/CEWorkspace/Models/CEWorkspaceActor.swift:56-59 | a new symbolic link has the given url and name and no parent folder |
| `WorkspaceResources.Folder.constructor` | CodeEdit/Features/CEWorkspace/Models/CEWorkspaceActor.swift:70-79 | a new folder has the given url and name, no parent folder and no children |
| `WorkspaceResources.Folder.RemoveChild` | CodeEdit/Features/CEWorkspace/Models/CEWorkspaceActor.swift:97-99 | only `children` changes, to the old list without the removed object; every other entry stays, including one with the same name; if every child linked back to the folder, they still do |
| `WorkspaceResources.Folder.AddChild` | CodeEdit/Features/CEWorkspace/Models/CEWorkspaceActor.swift:101-103 | only `children` changes, to the old list followed by the new child; the child's parent link is not set; if it already pointed here, every child still links back |
| `ChildList.WithoutConcat` | CodeEdit/Features/CEWorkspace/Models/CEWorkspaceActor.swift:98 | removal distributes over concatenation, so the remaining entries keep their relative order |
| `ChildList.WithoutAbsent` | CodeEdit/Features/CEWorkspace/Models/CEWorkspaceActor.swift:98 | removing an object that is not a child leaves the list unchanged |
| `ChildList.WithoutIdempotent` | CodeEdit/Features/CEWorkspace/Models/CEWorkspaceActor.swift:97-99 | removing the same child twice has the same effect as removing it once |
| `ChildList.NamesakeSurvivesRemoval` | CodeEdit/Features/CEWorkspace/Models/CEWorkspaceActor.swift:98 | removal is by identity: a different node with the same name keeps all its entries |
| `ChildList.FirstIndexAfterAppend` | CodeEdit/Features/CEWorkspace/Models/CEWorkspaceActor.swift:86-102 | after an append, a name already carried by an earlier child still finds that child; otherwise it finds the new child exactly when the new child carries it |
| `ChildList.DistinctNamesFindThemselves` | CodeEdit/Features/CEWorkspace/Models/CEWorkspaceActor.swift:86-87 | when sibling names are distinct, searching for a child's name finds that very child |
| `Resolution.Child` | CodeEdit/Features/CEWorkspace/Models/CEWorkspaceActor.swift:86-92 | the child found for a name is the first child in `children` order carrying that name; no child is found only if no child carries the name, and never for a file or symbolic link |
| `Resolution.StrictResolve` | CodeEdit/Features/CEWorkspace/Models/CEWorkspaceActor.swift:81-95 | strict reference walk: the empty list gives the node itself; a successful walk ends on a node named by the last component |
| `Resolution.ResolveStep` | CodeEdit/Features/CEWorkspace/Models/CEWorkspaceActor.swift:86-94 | with components left, resolution descends into the first child named by the first component with the remaining components, and stays on the node when there is no such child |
| `Resolution.ResolveWarns` | CodeEdit/Features/CEWorkspace/Models/CEWorkspaceActor.swift:81-95 | a warning is reached exactly when components remain at a file or symbolic link, or a folder has no child named by the next component; otherwise the question passes to that child with the remaining components |
| `Resolution.WarnsIffStrictMiss` | CodeEdit/Features/CEWorkspace/Models/CEWorkspaceActor.swift:89-92 | resolution reaches one of the warning log calls exactly when some component fails to match |
| `Resolution.ResolveAgreesWithStrict` | CodeEdit/Features/CEWorkspace/Models/CEWorkspaceActor.swift:81-95 | when every component matches, resolution returns the node the strict walk reaches |
| `Resolution.MatchedLength` | CodeEdit/Features/CEWorkspace/Models/CEWorkspaceActor.swift:81-95 | gives a prefix length of at most the number of components whose strict walk ends on the result, and the next component names no child of the result |
| `Resolution.ResolveIsLongestMatch` | CodeEdit/Features/CEWorkspace/Models/CEWorkspaceActor.swift:89-92 | resolution yields the node reached by the longest prefix that matches child by child |
| `Resolution.NodeAt` | CodeEdit/Features/CEWorkspace/Models/CEWorkspaceActor.swift:70 | the node at the end of a path of child positions; when it exists, the path's names cover every step and the last one is the node's name |
| `Resolution.NamesAlong` | CodeEdit/Features/CEWorkspace/Models/CEWorkspaceActor.swift:70 | the names along a path of child positions, never more than the path's steps |
| `Resolution.StrictStep` | CodeEdit/Features/CEWorkspace/Models/CEWorkspaceActor.swift:86-94 | a successful strict walk over a non-empty list starts at a folder and goes through the first child named by the first component |
| `Resolution.FirstNamedStep` | CodeEdit/Features/CEWorkspace/Models/CEWorkspaceActor.swift:86-94 | one step down a path through a first-named child adds that child's name and keeps the node at the end |
| `Resolution.ResolveNamesAlong` | CodeEdit/Features/CEWorkspace/Models/CEWorkspaceActor.swift:81-95 | round trip: resolving the names along a path returns the node at its end, provided each step takes the first sibling with that name |
| `Resolution.StrictPath` | CodeEdit/Features/CEWorkspace/Models/CEWorkspaceActor.swift:81-95 | gives the first-named path of child positions that a successful strict walk takes, with the components as its names |
| `Resolution.StrictResolveFollowsPath` | CodeEdit/Features/CEWorkspace/Models/CEWorkspaceActor.swift:81-95 | converse of the round trip: every node the strict walk reaches lies at the end of a first-named path named by the components |
| `Resolution.DistinctNamesGiveFirstNamedPaths` | CodeEdit/Features/CEWorkspace/Models/CEWorkspaceActor.swift:81-95 | when the folders a path passes through have distinct child names, the existing path is first-named, so the round trip holds for the node at its end |
| `Scenarios.ResolveInNestedFolders` | CodeEdit/Features/CEWorkspace/Models/CEWorkspaceActor.swift:81-95 | in `root/a/b/c.txt`, `a/b/c.txt` resolves to the file, `a/x` falls back to folder `a`, and `a/b/c.txt/d` stops at the file; a warning is reached for `a/x` and none for `a/b/c.txt` |

## Left out

- The commented-out `CEWorkspaceFileActor` and `buildingFileTree` (CEWorkspaceActor.swift:133-221) are not compiled. They have no live behaviour to model. They rest on directory enumeration, actor concurrency and a modal alert.
- The matching of `Resource.Ignored` values against entries appears only in that commented-out builder. The enum is modelled as a datatype with no operations.
- `NSLog` output is not modelled as I/O. `Resolution.ResolveWarns` says when one of the three log calls is reached, and `Resolution.WarnsIffStrictMiss` relates it to the strict walk.
- `weak` references and ARC are memory management and are not modelled. `parentFolder` is a plain nullable reference that owns nothing.
- `File.document` has type `CodeFileDocument`, which is not part of this model. The field is left out.
- `WorkspaceResources.FirstIndexNamed` compares names code point by code point, with Dafny's `==` on strings. Swift's `String ==` at CEWorkspaceActor.swift:87 treats canonically equivalent strings as equal, so a child named "caf\u{E9}" is found by the component "cafe\u{301}" in Swift but not in the model. Unicode normalisation is not modelled. `Folder.ResolveItem`, `Resolution.Child`, `Resolution.StrictResolve`, `Resolution.ResolveWarns`, `ChildList.DistinctNames` and every resolution lemma inherit this: they hold for names compared code point by code point.
- `URL` is modelled as a string. No URL normalisation or comparison rules are modelled.
- `name` and `parentFolder` are plain settable fields. Like Swift's stored properties, they have no setter operations of their own.
- GitHubLoginView.swift and SettingsColorPicker.swift are user-interface code and are not part of this model.
- `Folder.AddChild` does not set the child's `parentFolder`, and neither does the Swift `addChild`. Parents are wired up only in the commented-out builder (CEWorkspaceActor.swift:215), so the model follows the live code.
