/*
 * The kinds of entry a workspace can be told to leave out of its resource
 * tree: a file by name, a folder by name, or any entry by location. Values
 * compare structurally, so they can be collected in a set.
 */
module Resource {
  import WorkspaceResources

  datatype Ignored = File(name: string) | Folder(name: string) | Url(url: WorkspaceResources.Url)
}
