/** Editor start-up in the project page (`src/components/project-id-view.tsx`):
    the open files of the server's tree seed the tab store once. */
module ProjectView {
  import opened Common
  import opened FileSchema
  import opened EditorStore

  /** The project fields the page passes on to the store. */
  datatype Project = Project(activeTabId: Option<FileId>, previewTabId: Option<FileId>)

  /** `collectOpenFiles`: the open files of the tree, in pre-order. */
  method CollectOpenFiles(nodes: seq<FileTreeNode>) returns (ids: seq<Id>)
    ensures ids == OpenIds(Flatten(nodes), File)
    decreases nodes
  {
    ids := [];
    for i := 0 to |nodes|
      invariant ids == OpenIds(Flatten(nodes[..i]), File)
    {
      var node := nodes[i];
      FlattenStep(nodes, i, File);
      var own: seq<Id> := [];
      if node.Kind() == File && node.isOpen {
        own := [node.id];
      }
      var sub: seq<Id> := [];
      if node.FolderNode? {
        sub := CollectOpenFiles(node.children);
      }
      ids := ids + own + sub;
    }
    assert nodes[..|nodes|] == nodes;
  }

  /** The initialisation effect: once the project and its tree are loaded
      and the store has not seen the project, the store receives the open
      files with the project's active and preview tabs unchanged. */
  method InitializeEditor(store: Store, projectId: ProjectId,
                          project: Option<Project>, fileTree: Option<seq<FileTreeNode>>)
    modifies store
    ensures project.Some? && fileTree.Some? && projectId !in old(store.initialized) ==>
      && store.tabs == old(store.tabs)[projectId := TabState(OpenIds(Flatten(fileTree.value), File),
                                                            project.value.activeTabId,
                                                            project.value.previewTabId)]
      && store.initialized == old(store.initialized) + {projectId}
    ensures !(project.Some? && fileTree.Some? && projectId !in old(store.initialized)) ==>
      store.tabs == old(store.tabs) && store.initialized == old(store.initialized)
    ensures store.calls == old(store.calls)
  {
    if project.Some? && fileTree.Some? && projectId !in store.initialized {
      var openTabs := CollectOpenFiles(fileTree.value);
      store.InitFromServer(projectId, openTabs, project.value.activeTabId, project.value.previewTabId);
    }
  }
}
