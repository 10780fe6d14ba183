/** The file explorer's expanded-folder state (`src/components/fileExplorer/index.tsx`). */
module FileExplorer {
  import opened Common
  import opened FileSchema

  /** `collectExpandedIds`: the open folders of the tree, in pre-order. */
  method CollectExpandedIds(nodes: seq<FileTreeNode>) returns (ids: seq<Id>)
    ensures ids == OpenIds(Flatten(nodes), Folder)
    decreases nodes
  {
    ids := [];
    for i := 0 to |nodes|
      invariant ids == OpenIds(Flatten(nodes[..i]), Folder)
    {
      var node := nodes[i];
      FlattenStep(nodes, i, Folder);
      var own: seq<Id> := [];
      if node.Kind() == Folder && node.isOpen {
        own := [node.id];
      }
      var sub: seq<Id> := [];
      if node.FolderNode? {
        sub := CollectExpandedIds(node.children);
      }
      ids := ids + own + sub;
    }
    assert nodes[..|nodes|] == nodes;
  }

  /** The requests the explorer sends while it updates its own state. */
  datatype Request =
    | UpdateOpen(id: Id, isOpen: bool)
    | CollapseAllRequest(projectId: int)

  class Explorer {
    /** `expandedIds` */
    var expandedIds: set<Id>
    /** `initialized` */
    var initialized: bool
    /** Requests issued so far, in order. */
    ghost var requests: seq<Request>

    constructor ()
      ensures expandedIds == {} && !initialized && requests == []
    {
      expandedIds := {};
      initialized := false;
      requests := [];
    }

    /** The first render with a loaded tree expands exactly the folders the
        server has open; later renders leave the set alone. */
    method Initialize(fileTree: Option<seq<FileTreeNode>>)
      modifies this
      ensures !old(initialized) && fileTree.Some? ==>
        && initialized
        && forall x :: x in expandedIds <==>
             exists n :: n in Flatten(fileTree.value) && n.id == x && n.FolderNode? && n.isOpen
      ensures old(initialized) || fileTree.None? ==>
        expandedIds == old(expandedIds) && initialized == old(initialized)
      ensures requests == old(requests)
    {
      if !initialized && fileTree.Some? {
        var ids := CollectExpandedIds(fileTree.value);
        OpenIdsMembers(Flatten(fileTree.value), Folder);
        expandedIds := set x | x in ids;
        initialized := true;
      }
    }

    /** `handleToggleExpand` */
    method ToggleExpand(folderId: Id, isOpenState: bool)
      modifies this
      ensures expandedIds == if isOpenState then old(expandedIds) + {folderId} else old(expandedIds) - {folderId}
      ensures initialized == old(initialized)
      ensures requests == old(requests) + [UpdateOpen(folderId, isOpenState)]
    {
      if isOpenState {
        expandedIds := expandedIds + {folderId};
      } else {
        expandedIds := expandedIds - {folderId};
      }
      requests := requests + [UpdateOpen(folderId, isOpenState)];
    }

    /** `collapseAll` */
    method CollapseAll(projectId: int)
      modifies this
      ensures expandedIds == {} && initialized == old(initialized)
      ensures requests == old(requests) + [CollapseAllRequest(projectId)]
    {
      expandedIds := {};
      requests := requests + [CollapseAllRequest(projectId)];
    }

    /** The `create` and `rename` success handlers: every folder the server
        created along the path is shown expanded. */
    method AddCreatedFolders(createdFolderIds: seq<Id>)
      modifies this
      ensures expandedIds == old(expandedIds) + set x | x in createdFolderIds
      ensures initialized == old(initialized) && requests == old(requests)
    {
      if |createdFolderIds| > 0 {
        for i := 0 to |createdFolderIds|
          invariant expandedIds == old(expandedIds) + set x | x in createdFolderIds[..i]
          invariant initialized == old(initialized) && requests == old(requests)
        {
          assert createdFolderIds[..i + 1] == createdFolderIds[..i] + [createdFolderIds[i]];
          expandedIds := expandedIds + {createdFolderIds[i]};
        }
        assert createdFolderIds[..|createdFolderIds|] == createdFolderIds;
      }
    }
  }

  // ---------------------------------------------------------------------
  // Properties

  /** Collected ids are the open folders of the tree, closed folders' open
      descendants included. */
  lemma ExpandedUnderClosedFolder(nodes: seq<FileTreeNode>, f: FileTreeNode, c: FileTreeNode)
    requires f in Flatten(nodes) && f.FolderNode? && !f.isOpen
    requires c in f.children && c.FolderNode? && c.isOpen
    ensures c.id in OpenIds(Flatten(nodes), Folder)
  {
    FlattenHasChildren(nodes, f, c);
    OpenIdsMembers(Flatten(nodes), Folder);
  }
}
