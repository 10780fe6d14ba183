/** The `file` table's rows and the tree shape the server sends to clients. */
module FileSchema {
  import opened Common

  type Id = SerialId

  /** The `type` column. */
  datatype FileType = File | Folder

  /** One row of the `file` table. The `content`, `mimeType`, `fileUrl` and
      timestamp columns play no part in the tree logic and are not modelled. */
  datatype FileRow = FileRow(
    projectId: int,
    parentId: Option<Id>,
    name: string,
    kind: FileType,
    isOpen: bool)

  /** The table, keyed by the serial `id` column. */
  type Table = map<Id, FileRow>

  /** `FileTreeNode`: folders carry `children`, files do not. */
  datatype FileTreeNode =
    | FileNode(id: Id, name: string, isOpen: bool)
    | FolderNode(id: Id, name: string, isOpen: bool, children: seq<FileTreeNode>)
  {
    /** The node's `type`. */
    function Kind(): FileType
    {
      if FileNode? then File else Folder
    }
  }

  /** Every node of a forest, each before its descendants (pre-order). */
  function Flatten(nodes: seq<FileTreeNode>): seq<FileTreeNode>
    decreases nodes
  {
    if |nodes| == 0 then [] else FlattenNode(nodes[0]) + Flatten(nodes[1..])
  }

  function FlattenNode(n: FileTreeNode): seq<FileTreeNode>
    decreases n
  {
    match n
    case FileNode(_, _, _) => [n]
    case FolderNode(_, _, _, kids) => [n] + Flatten(kids)
  }

  lemma {:induction false} FlattenAppend(nodes: seq<FileTreeNode>, n: FileTreeNode)
    ensures Flatten(nodes + [n]) == Flatten(nodes) + FlattenNode(n)
  {
    if |nodes| == 0 {
      assert nodes + [n] == [n];
    } else {
      assert (nodes + [n])[1..] == nodes[1..] + [n];
      FlattenAppend(nodes[1..], n);
    }
  }

  /** The ids of the open nodes of one type, in the order given. */
  function OpenIds(nodes: seq<FileTreeNode>, kind: FileType): (r: seq<Id>)
    ensures |r| <= |nodes|
  {
    if |nodes| == 0 then []
    else
      var last := nodes[|nodes| - 1];
      OpenIds(nodes[..|nodes| - 1], kind) + (if last.Kind() == kind && last.isOpen then [last.id] else [])
  }

  /** Exactly the ids of the open nodes of that type are collected. */
  lemma {:induction false} OpenIdsMembers(nodes: seq<FileTreeNode>, kind: FileType)
    ensures forall x :: x in OpenIds(nodes, kind) <==>
      exists n :: n in nodes && n.id == x && n.Kind() == kind && n.isOpen
    decreases |nodes|
  {
    if |nodes| > 0 {
      var last := nodes[|nodes| - 1];
      OpenIdsMembers(nodes[..|nodes| - 1], kind);
      assert forall n :: n in nodes <==> n in nodes[..|nodes| - 1] || n == last;
    }
  }

  lemma {:induction false} OpenIdsAppend(a: seq<FileTreeNode>, b: seq<FileTreeNode>, kind: FileType)
    ensures OpenIds(a + b, kind) == OpenIds(a, kind) + OpenIds(b, kind)
    decreases |b|
  {
    if |b| == 0 {
      assert a + b == a;
    } else {
      assert (a + b)[..|a + b| - 1] == a + b[..|b| - 1];
      OpenIdsAppend(a, b[..|b| - 1], kind);
    }
  }

  /** Every child of a folder in a flattened forest is in it too: the walk
      descends into closed folders as well. */
  lemma {:induction false} FlattenHasChildren(nodes: seq<FileTreeNode>, n: FileTreeNode, c: FileTreeNode)
    requires n in Flatten(nodes) && n.FolderNode? && c in n.children
    ensures c in Flatten(nodes)
    decreases nodes
  {
    if n in FlattenNode(nodes[0]) {
      FlattenNodeHasChildren(nodes[0], n, c);
    } else {
      FlattenHasChildren(nodes[1..], n, c);
    }
  }

  lemma {:induction false} FlattenNodeHasChildren(m: FileTreeNode, n: FileTreeNode, c: FileTreeNode)
    requires n in FlattenNode(m) && n.FolderNode? && c in n.children
    ensures c in FlattenNode(m)
    decreases m
  {
    if n == m {
      FlattenHasMember(m.children, c);
    } else {
      FlattenHasChildren(m.children, n, c);
    }
  }

  lemma {:induction false} FlattenHasMember(nodes: seq<FileTreeNode>, c: FileTreeNode)
    requires c in nodes
    ensures c in Flatten(nodes)
    decreases nodes
  {
    if c != nodes[0] {
      FlattenHasMember(nodes[1..], c);
    }
  }

  /** The open ids one node contributes: its own, then its subtree's. */
  function OwnOpenId(node: FileTreeNode, kind: FileType): seq<Id>
  {
    if node.Kind() == kind && node.isOpen then [node.id] else []
  }

  lemma OpenIdsNode(node: FileTreeNode, kind: FileType)
    ensures OpenIds(FlattenNode(node), kind) ==
      OwnOpenId(node, kind) + (if node.FolderNode? then OpenIds(Flatten(node.children), kind) else [])
  {
    assert [node][..0] == [];
    assert OpenIds([node], kind) == OwnOpenId(node, kind);
    if node.FolderNode? {
      OpenIdsAppend([node], Flatten(node.children), kind);
    } else {
      assert OwnOpenId(node, kind) + [] == OwnOpenId(node, kind);
    }
  }

  /** What the `i`-th root and its subtree add to a pre-order walk. */
  lemma FlattenStep(nodes: seq<FileTreeNode>, i: nat, kind: FileType)
    requires i < |nodes|
    ensures OpenIds(Flatten(nodes[..i + 1]), kind) ==
      OpenIds(Flatten(nodes[..i]), kind)
      + (if nodes[i].Kind() == kind && nodes[i].isOpen then [nodes[i].id] else [])
      + (if nodes[i].FolderNode? then OpenIds(Flatten(nodes[i].children), kind) else [])
  {
    var node := nodes[i];
    var before := Flatten(nodes[..i]);
    assert nodes[..i + 1] == nodes[..i] + [node];
    FlattenAppend(nodes[..i], node);
    OpenIdsAppend(before, FlattenNode(node), kind);
    OpenIdsNode(node, kind);
    AppendAssoc(OpenIds(before, kind), OwnOpenId(node, kind),
                if node.FolderNode? then OpenIds(Flatten(node.children), kind) else []);
  }
}
