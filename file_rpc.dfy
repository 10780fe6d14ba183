/** The file-tree procedures of the RPC router (`server/rpc/file.ts`) over an
    in-memory `file` table. */
module FileRpc {
  import opened Common
  import opened FileSchema
  import opened FileAncestry

  /** The errors the procedures raise: input validation (`name` must be
      non-empty), `NOT_FOUND`, `CONFLICT`, and the database rejecting a
      `parent_id` that names no row. */
  datatype FileError = BadRequest | NotFound | Conflict | ForeignKeyViolation

  /** What path resolution hands back to `create` and `rename`. */
  datatype Resolved = Resolved(parentId: Option<Id>, fileName: string, createdFolderIds: seq<Id>)

  /** The reply of `create`. */
  datatype Created = Created(id: Id, createdFolderIds: seq<Id>)

  /** One element of `getPathById`'s reply. */
  datatype PathPart = PathPart(name: string, id: Id, parentId: Option<Id>)

  // ---------------------------------------------------------------------
  // Specification helpers

  /** The non-empty `/`-separated segments of a name. */
  function Segments(name: string): (r: seq<string>)
    ensures forall i :: 0 <= i < |r| ==> r[i] != [] && !HasChar(r[i], '/')
  {
    var parts := Split(name, '/');
    SplitPieces(name, '/');
    var r := NonEmpty(parts);
    assert forall i :: 0 <= i < |r| ==> r[i] in parts;
    r
  }

  /** The segments naming the folders a multi-segment name walks through. */
  function FolderSegments(name: string): seq<string>
  {
    var parts := Segments(name);
    if |parts| <= 1 then [] else parts[..|parts| - 1]
  }

  /** The name the created or renamed entry receives: the whole name when it
      has at most one segment (so `"a/"` keeps its slash), else its last segment. */
  function LeafName(name: string): (r: string)
    ensures |Segments(name)| > 1 ==> r != [] && !HasChar(r, '/')
    ensures |Segments(name)| <= 1 ==> r == name
  {
    var parts := Segments(name);
    if |parts| <= 1 then name else parts[|parts| - 1]
  }

  /** `y` is a folder of the project named `name` under `parent`, other than
      the excluded row: what the lookup during path resolution matches. */
  predicate IsFolderMatch(rows: Table, y: Id, projectId: int, name: string, parent: Option<Id>, excludeId: Option<Id>)
  {
    y in rows && rows[y].projectId == projectId && rows[y].name == name
    && rows[y].kind == Folder && rows[y].parentId == parent && Some(y) != excludeId
  }

  /** `y` is an entry of the project with this name, type and parent: what
      `create`'s duplicate check matches. */
  predicate IsDuplicate(rows: Table, y: Id, projectId: int, name: string, kind: FileType, parent: Option<Id>)
  {
    y in rows && rows[y].projectId == projectId && rows[y].name == name
    && rows[y].kind == kind && rows[y].parentId == parent
  }

  /** The parent of folder `i` of a walk that starts below `start`. */
  function StepParent(start: Option<Id>, chain: seq<Id>, i: nat): Option<Id>
    requires i <= |chain|
  {
    if i == 0 then start else Some(chain[i - 1])
  }

  /** The parent a walk ends at. */
  function EndOf(start: Option<Id>, chain: seq<Id>): Option<Id>
  {
    if |chain| == 0 then start else Some(chain[|chain| - 1])
  }

  /** `chain` is a path of folders of the project, named by `folders`, going
      down from `start`, none of them the excluded row. */
  ghost predicate WalksPath(rows: Table, projectId: int, start: Option<Id>, folders: seq<string>, chain: seq<Id>, excludeId: Option<Id>)
  {
    |chain| == |folders|
    && forall i :: 0 <= i < |chain| ==>
         IsFolderMatch(rows, chain[i], projectId, folders[i], StepParent(start, chain, i), excludeId)
  }

  /** The elements of `s` that are not keys of `rows`, in order. */
  function NotIn(s: seq<Id>, rows: Table): (r: seq<Id>)
    ensures forall x :: x in r <==> x in s && x !in rows
  {
    if |s| == 0 then []
    else if s[|s| - 1] in rows then NotIn(s[..|s| - 1], rows)
    else NotIn(s[..|s| - 1], rows) + [s[|s| - 1]]
  }

  /** Every row of `a` is in `b`, unchanged. */
  ghost predicate Extends(a: Table, b: Table)
  {
    forall x :: x in a ==> x in b && b[x] == a[x]
  }

  /** The table after `collapseAll`: the project's folders are closed. */
  function Collapsed(rows: Table, projectId: int): (r: Table)
    ensures r.Keys == rows.Keys
    ensures forall x :: x in rows ==>
      if rows[x].projectId == projectId && rows[x].kind == Folder
      then r[x] == rows[x].(isOpen := false)
      else r[x] == rows[x]
  {
    map x | x in rows ::
      if rows[x].projectId == projectId && rows[x].kind == Folder then rows[x].(isOpen := false) else rows[x]
  }

  /** `isDescendant(ancestorId, targetId)`: follows `targetId`'s parents and
      reports whether `ancestorId` is met strictly above it. */
  function IsDescendant(rows: Table, ancestorId: Id, targetId: Id): (r: bool)
    requires Acyclic(rows) && ParentsExist(rows)
    ensures r <==> IsStrictAncestor(rows, ancestorId, targetId)
    decreases |Ancestors(rows, targetId)|
  {
    StrictAncestorStep(rows, ancestorId, targetId);
    if targetId !in rows || rows[targetId].parentId.None? then false
    else if rows[targetId].parentId == Some(ancestorId) then true
    else
      AncestorsShrink(rows, targetId);
      IsDescendant(rows, ancestorId, rows[targetId].parentId.value)
  }

  ghost function Ancestors(rows: Table, x: Id): set<Id>
  {
    set a | a in rows && IsStrictAncestor(rows, a, x)
  }

  lemma AncestorsShrink(rows: Table, t: Id)
    requires Acyclic(rows) && ParentsExist(rows)
    requires t in rows && rows[t].parentId.Some?
    ensures |Ancestors(rows, rows[t].parentId.value)| < |Ancestors(rows, t)|
  {
    var p := rows[t].parentId.value;
    forall a | a in Ancestors(rows, p)
      ensures a in Ancestors(rows, t)
    {
      StrictAncestorStep(rows, a, t);
    }
    StrictAncestorStep(rows, p, t);
    ParentOutside(rows, t, p);
    assert p in Ancestors(rows, t) && p !in Ancestors(rows, p);
    SubsetCard(Ancestors(rows, p), Ancestors(rows, t) - {p});
  }

  // ---------------------------------------------------------------------
  // Building the tree

  /** The ids of `files[i..]` whose parent is `parent`, in order. */
  function ChildrenIn(rows: Table, files: seq<Id>, parent: Option<Id>): (r: seq<Id>)
    requires forall j :: 0 <= j < |files| ==> files[j] in rows
    ensures forall x :: x in r <==> x in files && rows[x].parentId == parent
  {
    if |files| == 0 then []
    else if rows[files[|files| - 1]].parentId == parent
    then ChildrenIn(rows, files[..|files| - 1], parent) + [files[|files| - 1]]
    else ChildrenIn(rows, files[..|files| - 1], parent)
  }

  /** The ids of a list of nodes. */
  function Ids(nodes: seq<FileTreeNode>): (r: seq<Id>)
    ensures |r| == |nodes| && forall k :: 0 <= k < |r| ==> r[k] == nodes[k].id
  {
    seq(|nodes|, k requires 0 <= k < |nodes| => nodes[k].id)
  }

  /** The node carries its row's fields, and the children exactly when the
      row is a folder. */
  predicate Describes(rows: Table, n: FileTreeNode)
  {
    n.id in rows && n.name == rows[n.id].name && n.isOpen == rows[n.id].isOpen
    && n.Kind() == rows[n.id].kind
  }

  lemma IdsAppend(nodes: seq<FileTreeNode>, node: FileTreeNode)
    ensures Ids(nodes + [node]) == Ids(nodes) + [node.id]
  {
    assert Ids(nodes + [node]) == Ids(nodes) + [node.id];
  }

  lemma ChildrenInStep(rows: Table, files: seq<Id>, parent: Option<Id>, n: nat)
    requires forall j :: 0 <= j < |files| ==> files[j] in rows
    requires 0 < n <= |files|
    ensures ChildrenIn(rows, files[..n], parent) ==
      if rows[files[n - 1]].parentId == parent then ChildrenIn(rows, files[..n - 1], parent) + [files[n - 1]]
      else ChildrenIn(rows, files[..n - 1], parent)
  {
    assert files[..n][..n - 1] == files[..n - 1];
  }

  /** `buildTree(parentId)` over the project's rows `files`, in their order. */
  function BuildTree(rows: Table, files: seq<Id>, parent: Option<Id>): (r: seq<FileTreeNode>)
    requires Acyclic(rows)
    requires forall j :: 0 <= j < |files| ==> files[j] in rows
    ensures Ids(r) == ChildrenIn(rows, files, parent)
    ensures forall k :: 0 <= k < |r| ==> Describes(rows, r[k])
    ensures forall k :: 0 <= k < |r| && r[k].FolderNode? ==>
      Ids(r[k].children) == ChildrenIn(rows, files, Some(r[k].id))
    decreases |Below(rows, parent)|, |files| + 1
  {
    BuildLevel(rows, files, parent, |files|)
  }

  /** The nodes for the rows among `files[..n]` whose parent is `parent`;
      folders take their children from all of `files`. */
  function BuildLevel(rows: Table, files: seq<Id>, parent: Option<Id>, n: nat): (r: seq<FileTreeNode>)
    requires Acyclic(rows)
    requires forall j :: 0 <= j < |files| ==> files[j] in rows
    requires n <= |files|
    ensures Ids(r) == ChildrenIn(rows, files[..n], parent)
    ensures forall k :: 0 <= k < |r| ==> Describes(rows, r[k])
    ensures forall k :: 0 <= k < |r| && r[k].FolderNode? ==>
      Ids(r[k].children) == ChildrenIn(rows, files, Some(r[k].id))
    decreases |Below(rows, parent)|, n
  {
    if n == 0 then []
    else
      var f := files[n - 1];
      var front := BuildLevel(rows, files, parent, n - 1);
      ChildrenInStep(rows, files, parent, n);
      BelowShrinks(rows, f);
      if rows[f].parentId != parent then front
      else
        var node :=
          if rows[f].kind == File then FileNode(f, rows[f].name, rows[f].isOpen)
          else FolderNode(f, rows[f].name, rows[f].isOpen, BuildTree(rows, files, Some(f)));
        IdsAppend(front, node);
        front + [node]
  }

  /** The node is a row of `files` carrying that row's fields, and, when a
      folder, holds exactly the nodes of its children. */
  predicate PlacedNode(rows: Table, files: seq<Id>, n: FileTreeNode)
    requires forall j :: 0 <= j < |files| ==> files[j] in rows
  {
    && Describes(rows, n) && n.id in files
    && (n.FolderNode? ==> Ids(n.children) == ChildrenIn(rows, files, Some(n.id)))
  }

  /** Every node of `nodes` is placed. */
  predicate Placed(rows: Table, files: seq<Id>, nodes: seq<FileTreeNode>)
    requires forall j :: 0 <= j < |files| ==> files[j] in rows
  {
    forall n {:trigger n in nodes} :: n in nodes ==> PlacedNode(rows, files, n)
  }

  /** The forest `buildTree` returns is placed correctly at every depth, not
      only at its top level. */
  lemma {:induction false} BuildTreePlaced(rows: Table, files: seq<Id>, parent: Option<Id>)
    requires Acyclic(rows)
    requires forall j :: 0 <= j < |files| ==> files[j] in rows
    ensures Placed(rows, files, Flatten(BuildTree(rows, files, parent)))
    decreases |Below(rows, parent)|, |files| + 1
  {
    BuildLevelPlaced(rows, files, parent, |files|);
    assert LevelNodes(rows, files, parent, |files|) == Flatten(BuildTree(rows, files, parent));
  }

  /** Every node of the forest for the rows among `files[..n]`. */
  ghost function LevelNodes(rows: Table, files: seq<Id>, parent: Option<Id>, n: nat): seq<FileTreeNode>
    requires Acyclic(rows)
    requires forall j :: 0 <= j < |files| ==> files[j] in rows
    requires n <= |files|
  {
    Flatten(BuildLevel(rows, files, parent, n))
  }

  lemma {:induction false} BuildLevelPlaced(rows: Table, files: seq<Id>, parent: Option<Id>, n: nat)
    requires Acyclic(rows)
    requires forall j :: 0 <= j < |files| ==> files[j] in rows
    requires n <= |files|
    ensures Placed(rows, files, LevelNodes(rows, files, parent, n))
    decreases |Below(rows, parent)|, n, 1
  {
    if n == 0 {
      LevelEmpty(rows, files, parent);
    } else {
      BuildLevelPlaced(rows, files, parent, n - 1);
      LevelStepPlaced(rows, files, parent, n);
    }
  }

  lemma LevelEmpty(rows: Table, files: seq<Id>, parent: Option<Id>)
    requires Acyclic(rows)
    requires forall j :: 0 <= j < |files| ==> files[j] in rows
    ensures Placed(rows, files, LevelNodes(rows, files, parent, 0))
  {
    assert LevelNodes(rows, files, parent, 0) == [];
  }

  /** A row of another parent adds nothing to the level. */
  lemma LevelSkip(rows: Table, files: seq<Id>, parent: Option<Id>, n: nat)
    requires Acyclic(rows)
    requires forall j :: 0 <= j < |files| ==> files[j] in rows
    requires 0 < n <= |files| && rows[files[n - 1]].parentId != parent
    ensures LevelNodes(rows, files, parent, n) == LevelNodes(rows, files, parent, n - 1)
  {
  }

  /** The node a row of `parent` adds at the end of the level is placed. */
  lemma {:induction false} LevelStepPlaced(rows: Table, files: seq<Id>, parent: Option<Id>, n: nat)
    requires Acyclic(rows)
    requires forall j :: 0 <= j < |files| ==> files[j] in rows
    requires 0 < n <= |files|
    requires Placed(rows, files, LevelNodes(rows, files, parent, n - 1))
    ensures Placed(rows, files, LevelNodes(rows, files, parent, n))
    decreases |Below(rows, parent)|, n, 0
  {
    var f := files[n - 1];
    if rows[f].parentId != parent {
      LevelSkip(rows, files, parent, n);
      return;
    }
    var front := BuildLevel(rows, files, parent, n - 1);
    var r := BuildLevel(rows, files, parent, n);
    var node := r[|r| - 1];
    assert r == front + [node];
    if node.FolderNode? {
      var kids := BuildTree(rows, files, Some(f));
      assert node.children == kids;
      BelowShrinks(rows, f);
      BuildTreePlaced(rows, files, Some(f));
    }
    NodePlaced(rows, files, node);
    PlacedAppend(rows, files, front, node);
    assert LevelNodes(rows, files, parent, n) == Flatten(front + [node]);
  }

  lemma NodePlaced(rows: Table, files: seq<Id>, node: FileTreeNode)
    requires forall j :: 0 <= j < |files| ==> files[j] in rows
    requires PlacedNode(rows, files, node)
    requires node.FolderNode? ==> Placed(rows, files, Flatten(node.children))
    ensures Placed(rows, files, FlattenNode(node))
  {
  }

  lemma PlacedAppend(rows: Table, files: seq<Id>, front: seq<FileTreeNode>, node: FileTreeNode)
    requires forall j :: 0 <= j < |files| ==> files[j] in rows
    requires Placed(rows, files, Flatten(front)) && Placed(rows, files, FlattenNode(node))
    ensures Placed(rows, files, Flatten(front + [node]))
  {
    FlattenAppend(front, node);
  }

  // ---------------------------------------------------------------------
  // The table and its procedures

  /** The `file` table. `nextId` is the next value of the `id` serial. */
  class FileStore {
    var rows: Table
    var nextId: Id

    /** Serial ids below `nextId`, the foreign key on `parent_id`, and no
        cycles in the parent relation. */
    ghost predicate Valid()
      reads this
    {
      (forall x :: x in rows ==> x < nextId) && ParentsExist(rows) && Acyclic(rows)
    }

    constructor ()
      ensures Valid() && rows == map[]
    {
      rows := map[];
      nextId := 1;
    }

    /** `insert ... returning id` with a parent the foreign key accepts. */
    method Insert(row: FileRow) returns (id: Id)
      requires Valid()
      requires row.parentId.None? || row.parentId.value in rows
      modifies this
      ensures Valid()
      ensures id !in old(rows) && rows == old(rows)[id := row]
      ensures forall y: Id, n: nat :: y != id ==> Up(rows, y, n) == Up(old(rows), y, n)
    {
      id := nextId;
      InsertFresh(rows, id, row);
      rows := rows[id := row];
      nextId := nextId + 1;
    }

    /** One step of the walk: the first matching folder under `current`,
        else a new open folder there. */
    method FindOrCreateFolder(projectId: int, folderName: string, current: Option<Id>, excludeId: Option<Id>)
      returns (r: Result<Id, FileError>, isNew: bool)
      requires Valid() && (excludeId.None? || excludeId.value in rows)
      modifies this
      ensures Valid() && Extends(old(rows), rows)
      ensures r.Err? <==> current.Some? && current.value !in old(rows)
      ensures r.Err? ==> r.error == ForeignKeyViolation && rows == old(rows)
      ensures r.Ok? ==> IsFolderMatch(rows, r.value, projectId, folderName, current, excludeId)
      ensures r.Ok? && !isNew ==> rows == old(rows)
      ensures r.Ok? && isNew ==>
        && r.value !in old(rows)
        && rows == old(rows)[r.value := FileRow(projectId, current, folderName, Folder, true)]
        && (forall y :: y in old(rows) ==> !IsFolderMatch(old(rows), y, projectId, folderName, current, excludeId))
    {
      if y :| y in rows && IsFolderMatch(rows, y, projectId, folderName, current, excludeId) {
        return Ok(y), false;
      }
      if current.Some? && current.value !in rows {
        return Err(ForeignKeyViolation), false;
      }
      var f := Insert(FileRow(projectId, current, folderName, Folder, true));
      return Ok(f), true;
    }

    /** `resolvePathAndCreateFolders`: walks the folder segments of `name`
        down from `parentId`, reusing a matching folder or creating one. */
    method ResolvePathAndCreateFolders(projectId: int, name: string, parentId: Option<Id>, excludeId: Option<Id>)
      returns (r: Result<Resolved, FileError>, ghost chain: seq<Id>)
      requires Valid() && (excludeId.None? || excludeId.value in rows)
      modifies this
      ensures Valid() && Extends(old(rows), rows)
      ensures |Segments(name)| <= 1 ==> r == Ok(Resolved(parentId, name, [])) && rows == old(rows) && chain == []
      ensures r.Err? <==> |Segments(name)| > 1 && parentId.Some? && parentId.value !in old(rows)
      ensures r.Err? ==> r.error == ForeignKeyViolation && rows == old(rows)
      ensures r.Ok? ==>
        && r.value.fileName == LeafName(name)
        && WalksPath(rows, projectId, parentId, FolderSegments(name), chain, excludeId)
        && r.value.parentId == EndOf(parentId, chain)
        && r.value.createdFolderIds == NotIn(chain, old(rows))
        && (forall x :: x in rows <==> x in old(rows) || x in r.value.createdFolderIds)
      ensures r.Ok? ==> forall i :: 0 <= i < |chain| && chain[i] !in old(rows) ==>
        NewFolder(old(rows), rows, projectId, FolderSegments(name)[i], StepParent(parentId, chain, i), excludeId, chain[i])
      ensures r.Ok? && excludeId.Some? && (parentId.None? || !InSubtree(old(rows), excludeId.value, parentId.value)) ==>
        r.value.parentId.None? || !InSubtree(rows, excludeId.value, r.value.parentId.value)
    {
      var parts := Segments(name);
      if |parts| <= 1 {
        return Ok(Resolved(parentId, name, [])), [];
      }
      var folders := parts[..|parts| - 1];
      assert folders == FolderSegments(name) && |folders| > 0;
      assert LeafName(name) == parts[|parts| - 1];
      var walked;
      walked, chain := WalkFolders(projectId, folders, parentId, excludeId);
      if walked.Err? {
        return Err(walked.error), chain;
      }
      return Ok(Resolved(walked.value.0, parts[|parts| - 1], walked.value.1)), chain;
    }

    /** The loop of `resolvePathAndCreateFolders` over the folder segments:
        the parent reached and the ids of the folders it created. */
    method WalkFolders(projectId: int, folders: seq<string>, parentId: Option<Id>, excludeId: Option<Id>)
      returns (r: Result<(Option<Id>, seq<Id>), FileError>, ghost chain: seq<Id>)
      requires Valid() && (excludeId.None? || excludeId.value in rows)
      requires |folders| > 0
      modifies this
      ensures Valid() && Extends(old(rows), rows)
      ensures r.Err? <==> parentId.Some? && parentId.value !in old(rows)
      ensures r.Err? ==> r.error == ForeignKeyViolation && rows == old(rows)
      ensures r.Ok? ==>
        && WalksPath(rows, projectId, parentId, folders, chain, excludeId)
        && r.value.0 == EndOf(parentId, chain)
        && r.value.1 == NotIn(chain, old(rows))
        && (forall x :: x in rows <==> x in old(rows) || x in r.value.1)
      ensures r.Ok? ==> forall i :: 0 <= i < |chain| && chain[i] !in old(rows) ==>
        NewFolder(old(rows), rows, projectId, folders[i], StepParent(parentId, chain, i), excludeId, chain[i])
      ensures r.Ok? && excludeId.Some? && (parentId.None? || !InSubtree(old(rows), excludeId.value, parentId.value)) ==>
        r.value.0.None? || !InSubtree(rows, excludeId.value, r.value.0.value)
    {
      chain := [];
      var current := parentId;
      var created: seq<Id> := [];
      ghost var guard := excludeId.Some? && (parentId.None? || !InSubtree(old(rows), excludeId.value, parentId.value));
      for i := 0 to |folders|
        invariant Valid()
        invariant excludeId.None? || excludeId.value in rows
        invariant i == 0 ==> rows == old(rows)
        invariant parentId.Some? && parentId.value !in old(rows) ==> i == 0
        invariant Walked(old(rows), rows, projectId, parentId, folders, i, chain, current, created, excludeId, guard)
      {
        ghost var before := rows;
        var step, isNew := FindOrCreateFolder(projectId, folders[i], current, excludeId);
        if step.Err? {
          assert i == 0;
          return Err(ForeignKeyViolation), chain;
        }
        var f := step.value;
        WalkedStep(old(rows), before, rows, projectId, parentId, folders, i, chain, current, created, excludeId, guard, f, isNew);
        if isNew {
          created := created + [f];
        }
        chain := chain + [f];
        current := Some(f);
      }
      assert folders[..|folders|] == folders;
      return Ok((current, created)), chain;
    }

    /** `create`: resolves the path, then returns an existing folder of the
        same name and parent, refuses a duplicate file, or inserts the entry. */
    method Create(projectId: int, name: string, parentId: Option<Id>, kind: FileType)
      returns (r: Result<Created, FileError>, ghost chain: seq<Id>)
      requires Valid()
      modifies this
      ensures Valid() && Extends(old(rows), rows)
      ensures name == [] ==> r == Err(BadRequest) && rows == old(rows)
      ensures r == Err(ForeignKeyViolation) <==> name != [] && parentId.Some? && parentId.value !in old(rows)
      ensures r == Err(ForeignKeyViolation) ==> rows == old(rows)
      ensures r.Ok? || r == Err(Conflict) ==> WalksPath(rows, projectId, parentId, FolderSegments(name), chain, None)
      ensures r == Err(Conflict) ==>
        kind == File && exists e :: IsDuplicate(rows, e, projectId, LeafName(name), File, EndOf(parentId, chain))
      ensures r == Err(Conflict) ==> forall x :: x in rows <==> x in old(rows) || x in NotIn(chain, old(rows))
      ensures r.Ok? ==>
        && r.value.createdFolderIds == NotIn(chain, old(rows))
        && IsDuplicate(rows, r.value.id, projectId, LeafName(name), kind, EndOf(parentId, chain))
        && (forall x :: x in rows <==> x in old(rows) || x in r.value.createdFolderIds || x == r.value.id)
      ensures r.Ok? && kind == File ==> r.value.id !in old(rows) && r.value.id !in r.value.createdFolderIds
      ensures r.Ok? && r.value.id !in old(rows) && r.value.id !in r.value.createdFolderIds ==>
        && !rows[r.value.id].isOpen
        && forall y :: y in old(rows) ==> !IsDuplicate(old(rows), y, projectId, LeafName(name), kind, EndOf(parentId, chain))
    {
      chain := [];
      if name == [] {
        return Err(BadRequest), chain;
      }
      var resolved;
      resolved, chain := ResolvePathAndCreateFolders(projectId, name, parentId, None);
      if resolved.Err? {
        return Err(resolved.error), chain;
      }
      var entry := CreateEntry(projectId, resolved.value.fileName, resolved.value.parentId, kind);
      if entry.Err? {
        return Err(entry.error), chain;
      }
      return Ok(Created(entry.value, resolved.value.createdFolderIds)), chain;
    }

    /** The second half of `create`, once the parent is known: the duplicate
        check and the insert. */
    method CreateEntry(projectId: int, fileName: string, parent: Option<Id>, kind: FileType)
      returns (r: Result<Id, FileError>)
      requires Valid()
      modifies this
      ensures Valid() && Extends(old(rows), rows)
      ensures r.Err? ==> rows == old(rows)
      ensures r == Err(ForeignKeyViolation) <==> parent.Some? && parent.value !in old(rows)
      ensures r == Err(Conflict) <==>
        kind == File && exists e :: IsDuplicate(old(rows), e, projectId, fileName, File, parent)
      ensures r.Ok? ==> IsDuplicate(rows, r.value, projectId, fileName, kind, parent)
      ensures r.Ok? ==> forall x :: x in rows <==> x in old(rows) || x == r.value
      ensures r.Ok? && kind == File ==> r.value !in old(rows)
      ensures r.Ok? && r.value !in old(rows) ==>
        && !rows[r.value].isOpen
        && forall y :: y in old(rows) ==> !IsDuplicate(old(rows), y, projectId, fileName, kind, parent)
    {
      if e :| e in rows && IsDuplicate(rows, e, projectId, fileName, kind, parent) {
        if kind == Folder {
          return Ok(e);
        }
        return Err(Conflict);
      }
      if parent.Some? && parent.value !in rows {
        return Err(ForeignKeyViolation);
      }
      var id := Insert(FileRow(projectId, parent, fileName, kind, false));
      return Ok(id);
    }

    /** `move`: re-parents a row unless the new parent is the row itself or
        lies below it. */
    method Move(id: Id, parentId: Option<Id>) returns (r: Result<bool, FileError>)
      requires Valid()
      modifies this
      ensures Valid()
      ensures r == Ok(false) <==> parentId.Some? && InSubtree(old(rows), id, parentId.value)
      ensures r.Err? <==> id in old(rows) && parentId.Some? && parentId.value !in old(rows)
      ensures r.Err? ==> r.error == ForeignKeyViolation
      ensures r != Ok(true) ==> rows == old(rows)
      ensures r == Ok(true) ==>
        rows == if id in old(rows) then old(rows)[id := old(rows)[id].(parentId := parentId)] else old(rows)
    {
      if parentId == Some(id) {
        return Ok(false);
      }
      if parentId.Some? {
        if IsDescendant(rows, id, parentId.value) {
          return Ok(false);
        }
      }
      if id !in rows {
        return Ok(true);
      }
      if parentId.Some? && parentId.value !in rows {
        return Err(ForeignKeyViolation);
      }
      var updated := rows[id := rows[id].(parentId := parentId)];
      Reparent(rows, updated, id, parentId);
      rows := updated;
      return Ok(true);
    }

    /** `rename`: resolves the new name from the row's current parent,
        never reusing the row itself as a folder, and moves the row there. */
    method Rename(id: Id, name: string, projectId: int) returns (r: Result<seq<Id>, FileError>, ghost chain: seq<Id>)
      requires Valid()
      modifies this
      ensures Valid()
      ensures name == [] ==> r == Err(BadRequest) && rows == old(rows)
      ensures name != [] && id !in old(rows) ==> r == Err(NotFound) && rows == old(rows)
      ensures name != [] && id in old(rows) ==> r.Ok?
      ensures r.Ok? ==>
        && id in old(rows) && id in rows
        && WalksPath(rows, projectId, old(rows)[id].parentId, FolderSegments(name), chain, Some(id))
        && rows[id] == old(rows)[id].(name := LeafName(name), parentId := EndOf(old(rows)[id].parentId, chain))
        && r.value == NotIn(chain, old(rows))
        && (forall x :: x in rows <==> x in old(rows) || x in r.value)
        && (forall x :: x in old(rows) && x != id ==> rows[x] == old(rows)[x])
    {
      chain := [];
      if name == [] {
        return Err(BadRequest), chain;
      }
      if id !in rows {
        return Err(NotFound), chain;
      }
      var original := rows[id];
      if original.parentId.Some? {
        ParentOutside(rows, id, original.parentId.value);
      }
      var resolved;
      resolved, chain := ResolvePathAndCreateFolders(projectId, name, original.parentId, Some(id));
      assert resolved.Ok?;
      ghost var mid := rows;
      SetNameAndParent(id, resolved.value.fileName, resolved.value.parentId);
      WalkSurvivesUpdate(mid, rows, id, projectId, original.parentId, FolderSegments(name), chain);
      return Ok(resolved.value.createdFolderIds), chain;
    }

    /** The update that ends `rename`. */
    method SetNameAndParent(id: Id, name: string, parent: Option<Id>)
      requires Valid() && id in rows
      requires parent.None? || (parent.value in rows && !InSubtree(rows, id, parent.value))
      modifies this
      ensures Valid()
      ensures rows == old(rows)[id := old(rows)[id].(name := name, parentId := parent)]
    {
      var updated := rows[id := rows[id].(name := name, parentId := parent)];
      Reparent(rows, updated, id, parent);
      rows := updated;
    }

    /** `remove`: deletes the row and everything below it. */
    method Remove(id: Id) returns (r: bool)
      requires Valid()
      modifies this
      ensures Valid()
      ensures r && rows == old(rows) - Subtree(old(rows), id)
    {
      DeleteRecursive(id);
      return true;
    }

    /** `deleteRecursive`: deletes each child's subtree, then the row. */
    method DeleteRecursive(id: Id)
      requires Valid()
      modifies this
      ensures Valid()
      ensures rows == old(rows) - Subtree(old(rows), id)
      decreases |Below(rows, Some(id))|
    {
      ghost var start := rows;
      var children := set c | c in rows && rows[c].parentId == Some(id);
      var todo := children;
      ghost var removed: set<Id> := {};
      while todo != {}
        invariant todo <= children
        invariant Valid()
        invariant DownClosed(start, removed) && removed <= Subtree(start, id) - {id}
        invariant rows == start - removed
        invariant forall c :: c in children && c !in todo ==> Subtree(start, c) <= removed
        decreases todo
      {
        var c :| c in todo;
        BelowShrinks(start, c);
        BelowOfSubtable(rows, start, c);
        DeleteRecursive(c);
        ChildSubtree(start, id, c);
        RemoveMore(start, removed, c);
        removed := removed + Subtree(start, c);
        todo := todo - {c};
      }
      ChildrenCover(start, id, children, removed);
      SubtreeDownClosed(start, id);
      RemoveClosed(start, Subtree(start, id));
      assert rows - {id} == start - Subtree(start, id);
      rows := rows - {id};
    }

    /** `getPathById`: the ancestors of `id`, root first, ending at `id`. */
    method GetPathById(id: Id) returns (r: Result<seq<PathPart>, FileError>)
      requires Acyclic(rows)
      ensures r.Err? <==> exists k: nat :: Up(rows, id, k).Some? && Up(rows, id, k).value !in rows
      ensures r.Err? ==> r.error == NotFound
      ensures r.Ok? ==>
        && |r.value| >= 1 && r.value[|r.value| - 1].id == id && r.value[0].parentId.None?
        && (forall i :: 0 <= i < |r.value| ==>
              r.value[i].id in rows && r.value[i] == PathPart(rows[r.value[i].id].name, r.value[i].id, rows[r.value[i].id].parentId))
        && (forall i :: 1 <= i < |r.value| ==> r.value[i].parentId == Some(r.value[i - 1].id))
    {
      var path: seq<PathPart> := [];
      var current: Option<Id> := Some(id);
      ghost var steps: nat := 0;
      ChainEnds(rows, id);
      while current.Some?
        invariant steps <= |rows| + 1
        invariant current == Up(rows, id, steps)
        invariant |path| == steps
        invariant forall k :: 0 <= k < steps ==>
          Up(rows, id, k).Some? && Up(rows, id, k).value in rows
          && path[steps - 1 - k] == PartOf(rows, Up(rows, id, k).value)
        decreases |rows| + 1 - steps
      {
        if current.value !in rows {
          return Err(NotFound);
        }
        path := [PartOf(rows, current.value)] + path;
        current := rows[current.value].parentId;
        steps := steps + 1;
      }
      forall k: nat | Up(rows, id, k).Some?
        ensures Up(rows, id, k).value in rows
      {
        if k >= steps {
          UpNoneStays(rows, id, steps, k);
        }
      }
      forall i | 0 <= i < |path|
        ensures path[i].id in rows && path[i] == PartOf(rows, path[i].id)
      {
        assert path[i] == PartOf(rows, Up(rows, id, steps - 1 - i).value);
      }
      forall i | 1 <= i < |path|
        ensures path[i].parentId == Some(path[i - 1].id)
      {
        var k := steps - 1 - i;
        assert path[i - 1] == PartOf(rows, Up(rows, id, k + 1).value);
      }
      assert path[0] == PartOf(rows, Up(rows, id, steps - 1).value);
      return Ok(path);
    }

    /** `updateOpen`: sets the flag of one row. */
    method UpdateOpen(id: Id, isOpen: bool) returns (r: bool)
      requires Valid()
      modifies this
      ensures Valid()
      ensures r && rows == if id in old(rows) then old(rows)[id := old(rows)[id].(isOpen := isOpen)] else old(rows)
    {
      if id in rows {
        var updated := rows[id := rows[id].(isOpen := isOpen)];
        SameParentsAcyclic(rows, updated);
        rows := updated;
      }
      return true;
    }

    /** `collapseAll`: closes every folder of the project. */
    method CollapseAll(projectId: int) returns (r: bool)
      requires Valid()
      modifies this
      ensures Valid()
      ensures r && rows == Collapsed(old(rows), projectId)
    {
      SameParentsAcyclic(rows, Collapsed(rows, projectId));
      rows := Collapsed(rows, projectId);
      return true;
    }

    /** `getFileTree`: reads the project's rows in some order and builds the
        forest of its root entries. */
    method GetFileTree(projectId: int) returns (tree: seq<FileTreeNode>, ghost files: seq<Id>)
      requires Valid()
      ensures (forall x :: x in files <==> x in rows && rows[x].projectId == projectId) && NoDuplicates(files)
      ensures tree == BuildTree(rows, files, None)
      ensures forall n :: n in tree ==> n.id in rows && rows[n.id].parentId == None
      ensures forall n :: n in Flatten(tree) ==> Describes(rows, n) && rows[n.id].projectId == projectId
      ensures Placed(rows, files, Flatten(tree))
    {
      var selected: seq<Id> := [];
      var remaining := rows.Keys;
      while remaining != {}
        invariant remaining <= rows.Keys
        invariant forall x :: x in selected <==> x in rows && x !in remaining && rows[x].projectId == projectId
        invariant NoDuplicates(selected)
        decreases remaining
      {
        var x :| x in remaining;
        if rows[x].projectId == projectId {
          selected := selected + [x];
        }
        remaining := remaining - {x};
      }
      files := selected;
      tree := BuildTree(rows, selected, None);
      BuildTreePlaced(rows, selected, None);
      forall n | n in tree
        ensures n.id in rows && rows[n.id].parentId == None
      {
        var k :| 0 <= k < |tree| && tree[k] == n;
        assert Ids(tree)[k] == n.id;
      }
    }
  }

  /** What the walk over `folders[..i]` has established: the rows before the
      walk survive, `chain` follows the segments from `start`, `current` is
      where it got to, `created` lists the folders it inserted, each of which
      is new and lies above `current`, and, under `guard`, `current` is
      outside the excluded row's subtree. */
  ghost predicate Walked(base: Table, rows: Table, projectId: int, start: Option<Id>, folders: seq<string>, i: nat,
                         chain: seq<Id>, current: Option<Id>, created: seq<Id>, excludeId: Option<Id>, guard: bool)
  {
    && i <= |folders|
    && Extends(base, rows)
    && WalksPath(rows, projectId, start, folders[..i], chain, excludeId)
    && current == EndOf(start, chain)
    && (i > 0 ==> current.value in rows)
    && created == NotIn(chain, base)
    && (forall x :: x in rows <==> x in base || x in created)
    && (forall k :: 0 <= k < i && k < |chain| && chain[k] !in base ==>
          NewFolder(base, rows, projectId, folders[k], StepParent(start, chain, k), excludeId, chain[k]))
    && (guard ==> excludeId.Some? && (current.None? || !InSubtree(rows, excludeId.value, current.value)))
    && (forall x :: x in rows && x !in base ==> current.Some? && InSubtree(rows, x, current.value))
  }

  /** What `FindOrCreateFolder` reports on success: folder `f` matches
      under `current`, and either the table is unchanged or `f` is a new open
      folder added where nothing matched. */
  ghost predicate FolderStep(before: Table, rows: Table, projectId: int, name: string, current: Option<Id>,
                             excludeId: Option<Id>, f: Id, isNew: bool)
  {
    && Extends(before, rows)
    && IsFolderMatch(rows, f, projectId, name, current, excludeId)
    && (!isNew ==> rows == before)
    && (isNew ==>
          && f !in before && (current.None? || current.value in before)
          && rows == before[f := FileRow(projectId, current, name, Folder, true)]
          && forall y :: y in before ==> !IsFolderMatch(before, y, projectId, name, current, excludeId))
  }

  /** One step of the walk, from `before` to `rows`, reaching folder `f`. */
  lemma WalkedStep(base: Table, before: Table, rows: Table, projectId: int, start: Option<Id>, folders: seq<string>,
                 i: nat, chain: seq<Id>, current: Option<Id>, created: seq<Id>, excludeId: Option<Id>, guard: bool,
                 f: Id, isNew: bool)
    requires i < |folders|
    requires Walked(base, before, projectId, start, folders, i, chain, current, created, excludeId, guard)
    requires FolderStep(before, rows, projectId, folders[i], current, excludeId, f, isNew)
    requires Acyclic(before) && ParentsExist(before) && Acyclic(rows)
    ensures Walked(base, rows, projectId, start, folders, i + 1, chain + [f], Some(f),
                   if isNew then created + [f] else created, excludeId, guard)
  {
    PathStep(base, before, rows, projectId, start, folders, i, chain, current, created, excludeId, guard, f, isNew);
    SubtreeWalkStep(base, before, rows, projectId, start, folders, i, chain, current, created, excludeId, guard, f, isNew);
    CreatedStep(base, before, rows, projectId, start, folders, i, chain, current, created, excludeId, guard, f, isNew);
  }

  lemma PathStep(base: Table, before: Table, rows: Table, projectId: int, start: Option<Id>, folders: seq<string>,
                 i: nat, chain: seq<Id>, current: Option<Id>, created: seq<Id>, excludeId: Option<Id>, guard: bool,
                 f: Id, isNew: bool)
    requires i < |folders|
    requires Walked(base, before, projectId, start, folders, i, chain, current, created, excludeId, guard)
    requires FolderStep(before, rows, projectId, folders[i], current, excludeId, f, isNew)
    ensures Extends(base, rows) && f in rows
    ensures WalksPath(rows, projectId, start, folders[..i + 1], chain + [f], excludeId)
    ensures Some(f) == EndOf(start, chain + [f])
  {
    WalkExtends(before, rows, projectId, start, folders, i, chain, excludeId, f);
    EndOfAppend(start, chain, f);
    ExtendsTrans(base, before, rows);
  }

  lemma SubtreeWalkStep(base: Table, before: Table, rows: Table, projectId: int, start: Option<Id>, folders: seq<string>,
                 i: nat, chain: seq<Id>, current: Option<Id>, created: seq<Id>, excludeId: Option<Id>, guard: bool,
                 f: Id, isNew: bool)
    requires i < |folders|
    requires Walked(base, before, projectId, start, folders, i, chain, current, created, excludeId, guard)
    requires FolderStep(before, rows, projectId, folders[i], current, excludeId, f, isNew)
    requires Acyclic(before) && ParentsExist(before) && Acyclic(rows)
    ensures !isNew ==> f in base
    ensures forall x :: x in rows && x !in base ==> InSubtree(rows, x, f)
    ensures guard ==> !InSubtree(rows, excludeId.value, f)
  {
    SubtreeStep(base, before, rows, f, current, isNew, excludeId, guard);
  }

  /** How one step of the walk updates the list of created folders. */
  lemma CreatedStep(base: Table, before: Table, rows: Table, projectId: int, start: Option<Id>, folders: seq<string>,
                 i: nat, chain: seq<Id>, current: Option<Id>, created: seq<Id>, excludeId: Option<Id>, guard: bool,
                 f: Id, isNew: bool)
    requires i < |folders|
    requires Walked(base, before, projectId, start, folders, i, chain, current, created, excludeId, guard)
    requires FolderStep(before, rows, projectId, folders[i], current, excludeId, f, isNew)
    requires !isNew ==> f in base
    ensures NotIn(chain + [f], base) == if isNew then created + [f] else created
    ensures forall x :: x in rows <==> x in base || x in (if isNew then created + [f] else created)
    ensures forall k :: 0 <= k < i + 1 && k < |chain + [f]| && (chain + [f])[k] !in base ==>
      NewFolder(base, rows, projectId, folders[k], StepParent(start, chain + [f], k), excludeId, (chain + [f])[k])
  {
    assert |chain| == i;
    NotInAppend(chain, f, base);
    CreatedKeys(base, before, rows, created, f, isNew);
    if isNew {
      NewFolderStays(base, before, rows, f, projectId, start, folders, i, chain, excludeId);
    } else {
      NewFolderSame(base, rows, f, projectId, start, folders, i, chain, excludeId);
    }
  }

  lemma ExtendsTrans(a: Table, b: Table, c: Table)
    requires Extends(a, b) && Extends(b, c)
    ensures Extends(a, c)
  {
  }

  /** A reused folder adds no new-folder obligation. */
  lemma NewFolderSame(base: Table, rows: Table, f: Id, projectId: int, start: Option<Id>,
                      folders: seq<string>, i: nat, chain: seq<Id>, excludeId: Option<Id>)
    requires i < |folders| && |chain| == i && f in base
    requires forall k :: 0 <= k < i && k < |chain| && chain[k] !in base ==>
      NewFolder(base, rows, projectId, folders[k], StepParent(start, chain, k), excludeId, chain[k])
    ensures forall k :: 0 <= k < i + 1 && k < |chain + [f]| && (chain + [f])[k] !in base ==>
      NewFolder(base, rows, projectId, folders[k], StepParent(start, chain + [f], k), excludeId, (chain + [f])[k])
  {
    forall k | 0 <= k < i + 1 && k < |chain + [f]| && (chain + [f])[k] !in base
      ensures NewFolder(base, rows, projectId, folders[k], StepParent(start, chain + [f], k), excludeId, (chain + [f])[k])
    {
      StepParentAppend(start, chain, f, k);
    }
  }

  /** Folder `f` was created by the walk: it is open and no row that existed
      before matched at that step. */
  ghost predicate NewFolder(before: Table, rows: Table, projectId: int, folder: string, parent: Option<Id>, excludeId: Option<Id>, f: Id)
  {
    f in rows && rows[f].isOpen
    && forall y :: y in before ==> !IsFolderMatch(before, y, projectId, folder, parent, excludeId)
  }

  /** How one step of the walk moves the subtree facts from `current` to
      the folder `f` it reached: every folder the walk created lies on the
      path above `f`, so a reused folder is never one of them, and `f` stays
      outside the excluded row's subtree. */
  lemma SubtreeStep(base: Table, before: Table, rows: Table, f: Id, current: Option<Id>, isNew: bool,
                    excludeId: Option<Id>, guard: bool)
    requires Acyclic(before) && ParentsExist(before) && Acyclic(rows)
    requires f in rows && rows[f].parentId == current && Some(f) != excludeId
    requires isNew ==> f !in before && rows == before[f := rows[f]] && (current.None? || current.value in before)
    requires !isNew ==> rows == before
    requires Extends(base, before)
    requires forall x :: x in before && x !in base ==> current.Some? && InSubtree(before, x, current.value)
    requires guard ==> excludeId.Some? && (current.None? || !InSubtree(before, excludeId.value, current.value))
    ensures !isNew ==> f in base
    ensures forall x :: x in rows && x !in base ==> InSubtree(rows, x, f)
    ensures guard ==> !InSubtree(rows, excludeId.value, f)
  {
    if !isNew && f !in base {
      ParentOutside(rows, f, current.value);
    }
    forall x | x in rows && x !in base
      ensures InSubtree(rows, x, f)
    {
      if x != f {
        if isNew {
          InsertKeepsSubtree(before, f, rows[f], x, current.value);
        }
        assert Up(rows, f, 1) == current;
        InSubtreeTrans(rows, x, current.value, f);
      }
    }
    if guard {
      if isNew && current.Some? {
        InsertKeepsSubtree(before, f, rows[f], excludeId.value, current.value);
      }
      ChildOutside(rows, excludeId.value, f, current);
    }
  }

  lemma EndOfAppend(start: Option<Id>, chain: seq<Id>, f: Id)
    ensures EndOf(start, chain + [f]) == Some(f)
  {
  }

  /** The rows after a step are the rows before the walk and the folders it
      created. */
  lemma CreatedKeys(base: Table, before: Table, rows: Table, created: seq<Id>, f: Id, isNew: bool)
    requires forall x :: x in before <==> x in base || x in created
    requires isNew ==> f in rows && rows == before[f := rows[f]]
    requires !isNew ==> rows == before
    ensures forall x :: x in rows <==> x in base || x in (if isNew then created + [f] else created)
  {
  }

  lemma NotInAppend(s: seq<Id>, x: Id, rows: Table)
    ensures NotIn(s + [x], rows) == if x in rows then NotIn(s, rows) else NotIn(s, rows) + [x]
  {
    assert (s + [x])[..|s|] == s;
  }

  lemma WalkExtends(rows: Table, rows': Table, projectId: int, start: Option<Id>, folders: seq<string>, i: nat,
                    chain: seq<Id>, excludeId: Option<Id>, f: Id)
    requires i < |folders|
    requires WalksPath(rows, projectId, start, folders[..i], chain, excludeId)
    requires Extends(rows, rows')
    requires IsFolderMatch(rows', f, projectId, folders[i], EndOf(start, chain), excludeId)
    ensures WalksPath(rows', projectId, start, folders[..i + 1], chain + [f], excludeId)
  {
    var c := chain + [f];
    forall k | 0 <= k < |c|
      ensures IsFolderMatch(rows', c[k], projectId, folders[..i + 1][k], StepParent(start, c, k), excludeId)
    {
      StepParentAppend(start, chain, f, k);
      assert folders[..i + 1][k] == folders[k];
      if k < |chain| {
        assert folders[..i][k] == folders[k];
        assert IsFolderMatch(rows, chain[k], projectId, folders[k], StepParent(start, chain, k), excludeId);
        MatchExtends(rows, rows', chain[k], projectId, folders[k], StepParent(start, chain, k), excludeId);
      }
    }
  }

  /** Extending a walk by one folder keeps the earlier parents; the new
      folder's parent is where the walk had got to. */
  lemma StepParentAppend(start: Option<Id>, chain: seq<Id>, f: Id, k: nat)
    requires k <= |chain|
    ensures StepParent(start, chain + [f], k) == StepParent(start, chain, k)
    ensures k == |chain| ==> StepParent(start, chain, k) == EndOf(start, chain)
  {
    if k > 0 {
      assert (chain + [f])[k - 1] == chain[k - 1];
    }
  }

  /** A match stays a match when rows are only added. */
  lemma MatchExtends(rows: Table, rows': Table, y: Id, projectId: int, name: string, parent: Option<Id>, excludeId: Option<Id>)
    requires Extends(rows, rows') && IsFolderMatch(rows, y, projectId, name, parent, excludeId)
    ensures IsFolderMatch(rows', y, projectId, name, parent, excludeId)
  {
  }

  lemma NewFolderStays(base: Table, rows: Table, rows': Table, f: Id, projectId: int, start: Option<Id>,
                       folders: seq<string>, i: nat, chain: seq<Id>, excludeId: Option<Id>)
    requires i < |folders| && |chain| == i
    requires Extends(base, rows) && f !in rows && f in rows' && rows' == rows[f := rows'[f]] && rows'[f].isOpen
    requires forall y :: y in rows ==> !IsFolderMatch(rows, y, projectId, folders[i], EndOf(start, chain), excludeId)
    requires forall k :: 0 <= k < i && k < |chain| && chain[k] !in base ==>
      NewFolder(base, rows, projectId, folders[k], StepParent(start, chain, k), excludeId, chain[k])
    ensures forall k :: 0 <= k < i + 1 && k < |chain + [f]| && (chain + [f])[k] !in base ==>
      NewFolder(base, rows', projectId, folders[k], StepParent(start, chain + [f], k), excludeId, (chain + [f])[k])
  {
    var c := chain + [f];
    forall k | 0 <= k < i + 1 && k < |c| && c[k] !in base
      ensures NewFolder(base, rows', projectId, folders[k], StepParent(start, c, k), excludeId, c[k])
    {
      if k < i {
        assert NewFolder(base, rows, projectId, folders[k], StepParent(start, chain, k), excludeId, chain[k]);
      } else {
        forall y | y in base
          ensures !IsFolderMatch(base, y, projectId, folders[k], StepParent(start, c, k), excludeId)
        {
          assert !IsFolderMatch(rows, y, projectId, folders[i], EndOf(start, chain), excludeId);
        }
      }
    }
  }

  /** The reply element for a row. */
  function PartOf(rows: Table, x: Id): PathPart
    requires x in rows
  {
    PathPart(rows[x].name, x, rows[x].parentId)
  }

  /** A walk that excludes `id` is not disturbed by rewriting `id`'s row. */
  lemma WalkSurvivesUpdate(rows: Table, rows': Table, id: Id, projectId: int, start: Option<Id>,
                           folders: seq<string>, chain: seq<Id>)
    requires WalksPath(rows, projectId, start, folders, chain, Some(id))
    requires forall x :: x in rows && x != id ==> x in rows' && rows'[x] == rows[x]
    ensures WalksPath(rows', projectId, start, folders, chain, Some(id))
  {
    forall i | 0 <= i < |chain|
      ensures IsFolderMatch(rows', chain[i], projectId, folders[i], StepParent(start, chain, i), Some(id))
    {
      assert IsFolderMatch(rows, chain[i], projectId, folders[i], StepParent(start, chain, i), Some(id));
    }
  }

  /** Strict descendants in a sub-table are strict descendants in the table. */
  lemma BelowOfSubtable(sub: Table, full: Table, c: Id)
    requires forall y :: y in sub ==> y in full && full[y] == sub[y]
    ensures Below(sub, Some(c)) <= Below(full, Some(c))
    ensures |Below(sub, Some(c))| <= |Below(full, Some(c))|
  {
    forall x | x in Below(sub, Some(c))
      ensures x in Below(full, Some(c))
    {
      var n: nat :| 1 <= n && Up(sub, x, n) == Some(c);
      UpInSubtable(sub, full, x, n);
    }
    SubsetCard(Below(sub, Some(c)), Below(full, Some(c)));
  }

  /** A child's subtree lies strictly inside its parent's. */
  lemma ChildSubtree(rows: Table, id: Id, c: Id)
    requires Acyclic(rows) && c in rows && rows[c].parentId == Some(id)
    ensures Subtree(rows, c) <= Subtree(rows, id) - {id}
  {
    ParentOutside(rows, c, id);
    assert Up(rows, c, 1) == Some(id);
    forall x | x in Subtree(rows, c)
      ensures x in Subtree(rows, id)
    {
      InSubtreeTrans(rows, id, c, x);
    }
  }

  /** Removing a further subtree from a table with a closed set removed. */
  lemma RemoveMore(start: Table, removed: set<Id>, c: Id)
    requires DownClosed(start, removed)
    ensures (start - removed) - Subtree(start - removed, c) == start - (removed + Subtree(start, c))
    ensures DownClosed(start, removed + Subtree(start, c))
  {
    forall x | x in start && x !in removed
      ensures InSubtree(start - removed, c, x) <==> InSubtree(start, c, x)
    {
      RemoveClosedSubtree(start, removed, c, x);
    }
    SubtreeDownClosed(start, c);
  }

  /** Once every child's subtree is removed, all of `id`'s subtree but `id` is. */
  lemma ChildrenCover(start: Table, id: Id, children: set<Id>, removed: set<Id>)
    requires children == set c | c in start && start[c].parentId == Some(id)
    requires removed <= Subtree(start, id) - {id}
    requires forall c :: c in children ==> Subtree(start, c) <= removed
    ensures removed == Subtree(start, id) - {id}
  {
    forall x | x in Subtree(start, id) && x != id
      ensures x in removed
    {
      SubtreeByChildren(start, id, x);
      var c :| c in start && start[c].parentId == Some(id) && InSubtree(start, c, x);
      assert x in Subtree(start, c);
    }
  }
}
