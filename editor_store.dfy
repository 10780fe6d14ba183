/** The editor's tab store: for each project, the open tabs, the active tab
    and the preview tab (an unpinned tab that the next preview replaces). */
module EditorStore {
  import opened Common

  type FileId = SerialId
  type ProjectId = int

  datatype TabState = TabState(
    openTabs: seq<FileId>,
    activeTabId: Option<FileId>,
    previewTabId: Option<FileId>)

  const DefaultTabState := TabState([], None, None)

  /** What every action except `initFromServer` keeps: no tab is open twice
      and the preview tab, when there is one, is an open tab. */
  predicate WellFormed(t: TabState)
  {
    NoDuplicates(t.openTabs) &&
    (t.previewTabId.Some? ==> t.previewTabId.value in t.openTabs)
  }

  /** The fire-and-forget calls the store makes to the server. */
  datatype ServerCall =
    | SaveFileOpen(fileId: FileId, isOpen: bool)
    | SaveEditorState(projectId: ProjectId, activeTabId: Option<FileId>, previewTabId: Option<FileId>)

  // ---------------------------------------------------------------------
  // List operations on the open tabs

  /** `tabs.map(id => id === x ? y : id)` */
  function Substitute(tabs: seq<FileId>, x: FileId, y: FileId): (r: seq<FileId>)
    ensures |r| == |tabs|
    ensures forall i :: 0 <= i < |tabs| ==> r[i] == (if tabs[i] == x then y else tabs[i])
  {
    seq(|tabs|, i requires 0 <= i < |tabs| => if tabs[i] == x then y else tabs[i])
  }

  /** In a list without duplicates, replacing the tab at `i` by a tab that is
      not open puts the new tab in exactly that slot and keeps the list free of
      duplicates. */
  lemma SubstituteSlot(tabs: seq<FileId>, i: nat, y: FileId)
    requires NoDuplicates(tabs) && i < |tabs| && y !in tabs
    ensures var r := Substitute(tabs, tabs[i], y);
      && r == tabs[..i] + [y] + tabs[i + 1..]
      && NoDuplicates(r)
      && tabs[i] !in r
  {
    var r := Substitute(tabs, tabs[i], y);
    forall k | 0 <= k < |tabs| && k != i
      ensures r[k] == tabs[k]
    {
      assert tabs[k] != tabs[i];
    }
    assert r == tabs[..i] + [y] + tabs[i + 1..];
  }

  /** `tabs.filter(id => id !== x)` */
  function Without(tabs: seq<FileId>, x: FileId): (r: seq<FileId>)
    ensures |r| <= |tabs|
    ensures forall y :: y in r <==> y in tabs && y != x
  {
    if tabs == [] then []
    else (if tabs[0] == x then [] else [tabs[0]]) + Without(tabs[1..], x)
  }

  lemma {:induction false} WithoutAppend(tabs: seq<FileId>, y: FileId, x: FileId)
    ensures Without(tabs + [y], x) == Without(tabs, x) + (if y == x then [] else [y])
  {
    if tabs != [] {
      assert (tabs + [y])[1..] == tabs[1..] + [y];
      WithoutAppend(tabs[1..], y, x);
    }
  }

  /** With no duplicates, filtering removes exactly the one position holding `x`. */
  lemma {:induction false} WithoutRemovesOne(tabs: seq<FileId>, i: nat)
    requires NoDuplicates(tabs) && i < |tabs|
    ensures Without(tabs, tabs[i]) == tabs[..i] + tabs[i + 1..]
  {
    if i == 0 {
      WithoutAbsent(tabs[1..], tabs[0]);
    } else {
      WithoutRemovesOne(tabs[1..], i - 1);
      assert tabs[1..][i - 1] == tabs[i];
      assert tabs[1..][..i - 1] == tabs[1..i];
      assert tabs[1..][i..] == tabs[i + 1..];
      assert tabs[..i] == [tabs[0]] + tabs[1..i];
    }
  }

  lemma {:induction false} WithoutAbsent(tabs: seq<FileId>, x: FileId)
    requires x !in tabs
    ensures Without(tabs, x) == tabs
  {
    if tabs != [] {
      WithoutAbsent(tabs[1..], x);
    }
  }

  lemma {:induction false} WithoutKeepsDistinct(tabs: seq<FileId>, x: FileId)
    requires NoDuplicates(tabs)
    ensures NoDuplicates(Without(tabs, x))
  {
    if tabs != [] {
      WithoutKeepsDistinct(tabs[1..], x);
      var rest := Without(tabs[1..], x);
      assert tabs[0] !in rest;
      var r := (if tabs[0] == x then [] else [tabs[0]]) + rest;
      assert forall i, j :: 0 <= i < j < |r| ==> r[i] != r[j] by {
        forall i, j | 0 <= i < j < |r| ensures r[i] != r[j] {
          if tabs[0] != x && i == 0 {
            assert r[j] in rest;
          } else if tabs[0] != x {
            assert r[i] == rest[i - 1] && r[j] == rest[j - 1];
          }
        }
      }
    }
  }

  /** `tabs.indexOf(x)` */
  function IndexOfTab(tabs: seq<FileId>, x: FileId): (r: int)
    ensures -1 <= r < |tabs|
    ensures r == -1 <==> x !in tabs
    ensures r >= 0 ==> tabs[r] == x && x !in tabs[..r]
  {
    if tabs == [] then -1
    else if tabs[0] == x then 0
    else var k := IndexOfTab(tabs[1..], x); if k == -1 then -1 else k + 1
  }

  // ---------------------------------------------------------------------
  // The new state each action computes

  /** `openFile`: preview a tab (replacing the current preview), pin a new
      tab at the end, or activate (and, when pinning, un-preview) an open one. */
  function OpenFileState(t: TabState, fileId: FileId, pinned: bool): (r: TabState)
    ensures r.activeTabId == Some(fileId)
    // Case 1: previewing a tab that is not open
    ensures fileId !in t.openTabs && !pinned ==>
      && r.previewTabId == Some(fileId)
      && (t.previewTabId.None? ==> r.openTabs == t.openTabs + [fileId])
      && (WellFormed(t) && t.previewTabId.Some? ==>
            && |r.openTabs| == |t.openTabs|
            && t.previewTabId.value !in r.openTabs
            && forall i :: 0 <= i < |t.openTabs| ==>
                 r.openTabs[i] == if t.openTabs[i] == t.previewTabId.value then fileId else t.openTabs[i])
    // Case 2: pinning a tab that is not open
    ensures fileId !in t.openTabs && pinned ==>
      r.openTabs == t.openTabs + [fileId] && r.previewTabId == t.previewTabId
    // Case 3: the tab is already open
    ensures fileId in t.openTabs ==>
      && r.openTabs == t.openTabs
      && (r.previewTabId != t.previewTabId <==> pinned && t.previewTabId == Some(fileId))
      && (r.previewTabId != t.previewTabId ==> r.previewTabId == None)
    ensures WellFormed(t) ==> WellFormed(r) && fileId in r.openTabs
  {
    var isOpen := fileId in t.openTabs;
    if !isOpen && !pinned then
      var newTabs :=
        if t.previewTabId.Some? then Substitute(t.openTabs, t.previewTabId.value, fileId)
        else t.openTabs + [fileId];
      var r := TabState(newTabs, Some(fileId), Some(fileId));
      assert WellFormed(t) && t.previewTabId.Some? ==> fileId in newTabs by {
        if WellFormed(t) && t.previewTabId.Some? {
          var k :| 0 <= k < |t.openTabs| && t.openTabs[k] == t.previewTabId.value;
          assert newTabs[k] == fileId;
        }
      }
      r
    else if !isOpen && pinned then
      t.(openTabs := t.openTabs + [fileId], activeTabId := Some(fileId))
    else
      var shouldPin := pinned && t.previewTabId == Some(fileId);
      t.(activeTabId := Some(fileId), previewTabId := if shouldPin then None else t.previewTabId)
  }

  /** The tab that becomes active when the active tab at `index` closes and
      `newTabs` remain: the one now at the same index (its right neighbour),
      else the new last tab, else none. */
  function NextActive(newTabs: seq<FileId>, index: nat): Option<FileId>
  {
    if |newTabs| == 0 then None
    else if index >= |newTabs| then Some(newTabs[|newTabs| - 1])
    else Some(newTabs[index])
  }

  /** `closeTab` */
  function CloseTabState(t: TabState, fileId: FileId): (r: TabState)
    ensures fileId !in t.openTabs ==> r == t
    ensures fileId in t.openTabs ==>
      && fileId !in r.openTabs
      && (forall y :: y in r.openTabs <==> y in t.openTabs && y != fileId)
      && (t.activeTabId != Some(fileId) ==> r.activeTabId == t.activeTabId)
      && (t.previewTabId == Some(fileId) ==> r.previewTabId == None)
      && (t.previewTabId != Some(fileId) ==> r.previewTabId == t.previewTabId)
    ensures WellFormed(t) ==> WellFormed(r)
  {
    var index := IndexOfTab(t.openTabs, fileId);
    if index == -1 then t
    else
      var newTabs := Without(t.openTabs, fileId);
      var newActive := if t.activeTabId == Some(fileId) then NextActive(newTabs, index) else t.activeTabId;
      var newPreview := if t.previewTabId == Some(fileId) then None else t.previewTabId;
      assert NoDuplicates(t.openTabs) ==> NoDuplicates(newTabs) by {
        if NoDuplicates(t.openTabs) { WithoutKeepsDistinct(t.openTabs, fileId); }
      }
      TabState(newTabs, newActive, newPreview)
  }

  /** On a well-formed state, closing the tab at position `i` removes exactly
      that position, and when it was active the right neighbour, else the left
      neighbour, else nothing becomes active. */
  lemma CloseTabNeighbour(t: TabState, i: nat)
    requires WellFormed(t) && i < |t.openTabs|
    ensures CloseTabState(t, t.openTabs[i]).openTabs == t.openTabs[..i] + t.openTabs[i + 1..]
    ensures t.activeTabId == Some(t.openTabs[i]) ==>
      CloseTabState(t, t.openTabs[i]).activeTabId ==
        if i + 1 < |t.openTabs| then Some(t.openTabs[i + 1])
        else if i > 0 then Some(t.openTabs[i - 1])
        else None
  {
    var x := t.openTabs[i];
    var index := IndexOfTab(t.openTabs, x);
    assert index == i;
    WithoutRemovesOne(t.openTabs, i);
    var newTabs := t.openTabs[..i] + t.openTabs[i + 1..];
    if i + 1 < |t.openTabs| {
      assert newTabs[i] == t.openTabs[i + 1];
    } else if i > 0 {
      assert newTabs[|newTabs| - 1] == t.openTabs[i - 1];
    }
  }

  /** `closeOtherTabs` */
  function CloseOtherTabsState(t: TabState, fileId: FileId): (r: TabState)
    ensures fileId !in t.openTabs ==> r == t
    ensures fileId in t.openTabs ==>
      && r.openTabs == [fileId]
      && r.activeTabId == Some(fileId)
      && (r.previewTabId.Some? <==> t.previewTabId == Some(fileId))
      && WellFormed(r)
  {
    if fileId !in t.openTabs then t
    else
      var newPreview := if t.previewTabId == Some(fileId) then t.previewTabId else None;
      TabState([fileId], Some(fileId), newPreview)
  }

  /** Keeping the tabs up to and including position `index`. */
  lemma KeepThrough(tabs: seq<FileId>, index: nat)
    requires index < |tabs|
    ensures var kept := tabs[..index + 1];
      && kept[..index] == tabs[..index]
      && tabs == kept + tabs[index + 1..]
      && (NoDuplicates(tabs) ==> NoDuplicates(kept))
  {
    var kept := tabs[..index + 1];
    assert kept[..index] == tabs[..index];
    assert tabs == kept + tabs[index + 1..];
  }

  /** `closeTabsToTheRight` */
  function CloseTabsToTheRightState(t: TabState, fileId: FileId): (r: TabState)
    ensures fileId !in t.openTabs ==> r == t
    ensures WellFormed(t) ==> WellFormed(r)
  {
    var index := IndexOfTab(t.openTabs, fileId);
    if index == -1 then t
    else
      var tabsToClose := t.openTabs[index + 1..];
      var newTabs := t.openTabs[..index + 1];
      KeepThrough(t.openTabs, index);
      var newActive :=
        if t.activeTabId.Some? && t.activeTabId.value in tabsToClose then Some(fileId) else t.activeTabId;
      var newPreview :=
        if t.previewTabId.Some? && t.previewTabId.value in tabsToClose then None else t.previewTabId;
      TabState(newTabs, newActive, newPreview)
  }

  /** Closing to the right of an open tab keeps the prefix that ends at its
      first occurrence, moves the active tab to it only when the active tab
      was closed, and drops the preview only when the preview was closed. */
  lemma CloseTabsToTheRightKeepsPrefix(t: TabState, fileId: FileId)
    requires fileId in t.openTabs
    ensures var r := CloseTabsToTheRightState(t, fileId);
      var n := |r.openTabs|;
      && 0 < n <= |t.openTabs|
      && r.openTabs == t.openTabs[..n]
      && r.openTabs[n - 1] == fileId
      && fileId !in r.openTabs[..n - 1]
      && (t.activeTabId.Some? && t.activeTabId.value in t.openTabs[n..] ==> r.activeTabId == Some(fileId))
      && (t.activeTabId.None? || t.activeTabId.value !in t.openTabs[n..] ==> r.activeTabId == t.activeTabId)
      && r.previewTabId ==
           (if t.previewTabId.Some? && t.previewTabId.value in t.openTabs[n..] then None else t.previewTabId)
  {
    KeepThrough(t.openTabs, IndexOfTab(t.openTabs, fileId));
  }

  /** The `saveFileOpen(id, false)` calls for closing `ids`, in order. */
  function CloseCalls(ids: seq<FileId>): (r: seq<ServerCall>)
    ensures |r| == |ids|
    ensures forall i :: 0 <= i < |ids| ==> r[i] == SaveFileOpen(ids[i], false)
  {
    seq(|ids|, i requires 0 <= i < |ids| => SaveFileOpen(ids[i], false))
  }

  lemma CloseCallsAppend(ids: seq<FileId>, more: seq<FileId>)
    ensures CloseCalls(ids + more) == CloseCalls(ids) + CloseCalls(more)
  {
  }

  /** The calls `openFile` makes, case by case. */
  function OpenFileCalls(projectId: ProjectId, t: TabState, fileId: FileId, pinned: bool): seq<ServerCall>
  {
    var isOpen := fileId in t.openTabs;
    if !isOpen && !pinned then
      [SaveFileOpen(fileId, true)]
      + (if t.previewTabId.Some? && t.previewTabId.value != fileId then [SaveFileOpen(t.previewTabId.value, false)] else [])
      + [SaveEditorState(projectId, Some(fileId), Some(fileId))]
    else if !isOpen && pinned then
      [SaveFileOpen(fileId, true), SaveEditorState(projectId, Some(fileId), t.previewTabId)]
    else
      [SaveEditorState(projectId, Some(fileId), OpenFileState(t, fileId, pinned).previewTabId)]
  }

  // ---------------------------------------------------------------------
  // The store

  class Store {
    var tabs: map<ProjectId, TabState>
    var initialized: set<ProjectId>
    /** The server calls issued so far, in order (nothing awaits them). */
    ghost var calls: seq<ServerCall>

    constructor ()
      ensures tabs == map[] && initialized == {} && calls == []
    {
      tabs := map[];
      initialized := {};
      calls := [];
    }

    /** `getTabState`: a project without an entry reads as no tabs. */
    function GetTabState(projectId: ProjectId): (r: TabState)
      reads this
      ensures projectId !in tabs ==> r == DefaultTabState
      ensures projectId in tabs ==> r == tabs[projectId]
    {
      if projectId in tabs then tabs[projectId] else DefaultTabState
    }

    /** `initFromServer`: only the first call for a project has an effect. */
    method InitFromServer(projectId: ProjectId, openTabs: seq<FileId>,
                          activeTabId: Option<FileId>, previewTabId: Option<FileId>)
      modifies this
      ensures old(projectId in initialized) ==>
        tabs == old(tabs) && initialized == old(initialized)
      ensures old(projectId !in initialized) ==>
        && tabs == old(tabs)[projectId := TabState(openTabs, activeTabId, previewTabId)]
        && initialized == old(initialized) + {projectId}
      ensures calls == old(calls)
    {
      if projectId in initialized {
        return;
      }
      tabs := tabs[projectId := TabState(openTabs, activeTabId, previewTabId)];
      initialized := initialized + {projectId};
    }

    method OpenFile(projectId: ProjectId, fileId: FileId, pinned: bool)
      modifies this
      ensures tabs == old(tabs)[projectId := OpenFileState(old(GetTabState(projectId)), fileId, pinned)]
      ensures initialized == old(initialized)
      ensures calls == old(calls) + OpenFileCalls(projectId, old(GetTabState(projectId)), fileId, pinned)
    {
      var state := GetTabState(projectId);
      var next := OpenFileState(state, fileId, pinned);
      tabs := tabs[projectId := next];
      calls := calls + OpenFileCalls(projectId, state, fileId, pinned);
    }

    method CloseTab(projectId: ProjectId, fileId: FileId)
      modifies this
      ensures tabs == if fileId in old(GetTabState(projectId)).openTabs
                      then old(tabs)[projectId := CloseTabState(old(GetTabState(projectId)), fileId)]
                      else old(tabs)
      ensures initialized == old(initialized)
      ensures calls == if fileId in old(GetTabState(projectId)).openTabs
        then old(calls) + [SaveFileOpen(fileId, false),
                           SaveEditorState(projectId, CloseTabState(old(GetTabState(projectId)), fileId).activeTabId,
                                                      CloseTabState(old(GetTabState(projectId)), fileId).previewTabId)]
        else old(calls)
    {
      var state := GetTabState(projectId);
      if IndexOfTab(state.openTabs, fileId) == -1 {
        return;
      }
      var next := CloseTabState(state, fileId);
      tabs := tabs[projectId := next];
      calls := calls + [SaveFileOpen(fileId, false), SaveEditorState(projectId, next.activeTabId, next.previewTabId)];
    }

    method CloseAllTabs(projectId: ProjectId)
      modifies this
      ensures tabs == old(tabs)[projectId := DefaultTabState]
      ensures initialized == old(initialized)
      ensures calls == old(calls) + CloseCalls(old(GetTabState(projectId)).openTabs)
                      + [SaveEditorState(projectId, None, None)]
    {
      var state := GetTabState(projectId);
      for i := 0 to |state.openTabs|
        invariant tabs == old(tabs) && initialized == old(initialized)
        invariant calls == old(calls) + CloseCalls(state.openTabs[..i])
      {
        assert CloseCalls(state.openTabs[..i + 1]) == CloseCalls(state.openTabs[..i]) + [SaveFileOpen(state.openTabs[i], false)];
        calls := calls + [SaveFileOpen(state.openTabs[i], false)];
      }
      assert state.openTabs[..|state.openTabs|] == state.openTabs;
      tabs := tabs[projectId := DefaultTabState];
      calls := calls + [SaveEditorState(projectId, None, None)];
    }

    method CloseOtherTabs(projectId: ProjectId, fileId: FileId)
      modifies this
      ensures tabs == if fileId in old(GetTabState(projectId)).openTabs
                      then old(tabs)[projectId := CloseOtherTabsState(old(GetTabState(projectId)), fileId)]
                      else old(tabs)
      ensures initialized == old(initialized)
      ensures calls == if fileId in old(GetTabState(projectId)).openTabs
        then old(calls) + CloseCalls(Without(old(GetTabState(projectId)).openTabs, fileId))
             + [SaveEditorState(projectId, Some(fileId), CloseOtherTabsState(old(GetTabState(projectId)), fileId).previewTabId)]
        else old(calls)
    {
      var state := GetTabState(projectId);
      if fileId !in state.openTabs {
        return;
      }
      for i := 0 to |state.openTabs|
        invariant tabs == old(tabs) && initialized == old(initialized)
        invariant calls == old(calls) + CloseCalls(Without(state.openTabs[..i], fileId))
      {
        var id := state.openTabs[i];
        assert state.openTabs[..i + 1] == state.openTabs[..i] + [id];
        WithoutAppend(state.openTabs[..i], id, fileId);
        var kept := Without(state.openTabs[..i], fileId);
        var added := if id == fileId then [] else [id];
        CloseCallsAppend(kept, added);
        AppendAssoc(old(calls), CloseCalls(kept), CloseCalls(added));
        calls := calls + CloseCalls(added);
      }
      assert state.openTabs[..|state.openTabs|] == state.openTabs;
      var next := CloseOtherTabsState(state, fileId);
      tabs := tabs[projectId := next];
      calls := calls + [SaveEditorState(projectId, Some(fileId), next.previewTabId)];
    }

    method CloseTabsToTheRight(projectId: ProjectId, fileId: FileId)
      modifies this
      ensures tabs == if fileId in old(GetTabState(projectId)).openTabs
                      then old(tabs)[projectId := CloseTabsToTheRightState(old(GetTabState(projectId)), fileId)]
                      else old(tabs)
      ensures initialized == old(initialized)
      ensures fileId !in old(GetTabState(projectId)).openTabs ==> calls == old(calls)
      ensures fileId in old(GetTabState(projectId)).openTabs ==>
        var t := old(GetTabState(projectId));
        var r := CloseTabsToTheRightState(t, fileId);
        calls == old(calls) + CloseCalls(t.openTabs[|r.openTabs|..])
                 + [SaveEditorState(projectId, r.activeTabId, r.previewTabId)]
    {
      var state := GetTabState(projectId);
      var tabIndex := IndexOfTab(state.openTabs, fileId);
      if tabIndex == -1 {
        return;
      }
      var tabsToClose := state.openTabs[tabIndex + 1..];
      for i := 0 to |tabsToClose|
        invariant tabs == old(tabs) && initialized == old(initialized)
        invariant calls == old(calls) + CloseCalls(tabsToClose[..i])
      {
        assert CloseCalls(tabsToClose[..i + 1]) == CloseCalls(tabsToClose[..i]) + [SaveFileOpen(tabsToClose[i], false)];
        calls := calls + [SaveFileOpen(tabsToClose[i], false)];
      }
      assert tabsToClose[..|tabsToClose|] == tabsToClose;
      var next := CloseTabsToTheRightState(state, fileId);
      tabs := tabs[projectId := next];
      calls := calls + [SaveEditorState(projectId, next.activeTabId, next.previewTabId)];
    }

    method SetActiveTab(projectId: ProjectId, fileId: FileId)
      modifies this
      ensures tabs == old(tabs)[projectId := old(GetTabState(projectId)).(activeTabId := Some(fileId))]
      ensures initialized == old(initialized)
      ensures calls == old(calls) + [SaveEditorState(projectId, Some(fileId), old(GetTabState(projectId)).previewTabId)]
    {
      var state := GetTabState(projectId);
      tabs := tabs[projectId := state.(activeTabId := Some(fileId))];
      calls := calls + [SaveEditorState(projectId, Some(fileId), state.previewTabId)];
    }
  }
}
