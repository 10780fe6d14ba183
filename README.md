# A verified model of the coder editor's core

coder is a browser code editor backed by an RPC server. Its projects hold a
tree of files and folders stored as rows of a `file` table. This Dafny
project models the parts of it that are plain, checkable logic:

- **The editor's tab store** (`EditorStore`, `editor_store.dfy`). For each
  project it keeps the open tabs, the active tab and the preview tab: an
  unpinned tab that the next preview replaces. The model has one pure
  function per action on a project's `TabState`, and a `Store` class whose
  methods replace the map entry of their own project. The server calls the
  store fires without waiting for them are kept as a ghost log.
- **The file-tree procedures** (`FileRpc`, `file_rpc.dfy`, on top of
  `FileSchema` and `FileAncestry`). The `file` table is a map from serial
  ids to rows. The `FileStore` class holds it and carries the table's
  invariants: serial ids, the foreign key on `parent_id` and an acyclic
  parent relation. The procedures are slash-path resolution, `create`,
  `move` with its cycle guard, `rename`, recursive `remove`,
  `getPathById`, `updateOpen`, `collapseAll` and `getFileTree`.
- **Classifiers, validators and parsers**:
  - file-name extension and MIME classification (`FileUtils`);
  - upload size and type validation and file-name sanitising (`UploadConfig`);
  - the GitHub repository URL parser (`GitHub`), with its regular
    expression written out as a segment parser;
  - title truncation (`Utils`);
  - local upload storage (`Storage`): the URL an upload gets, and the
    containment guard that decides which file a delete may unlink. Paths are
    normalised POSIX paths, kept as lists of segments.
- **The chat stream reader** (`ConversationStream`). This is a reduced
  reader of the server-sent events format of the HTML Living Standard,
  section 9.2.6, "Interpreting an event stream". It buffers the text after
  the last LF, reads `data: ` lines, skips `[DONE]` and appends the `delta`
  of each `text-delta` event.
- **Tree walks in the UI**:
  - the file explorer's expanded folders (`FileExplorer`);
  - the open files that start the editor (`ProjectView`);
  - the image preview's `src`, which is a `data:` URL in the syntax of
    RFC 2397, section 3 (`ImagePreview`).

The main results:

- Every tab action keeps two invariants: no tab is open twice, and the
  preview tab is an open tab.
- `move`, `rename` and `create` keep the parent relation acyclic.
- `remove` deletes exactly the subtree of its argument.
- `getPathById` returns the root-first chain of ancestors.
- Every node of `getFileTree`'s reply is a row of the project, placed under its parent, at every depth.
- The GitHub parser is the inverse of a URL formatter, in both directions.
- The upload directory's string prefix test is equivalent to path containment
  by segments, so `..` escapes and the directory itself are never unlinked.
- The streamed content depends only on the concatenated text, not on how it
  was cut into reads.

## Model

| member | source | states |
|---|---|---|
| EditorStore.Store.constructor | src/components/editor/store/use-editor-store.ts:55-57 | The store starts with no tab states and no initialised project. |
| EditorStore.Store.GetTabState | src/components/editor/store/use-editor-store.ts:59-61 | A project without an entry reads as no tabs, no active tab and no preview tab. |
| EditorStore.Store.InitFromServer | src/components/editor/store/use-editor-store.ts:64-74 | Only the first call for a project takes effect: it stores the given tabs and marks the project initialised. Later calls change nothing. |
| EditorStore.OpenFileState | src/components/editor/store/use-editor-store.ts:76-133 | Previewing a closed tab puts it in the old preview's slot with the length kept, or appends it if there was no preview. Pinning a closed tab appends it and keeps the preview. An open tab keeps the list and becomes active; its preview is cleared only when it is pinned. The result is always active, and the state stays well formed. |
| EditorStore.Store.OpenFile | src/components/editor/store/use-editor-store.ts:76-133 | Only the project's entry is replaced, by the `openFile` state, and the open/close calls are logged case by case. |
| EditorStore.IndexOfTab | src/components/editor/store/use-editor-store.ts:139 | The first position of the tab, or -1 exactly when it is not open. |
| EditorStore.SubstituteSlot | src/components/editor/store/use-editor-store.ts:85 | In a list without duplicates, replacing the preview by a tab that is not open puts the new tab in exactly the preview's slot. Every other tab keeps its position, the old preview is gone, and the list still has no duplicates. |
| EditorStore.Without | src/components/editor/store/use-editor-store.ts:143 | Keeps exactly the tabs other than the closed one. |
| EditorStore.WithoutRemovesOne | src/components/editor/store/use-editor-store.ts:143 | On a list without duplicates, filtering removes exactly the one position that holds the tab. |
| EditorStore.CloseTabState | src/components/editor/store/use-editor-store.ts:135-168 | Closing a tab that is not open changes nothing. Otherwise exactly that tab goes, another active tab stays active, a closed preview is cleared, and the state stays well formed. |
| EditorStore.CloseTabNeighbour | src/components/editor/store/use-editor-store.ts:139-154 | Closing the tab at position i removes exactly position i. If it was active, its right neighbour becomes active, else its left neighbour, else none. |
| EditorStore.Store.CloseTab | src/components/editor/store/use-editor-store.ts:135-168 | Replaces only the project's entry by the `closeTab` state, and logs the calls only when the tab was open. |
| EditorStore.CloseCalls | src/components/editor/store/use-editor-store.ts:175-177 | One close call per tab, in tab order. |
| EditorStore.Store.CloseAllTabs | src/components/editor/store/use-editor-store.ts:170-184 | Resets the project to no tabs, no active tab and no preview, and logs a close for every tab that was open. |
| EditorStore.CloseOtherTabsState | src/components/editor/store/use-editor-store.ts:186-211 | Closing others of a tab that is not open changes nothing. Otherwise only that tab stays open, it becomes active, and the preview survives only if it was that tab. |
| EditorStore.Store.CloseOtherTabs | src/components/editor/store/use-editor-store.ts:186-211 | Replaces only the project's entry by the `closeOtherTabs` state, and logs a close for every other tab. |
| EditorStore.CloseTabsToTheRightState | src/components/editor/store/use-editor-store.ts:213-244 | Closing to the right of a tab that is not open changes nothing, and a well-formed state stays well formed. The new tabs, active tab and preview tab of an open tab are stated by CloseTabsToTheRightKeepsPrefix. |
| EditorStore.CloseTabsToTheRightKeepsPrefix | src/components/editor/store/use-editor-store.ts:213-244 | Keeps the prefix that ends at the first occurrence of the tab. The tab becomes active only when the active tab was closed. The preview is dropped when it was closed and kept otherwise. |
| EditorStore.Store.CloseTabsToTheRight | src/components/editor/store/use-editor-store.ts:213-244 | Replaces only the project's entry by that state, and logs a close for every tab to the right. |
| EditorStore.Store.SetActiveTab | src/components/editor/store/use-editor-store.ts:246-254 | Only the project's active tab changes, and the editor state is logged with the old preview. |
| FileRpc.Segments | server/rpc/file.ts:18 | The non-empty `/`-separated parts of a name; none contains `/`. |
| FileRpc.LeafName | server/rpc/file.ts:19-23 | A name with at most one segment is kept verbatim, trailing slash included. Otherwise the last segment is used, which is non-empty and has no `/`. |
| FileRpc.FileStore.constructor | server/lib/schema/others.ts:32-46 | An empty `file` table, which satisfies the table invariants: serial ids, the foreign key on `parent_id` and acyclicity. |
| FileRpc.FileStore.Insert | server/rpc/file.ts:50-59 | An insert with an existing or absent parent gets a fresh serial id, adds exactly that row, keeps the table acyclic and leaves every other row's ancestors unchanged. |
| FileRpc.FileStore.FindOrCreateFolder | server/rpc/file.ts:29-62 | Returns a matching folder under the current parent, other than the excluded id: an existing one with the table unchanged, or a new open folder. A new folder is created only when no match existed. A missing parent is a foreign-key error. |
| FileRpc.FileStore.WalkFolders | server/rpc/file.ts:27-63 | The walk visits one matching folder per segment, each under the previous one. The ids it returns that were not in the table are exactly the folders it created. A walk that starts outside the excluded row's subtree never enters it. |
| FileRpc.FileStore.ResolvePathAndCreateFolders | server/rpc/file.ts:8-66 | A name with at most one segment gives back the name and parent and creates nothing. Otherwise every folder segment is walked from the parent, and `createdFolderIds` lists exactly the new folders, in path order. |
| FileRpc.NotIn | server/rpc/file.ts:61 | The walked ids that were not rows before, in order. |
| FileRpc.FileStore.Create | server/rpc/file.ts:68-126 | An empty name is rejected and a missing parent is a foreign-key error. Otherwise the path is resolved. An existing folder with the same name and parent is returned; a same-name file is a conflict, after which the table holds only the old rows and the folders the walk created. Anything else is a new closed row, named by the last segment under the resolved parent. Every row the call adds is reported. |
| FileRpc.FileStore.CreateEntry | server/rpc/file.ts:90-125 | The duplicate check matches name, type and parent, so a file and a folder may share a name. It returns the folder's id, or a conflict for a file. Otherwise it inserts a new closed row. |
| FileRpc.IsDescendant | server/rpc/file.ts:174-191 | Following the target's parents reaches the ancestor exactly when the ancestor is a strict ancestor of the target. |
| FileRpc.AncestorsShrink | server/rpc/file.ts:190 | A parent has strictly fewer ancestors than its child, so the recursion ends. |
| FileRpc.FileStore.Move | server/rpc/file.ts:159-203 | Returns false and changes nothing exactly when the new parent is the row itself or lies in its subtree. A missing parent is a foreign-key error. Otherwise only the row's parent changes, and the table stays acyclic. |
| FileAncestry.Reparent | server/rpc/file.ts:198-201 | Giving a row a new parent from outside its own subtree keeps the parent relation acyclic. |
| FileAncestry.InsertFresh | server/rpc/file.ts:50-59 | A fresh row under an existing row keeps the table acyclic and leaves every other row's ancestors unchanged. |
| FileRpc.FileStore.Rename | server/rpc/file.ts:205-239 | An empty name is rejected and a missing row is NOT_FOUND. Otherwise the new name is resolved from the row's current parent without reusing the row as a folder. The row gets the last segment and the resolved parent, the created folders are returned, and every other row is unchanged. |
| FileRpc.FileStore.SetNameAndParent | server/rpc/file.ts:234-237 | Only the row's name and parent change, and the table stays valid. |
| FileRpc.FileStore.Remove | server/rpc/file.ts:241-260 | Deletes the row and all of its descendants and nothing else, and answers true. |
| FileRpc.FileStore.DeleteRecursive | server/rpc/file.ts:245-256 | After the children's subtrees and then the row are deleted, the table is the old one minus exactly the row's subtree. |
| FileRpc.ChildrenCover | server/rpc/file.ts:251-255 | Once every child's subtree is gone, everything below the row is gone. |
| FileAncestry.RemoveClosed | server/rpc/file.ts:245-256 | Removing a set closed under children keeps the table acyclic with its foreign key intact. |
| FileAncestry.RemoveClosedSubtree | server/rpc/file.ts:245-256 | After removing a set closed under children, a remaining row lies in a row's subtree exactly when it did before. |
| FileRpc.FileStore.GetPathById | server/rpc/file.ts:286-309 | NOT_FOUND exactly when some ancestor link is missing. Otherwise it returns the ancestors root first, ending at the row itself, each with its row's name and parent, each element's parent being the previous element. |
| FileAncestry.ChainEnds | server/rpc/file.ts:290-307 | In an acyclic table every parent chain reaches a missing or null parent within as many steps as there are rows, so the loop ends. |
| FileRpc.FileStore.UpdateOpen | server/rpc/file.ts:340-353 | Only the one row's open flag changes; a missing id changes nothing. |
| FileRpc.Collapsed | server/rpc/file.ts:359-367 | Exactly the project's folders are closed; files and other projects' rows are unchanged. |
| FileRpc.FileStore.CollapseAll | server/rpc/file.ts:356-369 | The table becomes its collapsed form. |
| FileRpc.ChildrenIn | server/rpc/file.ts:146 | The project rows with the given parent, in table order. |
| FileRpc.BuildTree | server/rpc/file.ts:144-156 | One node per row with the given parent, in order, carrying its row's fields. Each of these folders holds one node per child row, in order; files have no children. |
| FileRpc.BuildLevel | server/rpc/file.ts:145-153 | The nodes for a prefix of the rows, with the same top-level guarantees. |
| FileRpc.BuildLevelPlaced | server/rpc/file.ts:145-153 | Every node at every depth of the nodes built for a prefix of the rows is placed in the same sense. |
| FileRpc.BuildTreePlaced | server/rpc/file.ts:144-156 | At every depth of the built forest, each node is a row of the project carrying its row's fields, and each folder holds exactly the nodes of its children, in order. |
| FileRpc.FileStore.GetFileTree | server/rpc/file.ts:136-157 | Reads every row of the project exactly once, and the reply is the tree built from the roots. Its top-level nodes are root rows. At every depth each node carries its row's fields, belongs to the project, and, when a folder, holds exactly its children. |
| FileSchema.OpenIds | src/components/fileExplorer/index.tsx:41-43 | The open nodes of a kind among a node list; at most one per node. |
| FileSchema.OpenIdsMembers | src/components/fileExplorer/index.tsx:38-49 | An id is collected exactly when some node of that kind with that id is open. |
| FileSchema.FlattenHasChildren | src/components/fileExplorer/index.tsx:44-46 | The walk reaches the children of every folder it reaches, closed folders included. |
| FileExplorer.CollectExpandedIds | src/components/fileExplorer/index.tsx:38-49 | The open folders of the tree, in pre-order, including those below closed folders. |
| FileExplorer.ExpandedUnderClosedFolder | src/components/fileExplorer/index.tsx:44-46 | An open folder inside a closed folder is still collected. |
| FileExplorer.Explorer.constructor | src/components/fileExplorer/index.tsx:56-57 | No folder is expanded and the set is not yet initialised. |
| FileExplorer.Explorer.Initialize | src/components/fileExplorer/index.tsx:83-86 | The first render with a tree expands exactly the tree's open folders. Later renders, or renders without a tree, change nothing. |
| FileExplorer.Explorer.ToggleExpand | src/components/fileExplorer/index.tsx:201-208 | Opening adds the id and closing removes it; other ids are unchanged. The open flag is sent to the server. |
| FileExplorer.Explorer.CollapseAll | src/components/fileExplorer/index.tsx:210-213 | The expanded set becomes empty and the project's collapse is requested. |
| FileExplorer.Explorer.AddCreatedFolders | src/components/fileExplorer/index.tsx:150-157 | Every folder created along a new path is added to the expanded set, and nothing else changes. |
| ProjectView.CollectOpenFiles | src/components/project-id-view.tsx:70-81 | The open files of the tree, in pre-order, found by descending into every node. |
| ProjectView.InitializeEditor | src/components/project-id-view.tsx:66-91 | When the project and its tree are loaded and the store has not seen the project, the store gets the open files with the project's own active and preview tabs. Otherwise nothing changes. |
| FileUtils.GetFileExtension | src/lib/file-utils.ts:89-93 | Empty exactly when the name has no dot, or its only dot is the first character. Otherwise it is the lower-cased suffix from the last dot, which has no further dot. |
| FileUtils.IsBinaryFile | src/lib/file-utils.ts:101-103 | A binary name has a non-empty extension. |
| FileUtils.ExtensionIgnoresCase | src/lib/file-utils.ts:92 | Extension, binary test and MIME type ignore the letter case of the name. |
| FileUtils.IsImageFile | src/lib/file-utils.ts:112-118 | An `image/` MIME type makes a name an image whatever the name, and so does an image extension. Nothing else does. |
| FileUtils.ImagesAreBinaryExceptSvg | src/lib/file-utils.ts:2-56 | A name that is an image by extension is binary exactly when its extension is not `.svg`. |
| FileUtils.GetMimeType | src/lib/file-utils.ts:125-127 | Some exactly when the extension is a key of the table, and then the table's non-empty type for it. Consequently None for an empty or unknown extension, and an `image/` type for every image extension. |
| FileUtils.ImageMimeTypes | src/lib/file-utils.ts:46-69 | Every image extension maps to an `image/` type, and the empty extension maps to nothing. |
| UploadConfig.ValidateFileSize | shared/upload-config.ts:31-40 | Valid exactly when the size is at most 10 MiB, the limit included. Otherwise the size error. |
| UploadConfig.ValidateFileType | shared/upload-config.ts:43-55 | Valid exactly when the type is one of the allowed types; the error names the rejected type. |
| UploadConfig.SanitizeFileName | shared/upload-config.ts:58-60 | Keeps the length, keeps every character of the class `[a-zA-Z0-9._-]` and turns every other into `_`, so no `/` is left. |
| UploadConfig.SanitizeIdempotent | shared/upload-config.ts:58-60 | Sanitising twice is sanitising once. |
| UploadConfig.SanitizeKeepsSafeNames | shared/upload-config.ts:58-60 | A name made only of allowed characters is unchanged. |
| UploadConfig.ValidateFile | shared/upload-config.ts:63-71 | Valid exactly when both checks pass. The size is checked first, so an oversized file of a disallowed type reports the size error. |
| UploadConfig.KnownMimeTypesAllowed | shared/upload-config.ts:4-27 | Every MIME type of the extension table is an allowed upload type. |
| Utils.Truncate | server/lib/utils.ts:1-6 | A string of at most the limit (5 by default) is returned as it is. A longer one becomes its first characters followed by `...`. The result always starts with the kept prefix and is at most 3 longer than it. |
| Utils.TruncateIdempotent | server/lib/utils.ts:1-6 | Truncating a truncated string changes nothing. |
| GitHub.ParseGitHubUrl | server/lib/github.ts:5-20 | A URL is accepted only after `https://github.com/` or `http://github.com/`, and what it yields is well formed: owner and repository are non-empty segments, and the branch is a non-empty segment. |
| GitHub.ParseTail | server/lib/github.ts:7 | The optional `/tree/<branch>[/<path>]` part: nothing gives no branch and an empty path. |
| GitHub.CutAtSlash | server/lib/github.ts:7 | Splits a string into its part before the first `/` and the rest. |
| GitHub.ParseFormat | server/lib/github.ts:5-20 | Parsing a formatted URL gives back the reference, under either scheme, with or without `.git` and a trailing slash on the path. The exception is a repository whose own name would lose a `.git`. |
| GitHub.TailRoundTrip | server/lib/github.ts:7 | Parsing a formatted `/tree/` part gives back the branch and path. |
| GitHub.PathRoundTrip | server/lib/github.ts:7-18 | Parsing the formatted part after the host gives back the reference, with one `.git` stripped. |
| GitHub.ParseOnlyFormatted | server/lib/github.ts:5-20 | Every accepted URL is the formatting of what it parses to, so nothing trailing is accepted. |
| GitHub.PathOnlyFormatted | server/lib/github.ts:7 | Every accepted path after the host is a formatted one. |
| GitHub.TailOnlyFormatted | server/lib/github.ts:7 | Every accepted `/tree/` part is a formatted one. |
| Storage.Step | server/lib/storage.ts:36 | One segment of `path.resolve`: a name is appended, `..` drops the last segment but not past the root, and `.` or empty changes nothing. |
| Storage.Resolve | server/lib/storage.ts:35-36 | Resolution yields a normalised path. |
| Storage.ResolveEmpty | server/lib/storage.ts:35 | Resolving the upload directory alone gives it back. |
| Storage.ResolveSegment | server/lib/storage.ts:23 | Resolving a plain name appends it. |
| Storage.Extname | server/lib/storage.ts:21 | Empty, or a dot followed by neither dot nor slash. |
| Storage.BelowIff | server/lib/storage.ts:37 | The string test "starts with the directory and a separator" holds exactly when the path lies strictly below the directory by segments. |
| Storage.SlashedBelow | server/lib/storage.ts:37 | The same equivalence for the slash-prefixed text of the segments. |
| Storage.UploadUrl | server/lib/storage.ts:29 | `/uploads/` followed by the id and the extension. |
| Storage.DeleteTarget | server/lib/storage.ts:33-37 | A target exists only for a `/uploads/` URL whose remainder resolves strictly below the upload directory. |
| Storage.LocalStorage.constructor | server/lib/storage.ts:14 | The upload directory is `public/uploads` under the working directory. |
| Storage.LocalStorage.Upload | server/lib/storage.ts:16-30 | Writes the contents under the id plus the original extension, and returns the URL. Deleting that URL would unlink exactly this file. |
| Storage.LocalStorage.Delete | server/lib/storage.ts:32-46 | A URL without a target changes nothing. A missing file, or an ENOENT error, is accepted. Any other error is returned and the file stays. Otherwise exactly the target is removed. |
| Storage.UniqueNameIsSegment | server/lib/storage.ts:21-22 | The generated name is a single path segment. |
| Storage.UploadUrlDeletable | server/lib/storage.ts:29-37 | The URL an upload returns passes every guard of `delete` and names the uploaded file. |
| Storage.UploadDirNeverRemoved | server/lib/storage.ts:37 | `/uploads/` itself resolves to the directory and is never unlinked. |
| Storage.DotDotIgnored | server/lib/storage.ts:34-37 | A `..` escape out of the upload directory is never unlinked. |
| Storage.S3Upload | server/lib/storage.ts:55-58 | Always fails. |
| Storage.S3Delete | server/lib/storage.ts:60-63 | Always fails. |
| ConversationStream.Pending | src/components/conversationSidebar.tsx:106 | The buffered text holds no line break. |
| ConversationStream.LineDelta | src/components/conversationSidebar.tsx:108-118 | A line adds text only when it starts with `data: `, its payload is not `[DONE]`, and the payload parses to a `text-delta` event with exactly that non-empty delta. Conversely, every such line adds its event's delta. |
| ConversationStream.ReadChunk | src/components/conversationSidebar.tsx:104-120 | One read keeps the text after the last line break, and appends the deltas of the closed lines in order. |
| ConversationStream.ReadStream | src/components/conversationSidebar.tsx:99-121 | After the reads, the buffer is the text after the last line break of everything received. The content grew by the deltas of exactly the closed lines of that text, in order. |
| ConversationStream.StreamStep | src/components/conversationSidebar.tsx:104-107 | One more read adds the deltas of the lines it closes, counted from the buffered text. |
| ConversationStream.SplitContinues | src/components/conversationSidebar.tsx:105-106 | Framing appended text continues from the pending text, so the cut between reads does not matter. |
| ConversationStream.ContentGrows | src/components/conversationSidebar.tsx:113-114 | Streamed content only grows. |
| ConversationStream.UnterminatedLineIgnored | src/components/conversationSidebar.tsx:105-106 | A last line without a line break adds nothing and stays buffered. |
| ConversationStream.LineProcessed | src/components/conversationSidebar.tsx:107-119 | A closed line is processed once, after the lines before it. |
| ConversationStream.DoneSkipped | src/components/conversationSidebar.tsx:110 | A `data: [DONE]` line adds nothing. |
| ImagePreview.ActualMimeType | src/components/editor/ImagePreview.tsx:21 | A non-empty given type wins, then the extension's type, and `image/png` when neither exists. The result is never empty. |
| ImagePreview.ImageSrc | src/components/editor/ImagePreview.tsx:26-33 | A non-empty file URL is used verbatim. Otherwise the source is a `data:` URL. |
| ImagePreview.ParseDataUrl | src/components/editor/ImagePreview.tsx:30-32 | Splits a `data:` URL (RFC 2397, section 3) at the first comma into its media type, base64 flag and data. |
| ImagePreview.ContentSourceIsDataUrl | src/components/editor/ImagePreview.tsx:29-32 | Without a file URL, the source parses as a `data:` URL. For SVG it has the `image/svg+xml;charset=utf-8` header and the encoded content. Otherwise it has the actual MIME type, the base64 flag and the content verbatim. |
| ImagePreview.MimeTypesHaveNoComma | src/components/editor/ImagePreview.tsx:21 | No type the extension table or the fallback yields contains a comma, so the header ends at the data's comma. |
| ImagePreview.FallbackIsImageType | src/components/editor/ImagePreview.tsx:21 | A file known as an image by its name gets an `image/` type. |

## Left out

- The background-job engine and the workflows for importing from GitHub and streaming messages. They belong to an external package and to network and model I/O.
- The rest of `server/lib/github.ts` (Octokit calls, `importGitHubFiles`), `server/rpc/project.ts`, `conversation.ts`, `ai.ts`, `profile.ts` and `orpc.ts`. These are ORM, authentication and API plumbing. The HTTP upload handlers and the browser upload helpers are left out for the same reason; their validation is modelled through `UploadConfig`.
- `getById`, `getNameById` and `updateContent` in `server/rpc/file.ts`. They are single-row reads and a content write, with nothing to prove beyond the table lookup.
- The `content`, `mimeType` and `fileUrl` columns, and the foreign key from `file.project_id` to `project`. Rows carry only project, parent, name, type and open flag.
- Ids are unbounded positive integers. The 32-bit width of the serial, and a failed insert consuming a serial value, are not modelled.
- FileRpc.FileStore.GetPathById: requires an acyclic table. On a cyclic table the source's loop never ends, and the table invariant rules that table out.
- FileRpc.FileStore.Create: on a conflict it states the table's keys (the old rows plus the folders the walk created), not that the walk created none.
- FileRpc.FileStore.Create and FileRpc.FileStore.FindOrCreateFolder: which of several matching rows `findFirst` returns is left open (any match). The database's choice of order is not modelled.
- FileRpc.FileStore.GetFileTree: the order in which the database returns the project's rows is a ghost output, not a fixed order.
- FileRpc.FileStore.GetFileTree: promises only that what it returns is placed correctly, not that every row appears. As in the source, a row under a file, or under a row of another project, is missing from the reply. `move` can produce such rows because it accepts any existing parent.
- The fire-and-forget server calls of the tab store and the explorer (`saveFileOpen`, `saveToServer`, `updateOpen`, `collapseAll`) are only a ghost log of requests. Their replies and failures are not modelled.
- The explorer's `createFile` success handler also opens the new file in the tab store; that call is not modelled in `FileExplorer.Explorer.AddCreatedFolders`.
- Rendering, dialogs, routing and the react-query wiring: caches, invalidation, and the `initialized` flag as React state.
- `JSON.parse`, `encodeURIComponent` and `randomUUID` are parameters: a parser function, an encoder function and an id that satisfies `IsUuid`.
- `TextDecoder` is left out: the reads are already-decoded text. Multi-byte characters split across reads are not modelled.
- The abort flag of the stream loop only ends the loop early. That is the same as reading fewer chunks, so it is not a separate parameter.
- `toLowerCase` lower-cases ASCII letters only. Strings are sequences of Dafny characters, not UTF-16 code units.
- NaN and negative file sizes are not modelled: sizes are integers.
- `path.resolve` is POSIX normalisation of segments. Windows separators and drive letters are not modelled, and the file system is a map from file paths to contents. Directories, `mkdir`, and write errors are not modelled. `fault` stands for the error `unlink` raises on an existing file.
- Storage.GetPublicUrl: the identity function, modelled without a contract. Its only use is in Storage.LocalStorage.Upload and Storage.UploadUrlDeletable.
- FileRpc.BuildTree: its own contract covers the top level and the children's ids of each top-level folder. Every depth is stated by FileRpc.BuildTreePlaced.
- FileRpc.BuildLevel: the same one-level contract as FileRpc.BuildTree. FileRpc.BuildLevelPlaced states every depth for it.
- EditorStore.CloseTabsToTheRightState: its own contract covers the case where the tab is not open, and well-formedness. The kept prefix, the active tab and the preview tab are stated by EditorStore.CloseTabsToTheRightKeepsPrefix.
- FileUtils.IsBinaryFile: its contract states only that a binary name has an extension. The membership test itself is the definition. Its case-insensitivity is proved in FileUtils.ExtensionIgnoresCase.
