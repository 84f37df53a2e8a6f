# Verified models of alist's storage drivers

alist puts one file-server interface in front of many storage services. Most of a driver is calls to a
remote service; what is modelled here is the logic between the calls: trees that are rewritten bottom-up,
a forest whose nodes share lists, files cut into slices and put together again, directories over a flat
store, a line format with its parser, and the small codecs. Remote calls are an abstract store that may
fail at any call, and on failure may or may not have done what was asked.

`dafny verify dfyconfig.toml` checks the whole project (Dafny 4.11).

## The parts

**GitHub driver** (`Paths`, `GitTrees`, `GitMoves`, `GitRuns`, `CommonAncestor`, `GithubDriver`). A git
object stands for its own id, which makes ids injective, typed and acyclic; the server's listing order is
any enumeration. Every write rewrites a directory and re-hangs it level by level up to the root.
`renewParentTrees` looks for the child to replace *by id*, so it can hit an earlier sibling that holds an
equal object: with two empty directories `/a` and `/b`, a file put into one of them arrives in the other
(`TwinsMixUp`). The theorems therefore are if-and-only-ifs: a write produces exactly the intended root
when, and only when, no directory on the rewritten path has an equal sibling listed before it, or the
change is void (`RehungIff`, `MoveIff`, `OutcomeIff`). The invariant of the snapshots needs no such
condition and is kept by every call of every run, failing ones included (`RunKept`); the other theorems do
not need it and hold of every tree. Of a tree only what git itself demands of names is assumed. What the code
does on the rest of `Move`'s inputs is modelled too: the guard compares strings, so `/aa` cannot be moved to
`/aab`; a move in place always indexes an empty string, and the error "cannot move in place" is never reached
(`NeverInPlace`); `getPathCommonAncestor` indexes out of range on exactly the paths that `Trips` describes.
`Passes` collects these conditions; a write that is refused without a failed remote call is one whose
conditions do not hold.

**Doubao share** (`VirtualPaths`, `ShareForest`, `ShareRouting`). Nodes are copied by value and share a
list of children; the map grows while it is ranged over. All results hold for every iteration order. A
node that an iteration inserts and then visits is linked twice, never more and never to another parent.

**Upload protocol** (`UploadProtocol`, `UploadSlices`). Baidu's `Put` and 189's `FastUpload` as one state machine: runs,
workers, cancellation, the saved progress and its expiry interleave freely.

**Azure** (`PathJoin`, `BlobFolders`, `BlobMoves`). A directory is a name prefix. A move copies every blob
and then deletes files first and directories deepest first; deletion errors are retried once and then
swallowed. The ghost field `trouble` notes that some remote call has failed; while it is false, every call goes
through. Whether the files survive depends on the two paths alone: a file is lost when its target is a name
that the deletion asks for (`Asked`), or when another file is copied over it later. `NothingLost` and
`ArrivedIff` say so for all names. The driver runs into this: `List` gives a directory with a slash at its end,
`path.Dir` in `Rename` takes off that slash only, so the directory is moved into itself and all its files
are deleted (`RenameGoesInside`, `AllLost`); a file renamed to its own name is deleted as well (`MoveFile`).
Deletion asks for directory markers without their slash, so a marker `src/x/` of a nested directory stays
behind, while a blob named like the source without its slash is removed.

**123 link list** (`Texts`, `LinkTree`, `LinkLines`, `LinkNodes`, `LinkSizes`). The indentation parser as
a stack of heap nodes, the printed form it inverts, search by path and the folder sizes.

**HalalCloud** (`SliceReader`, `SliceLinks`, `Batching`). A reader over slices fetched one at a time, the sizes of its
chunks, and the requests for the slices' addresses.

**Codecs and arithmetic** (`UriEncoding`, `Base64Hex`, `Md5Scramble`, `FileSplit`, `PortMapper`).
`SplitFile` gives no chunk at all for a file of exactly nine gigabytes and then takes the first one.

## Model

| member | source | states |
|---|---|---|
| GitTrees.RehungIff | alist-backend/drivers/github/driver.go:747-772 | Re-hanging by id replaces exactly the object at the path, and nothing else, if and only if no directory on the path has an equal sibling listed earlier or nothing changes |
| GitTrees.NoTwinIff | alist-backend/drivers/github/driver.go:753-760 | That condition read off the listings: in no directory on the path is a name with an equal object listed before the path's own |
| GitTrees.RehungStale | alist-backend/drivers/github/driver.go:753-760 | With such a sibling the path still shows the old object |
| GitTrees.RehungChanges | alist-backend/drivers/github/driver.go:747-772 | A change below always changes the root |
| GitTrees.RehungShaped | alist-backend/drivers/github/driver.go:747-772 | Re-hanging keeps what git guarantees of names and, where it was there before, every directory non-empty and `.gitkeep` alone |
| GitTrees.KeptIff | alist-backend/drivers/github/driver.go:186-222 | The shape that runs keep, directory by directory: not empty, `.gitkeep` only alone and a file, every name one that git accepts |
| GitTrees.RehungConcat | alist-backend/drivers/github/driver.go:748-770 | Climbing to an ancestor and from there to the root is climbing to the root; what renewParentTrees returns therefore completes to the full climb |
| GitTrees.Acyclic | alist-backend/drivers/github/driver.go:747-772 | No tree contains its own id |
| GitTrees.OrderExists | alist-backend/drivers/github/driver.go:789-805 | There is an order to list every directory in, so what holds for every valid order is not idle |
| GitMoves.MoveIff | alist-backend/drivers/github/driver.go:247-469 | For every tree and every source but `.gitkeep`, in all three branches: the root that Move commits is the old root with the source detached and its subtree attached in the destination, if and only if the chains it re-hangs are free of equal earlier siblings or void (and the source does not come from within a lone `.gitkeep` directory of the destination) |
| GitMoves.MovedLooks | alist-backend/drivers/github/driver.go:247-469 | What the intended move means for each single path, with modes and contents: what was at or below the source is below the new entry, what the entry replaces is gone, `.gitkeep` comes and goes with the last entry, and all other paths are as they were |
| GitMoves.MovedIsLocal | alist-backend/drivers/github/driver.go:413-449 | A move changes nothing above the last common directory but that directory |
| GitMoves.StepDownIff | alist-backend/drivers/github/driver.go:258-301 | The first branch is right exactly when the chain to the destination is free of equal earlier siblings or void |
| GitMoves.StepUpIff | alist-backend/drivers/github/driver.go:302-376 | The second branch is right exactly when the chain to the source is, or when the arriving entry replaces that chain; the destination must not be a directory that holds only `.gitkeep`, which would have to go |
| GitMoves.StepAcrossIff | alist-backend/drivers/github/driver.go:377-449 | The third branch is right exactly when both chains are |
| GitMoves.MoveChanges | alist-backend/drivers/github/driver.go:247-469 | A move is never void, neither as it is meant nor as it is done |
| GitMoves.AttachLooks | alist-backend/drivers/github/driver.go:907-923 | Attaching an entry puts all that it holds below the new name, takes away a lone `.gitkeep`, and leaves every other path as it was |
| GitMoves.DetachLooks | alist-backend/drivers/github/driver.go:330-346 | Detaching takes away exactly the entry and all below it, puts an empty `.gitkeep` in its place if it was alone, and leaves every other path as it was |
| GitMoves.RenamedLooks | alist-backend/drivers/github/driver.go:484-501 | Renaming takes everything at or below the source to the same place below the new name |
| GitMoves.LookIsResolve | alist-backend/drivers/github/driver.go:789-805 | What is to be seen at a path, by its own recursion, is what the path resolves to |
| GitRuns.OutcomeIff | alist-backend/drivers/github/driver.go:186-665 | On every tree, each of the six writes does exactly what it is for if and only if its rewritten paths are free of equal earlier siblings or the change is void |
| GitRuns.VoidIff | alist-backend/drivers/github/driver.go:186-665 | A write changes the root if and only if it is meant to, even where it changes the wrong place |
| GitRuns.FileIsPut | alist-backend/drivers/github/driver.go:613-665 | At a clear path, a file that is put is there with its content and mode 100644, nothing is below it, and every other path is as it was, a lone `.gitkeep` apart |
| GitRuns.DirIsMade | alist-backend/drivers/github/driver.go:186-245 | At a clear path, a new directory is there with an empty `.gitkeep` as its sole entry, and every other path is as it was, a lone `.gitkeep` apart |
| GitRuns.SourceIsCopied | alist-backend/drivers/github/driver.go:524-555 | At a clear path, everything at or below the source is also below the copy |
| GitRuns.SourceIsMoved | alist-backend/drivers/github/driver.go:247-469 | At clear paths, everything at or below the source is below the destination and no longer at its old place |
| GitRuns.SourceIsRenamed | alist-backend/drivers/github/driver.go:471-522 | At a clear path, everything at or below the old name is below the new one and no longer at the old |
| GitRuns.SourceIsRemoved | alist-backend/drivers/github/driver.go:557-611 | At a clear path, the source and all below it is gone, and its directory stays |
| GitRuns.AppliesIff | alist-backend/drivers/github/driver.go:186-665 | When each write applies, in terms of what is to be seen at its paths |
| GitRuns.OutcomeKept | alist-backend/drivers/github/driver.go:186-665 | Each write keeps the names; and it keeps every directory non-empty and `.gitkeep` only as a sole entry, if that held before |
| GitRuns.RunKept | alist-backend/drivers/github/driver.go:186-665 | In every snapshot of every run of the six writes, failing ones included, each directory is non-empty and holds `.gitkeep` only as its sole entry |
| GitRuns.TwinsMixUp | alist-backend/drivers/github/driver.go:753-760 | With two new directories, a file put into one arrives in the other, whichever is listed first |
| GitRuns.TwinsKept | alist-backend/drivers/github/driver.go:206-222 | The tree in which that happens has the shape that runs keep |
| CommonAncestor.GetPathCommonAncestor | alist-backend/drivers/github/util.go:60-96 | The index loops compute the walk on characters, with every index and slice out of range as a panic |
| CommonAncestor.WalkIsCommonAncestor | alist-backend/drivers/github/util.go:60-96 | On clean paths the walk returns the last common directory and, on both sides, the next component and all below it, or panics, exactly as the components decide |
| GithubDriver.Github.GetTreeDirectly | alist-backend/drivers/github/driver.go:789-805 | The listing of a directory of the branch's head |
| GithubDriver.Github.NewTree | alist-backend/drivers/github/driver.go:807-825 | A new tree is the base tree with the edits laid over it |
| GithubDriver.Github.Commit | alist-backend/drivers/github/driver.go:827-868 | On success the head is the new root; on failure it is the old or the new one |
| GithubDriver.Github.RenewParentTrees | alist-backend/drivers/github/driver.go:747-772 | The climb always ends and succeeds only towards an ancestor; from the right object it returns the re-hung tree there, which hung in at that ancestor completes the whole climb; it is refused only if `until` is no ancestor or the start is not the object at the path |
| GithubDriver.Github.CopyWithoutRenewTree | alist-backend/drivers/github/driver.go:885-928 | The destination with the source's entry attached, and the source's directory as listed; refused only if there is no such source or destination, or the source is a submodule |
| GithubDriver.Github.MakeDir | alist-backend/drivers/github/driver.go:186-245 | On every head: it stays or moves to the command's outcome; success means the outcome, which is the intended one exactly when the path is clear; failed remote calls apart, it succeeds exactly on a branch where the command applies; the shape of `GitRuns.RunKept` is kept |
| GithubDriver.Github.Put | alist-backend/drivers/github/driver.go:613-665 | The same for putting a file |
| GithubDriver.Github.Copy | alist-backend/drivers/github/driver.go:524-555 | The same for copying; refused besides when the destination's path starts with the source's |
| GithubDriver.Github.Rename | alist-backend/drivers/github/driver.go:471-522 | The same for renaming |
| GithubDriver.Github.Remove | alist-backend/drivers/github/driver.go:557-611 | The same for removing |
| GithubDriver.Github.Move | alist-backend/drivers/github/driver.go:247-469 | The same for moving, over the driver's three branches; refused besides exactly when its string comparisons disagree with the components (`Passes`) |
| GithubDriver.Github.MoveDown | alist-backend/drivers/github/driver.go:258-301 | First branch: on success the root is the move's; refused only if an operand does not fit or the destination is not below the source's directory by components |
| GithubDriver.Github.MoveUp | alist-backend/drivers/github/driver.go:302-376 | Second branch: on success the root is the move's; refused only if an operand does not fit or the source's directory is not in the destination by components |
| GithubDriver.Github.MoveAcross | alist-backend/drivers/github/driver.go:377-449 | Third branch: on success the root is the move's; refused only if an operand does not fit or the walk to the common directory trips |
| GithubDriver.NextPartIs | alist-backend/drivers/github/driver.go:265-274 | The characters after a directory's path give the next component of a path below it, at the root too |
| GithubDriver.NeverInPlace | alist-backend/drivers/github/driver.go:345-354 | The second branch never finds the source directly in the destination |
| GithubDriver.InPlaceRefused | alist-backend/drivers/github/driver.go:258-268 | A move in place is always refused, by an index out of range |
| GithubDriver.CrossingRefused | alist-backend/drivers/github/util.go:76-92 | A source below a directory whose name starts the destination's name makes the walk panic; `CrossingPanics` is such an input |
| GithubDriver.SiblingRefused | alist-backend/drivers/github/driver.go:251-253 | The guard takes `/aab` for a place inside `/aa` and refuses a move that applies |
| GithubDriver.UnlikePasses | alist-backend/drivers/github/driver.go:247-469 | When of two names at the same place none is the beginning of the other, only a move into itself or in place is refused |
| ShareForest.RootMap.EnsurePathExists | alist-backend/drivers/doubao_share/util.go:375-407 | Missing nodes above a path are created and each is linked to its parent once; existing nodes and links stay |
| ShareForest.RootMap.Visit | alist-backend/drivers/doubao_share/util.go:312-330 | One turn of the range loop links the visited node once more and keeps the count of every other node |
| ShareForest.RootMap.BuildTreeStructure | alist-backend/drivers/doubao_share/util.go:298-333 | For every iteration order the map holds exactly the component prefixes of the shares; every node below another is in its parent's list, once if it is a share, at most twice otherwise |
| ShareForest.RootMap.ExtractTopLevelNodes | alist-backend/drivers/doubao_share/util.go:336-372 | The root shares and then exactly the nodes whose parent is not in the map, each once |
| ShareForest.ReachableIsClosure | alist-backend/drivers/doubao_share/util.go:298-407 | The paths reachable through the shared lists are exactly the component-prefix closure of the shares, and no walk comes back to a path |
| ShareForest.WalkStays | alist-backend/drivers/doubao_share/util.go:298-372 | Every copy that a walk meets is the map's own node, one level further down |
| ShareRouting.DetectPathConflicts | alist-backend/drivers/doubao_share/util.go:265-295 | Passes if and only if no share lies below a share with another id |
| ShareRouting.SearchIsLongestMatch | alist-backend/drivers/doubao_share/util.go:453-495 | The search returns the node with the longest virtual path at or above the query and the rest of the query; only when there is none, the first share of the root directory whose id is the query's first part, and what is behind it |
| ShareRouting.ShareGetsItsPaths | alist-backend/drivers/doubao_share/util.go:265-295 | A query at or below a share is routed to that share, with the right rest, if and only if no node of the forest lies between them; after the conflict check the id is the share's exactly when the nearest node is a configured share (or the share's id is empty) |
| ShareRouting.AloneGetsItsPaths | alist-backend/drivers/doubao_share/util.go:265-295 | After the conflict check, a share with no share of the same id beneath it gets every query at or below it |
| ShareRouting.NodeByPathIff | alist-backend/drivers/doubao_share/util.go:438-450 | A node is found for exactly the paths of the closure, and it is the map's node |
| VirtualPaths.StepToward | alist-backend/drivers/doubao_share/util.go:453-495 | Between a path and one below it there is a child on the way |
| VirtualPaths.ParentIs | alist-backend/drivers/doubao_share/util.go:395-397 | A path with a slash has a parent, which is all before its last slash |
| UploadProtocol.AlwaysInv | alist-backend/drivers/baidu_netdisk/driver.go:262-344 | Over every interleaving, sent slices and listed ones cover the upload, nothing else is listed, and no two holders hold the same progress |
| UploadProtocol.CreateComesLast | alist-backend/drivers/baidu_netdisk/driver.go:328-344 | Create is issued only after every slice of the upload has been sent |
| UploadProtocol.CreateCompletesList | alist-backend/drivers/baidu_netdisk/driver.go:262-344 | Every create comes after a precreate in the same session, and each part of the list that this precreate was answered with has been uploaded in that session |
| UploadProtocol.UploadedWasSent | alist-backend/drivers/baidu_netdisk/driver.go:295-330 | Nothing counts as uploaded that no worker has sent for that session and part |
| UploadProtocol.OneSliceRun | alist-backend/drivers/baidu_netdisk/driver.go:262-352 | The upload of one slice does run from precreate to create |
| UploadProtocol.SavedIsExclusive | alist-backend/drivers/base/upload.go:16-31 | A saved progress is resumed by one run only and misses no slice |
| UploadProtocol.StepKeepsInv | alist-backend/drivers/189pc/utils.go:694-766 | Each step of a run, a worker, a cancellation or the cache keeps the invariant |
| UploadProtocol.SliceFilter | alist-backend/drivers/baidu_netdisk/driver.go:336 | The filter keeps what is still to send, in order |
| UploadProtocol.RemainingPending | alist-backend/drivers/189pc/utils.go:753-756 | Filtering loses no pending slice and leaves only pending ones |
| UploadProtocol.RemainingConcat | alist-backend/drivers/baidu_netdisk/driver.go:336 | Filtering works entry by entry and keeps the order |
| UploadProtocol.StartRun | alist-backend/drivers/baidu_netdisk/driver.go:262-284 | Taking a progress out of the cache, or a new one after a miss, is one step of the protocol and keeps its invariant; the new one lists every part it was answered with, in order, and no worker has started |
| UploadProtocol.SaveRun | alist-backend/drivers/baidu_netdisk/driver.go:333-338 | Filtering a cancelled run's list and saving it is one step of the protocol and loses no slice that is still to send |
| UploadProtocol.SaveThenStart | alist-backend/drivers/base/upload.go:16-31 | What one run saves is what the next run under the key takes: every slice still to send, none that was sent, and no longer in the cache |
| UploadSlices.HashSlices | alist-backend/drivers/baidu_netdisk/driver.go:206-246 | The block list has one entry for each part, and each is the section that a worker sends for it |
| UploadSlices.BlocksAre | alist-backend/drivers/baidu_netdisk/driver.go:206-246 | When the stream is as long as announced, block number n is the stream from n slice sizes on, for one slice size or to the end |
| UploadSlices.SectionsTile | alist-backend/drivers/baidu_netdisk/driver.go:298-311 | Every byte of the file lies in the section of exactly one part |
| UploadSlices.SectionIs | alist-backend/drivers/baidu_netdisk/driver.go:298-301 | Part number n starts n slice sizes into the file and ends one slice size further or with the file |
| Batching.BatchesAreSmall | alist-backend/drivers/azure_blob/util.go:91-94 | The batches are consecutive, all full but the last, which is neither empty nor larger, and together the whole list |
| BlobFolders.DeepestFirst | alist-backend/drivers/azure_blob/util.go:162-186 | No directory is asked for before a deeper one |
| BlobFolders.InnerFirst | alist-backend/drivers/azure_blob/util.go:162-186 | A directory inside another is asked for in an earlier request |
| BlobFolders.DirBatchesComplete | alist-backend/drivers/azure_blob/util.go:162-186 | The requests for directories ask for exactly the directories |
| BlobFolders.Container.FlattenListBlobs | alist-backend/drivers/azure_blob/util.go:59-83 | Every blob under the prefix once |
| BlobFolders.Container.SubmitBatch | alist-backend/drivers/azure_blob/util.go:96-125 | On success the batch is gone; on failure any part of it |
| BlobFolders.Container.BatchDeleteBlobs | alist-backend/drivers/azure_blob/util.go:86-129 | On success exactly the named blobs are gone, in batches of at most 128; on failure no other blob is |
| BlobFolders.Container.DeleteDirs | alist-backend/drivers/azure_blob/util.go:161-186 | The directories go depth by depth, deepest first |
| BlobFolders.GroupByDepth | alist-backend/drivers/azure_blob/util.go:162-167 | The groups are the directories of each depth, in listing order |
| BlobFolders.Container.DeleteEmptyDirectory | alist-backend/drivers/azure_blob/util.go:383-401 | The marker without its slash goes, or else the one with it |
| BlobFolders.Container.DeleteFolder | alist-backend/drivers/azure_blob/util.go:132-191 | On success exactly the swept names are gone, files before directories; on failure nothing but swept names is |
| BlobFolders.Container.MkDir | alist-backend/drivers/azure_blob/util.go:240-257 | An empty marker with a trailing slash |
| BlobFolders.Container.CopyFile | alist-backend/drivers/azure_blob/util.go:204-218 | The destination has the source's content; a missing source fails |
| BlobFolders.Container.CopyItems | alist-backend/drivers/azure_blob/util.go:279-299 | Some first part of the items has been copied, all of them on success; without a failed remote call it stops only at an item that was not there |
| BlobFolders.Container.DeleteFolderOrGiveUp | alist-backend/drivers/azure_blob/util.go:308-315 | The deletion is tried twice and then given up; only swept names go |
| BlobFolders.Container.MoveFolder | alist-backend/drivers/azure_blob/util.go:268-318 | All items copied and then any part of the source swept, the whole of it if a deletion went through; without a failed remote call the whole move goes through |
| BlobFolders.Container.MoveFile | alist-backend/drivers/azure_blob/util.go:320-328 | The copy is made; the source is gone or still there. Without a failed remote call the content is at the destination if and only if that is another name than the source; and for two names it is never lost, whatever fails |
| PathJoin.JoinPlain | alist-backend/drivers/azure_blob/util.go:282 | Joining a clean directory with a clean relative name, slash at the end or not, appends it |
| PathJoin.CleanEnd | alist-backend/drivers/azure_blob/util.go:282 | A joined path ends in a slash only if it is the root |
| PathJoin.CleanRules | alist-backend/drivers/azure_blob/util.go:282 | `path.Clean`: two slashes are one, a dot is nothing, and a double dot takes back the name before it |
| PathJoin.CleanRoot | alist-backend/drivers/azure_blob/util.go:282 | At the root a double dot is nothing |
| PathJoin.DirOfListed | alist-backend/drivers/azure_blob/driver.go:175-176 | `path.Dir` of a directory that is listed with its slash is the directory itself |
| BlobMoves.TargetIs | alist-backend/drivers/azure_blob/util.go:279-298 | A blob keeps its name below the directory; a directory gets its slash |
| BlobMoves.CopyAllWrites | alist-backend/drivers/azure_blob/util.go:279-299 | Copying writes exactly the targets, the last copy to each deciding, as long as no copy lands on a file still to be copied |
| BlobMoves.FolderMoved | alist-backend/drivers/azure_blob/util.go:268-318 | After a move whose deletion went through, for all names and directories: no name under the source that does not end in a slash is left, nor the source's own name with its slash or without, and outside the source nothing has changed but targets |
| BlobMoves.ArrivedIff | alist-backend/drivers/azure_blob/util.go:268-318 | For all names and directories: after a move whose deletion went through, at the first or the second attempt, every file is at its target with its content if and only if the move was safe |
| BlobMoves.FileArrives | alist-backend/drivers/azure_blob/util.go:286-296 | After a safe move that went through, every blob without a slash at the end of its name and without a directory flag has its content at the joined name below the destination |
| BlobMoves.MarkerArrives | alist-backend/drivers/azure_blob/util.go:286-290 | Every other blob gives an empty marker there with a slash at its end, which stays if it is outside the source |
| BlobMoves.TidySafeIff | alist-backend/drivers/azure_blob/util.go:279-318 | With clean names, a move is safe if and only if no file's new name is one that the deletion asks for |
| BlobMoves.ApartIsSafe | alist-backend/drivers/azure_blob/util.go:268-318 | With clean names, a move is safe when neither directory is inside the other |
| BlobMoves.MarkersStay | alist-backend/drivers/azure_blob/util.go:132-191 | Then exactly the nested markers that end in a slash stay under the source |
| BlobMoves.AllLost | alist-backend/drivers/azure_blob/util.go:268-318 | When the destination is the source or inside it, every file is gone in the end, from its old place and from its target |
| BlobMoves.RenameGoesInside | alist-backend/drivers/azure_blob/driver.go:173-178 | Renaming a listed directory is such a move: its path has a slash at the end, and `path.Dir` only drops that |
| BlobMoves.NothingLost | alist-backend/drivers/azure_blob/util.go:268-318 | For all names and directories: whatever fails, each file of the source is at its old place or at its destination, if and only if the move is safe: no file's target is a name that the deletion asks for, and the last copy to it is its own |
| BlobMoves.MoveLeaves | alist-backend/drivers/azure_blob/util.go:268-318 | The ways a move can end that this speaks of are those of `MoveFolder`: some of the copies, or all and any part of the source gone |
| LinkTree.BuildKeepsList | alist-backend/drivers/123_link/parse.go:32-86 | Read from top to bottom, the tree is the list |
| LinkTree.BuildIsNested | alist-backend/drivers/123_link/parse.go:57-63 | Levels grow downwards, files have nothing below them, and what follows a folder is not deeper |
| LinkTree.RebuildIff | alist-backend/drivers/123_link/parse.go:32-86 | Listing a tree and building it again gives the same tree for exactly the well-nested trees |
| LinkTree.FoundIff | alist-backend/drivers/123_link/types.go:20-37 | A node is found if and only if some chain of names from the root spells the path, duplicate names included |
| LinkTree.FoundFirst | alist-backend/drivers/123_link/types.go:20-37 | Of several such chains it is the first from top to bottom |
| LinkLines.NodeByPathIff | alist-backend/drivers/123_link/parse.go:141-152 | The same for a clean path below the root |
| LinkLines.FileForms | alist-backend/drivers/123_link/parse.go:94-139 | What each of the three documented forms of a file line means |
| LinkLines.InfoForms | alist-backend/drivers/123_link/parse.go:103-138 | What may stand in front of a url, and that everything else is bad |
| LinkLines.IndentForms | alist-backend/drivers/123_link/parse.go:36-55 | An odd number of spaces is bad, and of an even number each two are a level |
| LinkLines.FolderForms | alist-backend/drivers/123_link/parse.go:52-72 | An empty line is blank, and a text with a colon at its end is a folder of that name |
| LinkLines.OtherForms | alist-backend/drivers/123_link/parse.go:73-102 | Everything else must be a file, and without a url it is bad |
| LinkLines.NameForms | alist-backend/drivers/123_link/parse.go:108-113 | A file is named by the last name of its url, unescaped if that works |
| LinkLines.CollectConcat | alist-backend/drivers/123_link/parse.go:36-84 | The entries of the lines in order, and none if a line is bad |
| LinkLines.LineBack | alist-backend/drivers/123_link/parse.go:36-85 | A printed line reads back as its entry and is one line |
| LinkLines.LineBackIff | alist-backend/drivers/123_link/parse.go:36-85 | It does so for exactly the entries that fit on a line (`Printable`) |
| LinkLines.ReadIsPrintable | alist-backend/drivers/123_link/parse.go:32-139 | Every entry that is read from any text fits on a line |
| LinkLines.TreeRoundTripIff | alist-backend/drivers/123_link/parse.go:12-86 | A tree printed with two spaces a level reads back as the same tree if and only if it is well nested and its entries fit on lines |
| LinkLines.TreeRoundTrip | alist-backend/drivers/123_link/parse.go:12-86 | In particular a folder tree whose levels are the depths |
| LinkLines.ReadTreeRoundTrip | alist-backend/drivers/123_link/parse.go:32-86 | Whatever was read from any text, printed again, reads as the same tree |
| LinkLines.ReadTreeIsNested | alist-backend/drivers/123_link/parse.go:32-86 | Every tree that is read is well nested, lists the entries in order and fits the fields of a node |
| Texts.ParseDecimal | alist-backend/drivers/123_link/parse.go:122-133 | Every 64-bit number reads back from its decimal form |
| Texts.ParseUnsigned | alist-backend/drivers/123_link/parse.go:122-133 | Only digits within 64 bits are a number |
| Texts.ParseSigned | alist-backend/drivers/123_link/parse.go:122-133 | Or digits behind a sign |
| Texts.TrimParts | alist-backend/drivers/123_link/parse.go:51 | Only spaces are trimmed, at both ends, and all of them |
| Texts.BaseNameIs | alist-backend/drivers/123_link/parse.go:108 | The base name of a path is its last name, whatever slashes follow |
| LinkNodes.StackGrows | alist-backend/drivers/123_link/parse.go:34-63 | The root is at the bottom of the stack and levels grow strictly, so it is never emptied |
| LinkNodes.PopTo | alist-backend/drivers/123_link/parse.go:60-63 | Popping leaves the folders that are open for the line, and the tree as it was |
| LinkNodes.AddLine | alist-backend/drivers/123_link/parse.go:57-84 | The nodes form the tree of the list with one more line |
| LinkNodes.BuildTree | alist-backend/drivers/123_link/parse.go:32-86 | New, distinct nodes, reached from the root child by child, that form the tree of the list with every field; none if a line is bad |
| LinkSizes.CalSize | alist-backend/drivers/123_link/types.go:43-53 | Every folder gets, as a 64-bit number, the total of the sizes in the flat list of what is below it, over the entries with a url, and nothing else changes |
| LinkSizes.SumIsTotal | alist-backend/drivers/123_link/types.go:43-53 | The sum over the tree is the total over its flat list |
| LinkSizes.Init | alist-backend/drivers/123_link/driver.go:28-36 | The tree of the list, node by node, where every folder has the total of the sizes of the files below it |
| SliceReader.GetChunkSizes | alist-backend/drivers/halalcloud/util.go:365-377 | One chunk for each slice of each range, in order; doing it again on the changed ranges gives the same |
| SliceReader.ExpandedInOrder | alist-backend/drivers/halalcloud/util.go:365-377 | When the ranges follow each other, every chunk stands at its own position, with the size of its range |
| SliceReader.ExpandedOneMore | alist-backend/drivers/halalcloud/util.go:365-377 | Whatever the ranges, one more adds a chunk of its size for each of its slices, in order |
| SliceReader.FlatConcat | alist-backend/drivers/halalcloud/util.go:301-336 | The file is the slices one after the other |
| SliceReader.OpenObject.SkipChunks | alist-backend/drivers/halalcloud/util.go:308-319 | Whole chunks are passed over without changing what remains; fails exactly when the start lies behind the end |
| SliceReader.OpenObject.GetChunk | alist-backend/drivers/halalcloud/util.go:283-298 | A failed fetch changes nothing; the end is reported only after the last chunk |
| SliceReader.OpenObject.Read | alist-backend/drivers/halalcloud/util.go:301-336 | The bytes returned continue those returned before; the end comes only when all of the file from the start position has been returned |
| SliceReader.GivenIsPrefix | alist-backend/drivers/halalcloud/util.go:301-336 | After any calls, what was returned is the beginning of the file from the start position |
| SliceLinks.GetLink | alist-backend/drivers/halalcloud/driver.go:224-250 | For every number of nodes the loops ask for consecutive batches of at most 200, and the result is the answers one after the other, or none if one is missing |
| SliceLinks.AnswersInOrder | alist-backend/drivers/halalcloud/driver.go:224-250 | When every request is answered node by node, the result has the address of each node at its place |
| SliceLinks.AnswersNone | alist-backend/drivers/halalcloud/driver.go:224-250 | There is no result if and only if a request is not answered |
| UriEncoding.EncodesEachByte | alist-backend/drivers/139/util.go:30-39 | The six replacements after escaping are one encoding of each byte, with ECMA-262's unescaped set |
| UriEncoding.EncodeByteIs | alist-backend/drivers/139/util.go:30-39 | Letters, digits and - _ . ! ~ * ' ( ) stay, and every other byte is a percent sign and its two upper-case hex digits |
| UriEncoding.EncodeConcat | alist-backend/drivers/139/util.go:30-39 | The bytes are encoded one after the other |
| UriEncoding.ReplaceTokens | alist-backend/drivers/139/util.go:32-37 | No replacement matches across the boundary of an escaped byte |
| Base64Hex.B64ToHex | alist-backend/drivers/189/help.go:53-85 | The result for the base64 of any byte string is its hex |
| Base64Hex.Base64ToHexIsHex | alist-backend/drivers/189/help.go:53-85 | In all three cases of padding the digits are those of the bytes, and the trailing case never applies |
| Base64Hex.HexIs | alist-backend/drivers/189/help.go:53-85 | The digits number 2i and 2i + 1 are "0123456789abcdef" at the i-th byte's quotient and remainder by 16 |
| Base64Hex.AnyDigitIs | alist-backend/drivers/189/help.go:47-51 | The table of digits |
| Base64Hex.SymbolIs | alist-backend/drivers/189/help.go:45 | The alphabet of base64 |
| Base64Hex.Base64Is | alist-backend/drivers/189/help.go:53-85 | Base64 is made of groups of three bytes, with padding for the missing ones |
| Base64Hex.GroupBits | alist-backend/drivers/189/help.go:57-80 | The four six-bit numbers of three bytes, in decimal arithmetic |
| Base64Hex.RunBase64 | alist-backend/drivers/189/help.go:57-80 | From any group boundary on, each byte becomes its two digits |
| Base64Hex.Base64Length | alist-backend/drivers/github/util.go:37-39 | The announced length is that of the base64 text |
| Md5Scramble.EncryptMd5 | alist-backend/drivers/baidu_netdisk/util.go:370-385 | The loop scrambles each place of the reordered number |
| Md5Scramble.EncryptedAt | alist-backend/drivers/baidu_netdisk/util.go:370-385 | Each place holds the digit of its reordered place, exclusive or the place's last four bits, as a hex digit or in the tenth place as a letter from g on |
| Md5Scramble.DecryptMd5 | alist-backend/drivers/baidu_netdisk/util.go:350-368 | The loop undoes each place and reorders; a plain hex number is returned as it is |
| Md5Scramble.DecryptEncrypt | alist-backend/drivers/baidu_netdisk/util.go:350-385 | Decrypting what was encrypted gives the number back, and the encrypted form is never hex |
| Md5Scramble.LowerComesBack | alist-backend/drivers/baidu_netdisk/util.go:350-385 | For a lower-case number that is the number itself |
| Md5Scramble.EncryptDecrypt | alist-backend/drivers/baidu_netdisk/util.go:350-385 | Encrypting what was decrypted gives the encrypted form back |
| Md5Scramble.DecryptTwice | alist-backend/drivers/baidu_netdisk/util.go:350-353 | Decrypting twice is decrypting once |
| FileSplit.SplitFile | alist-backend/drivers/115/util.go:469-490 | From 1000 bytes on, at most 10000 chunks that tile the file, each of at least 100 KB but perhaps the last; from 100 MB on a thousand for each gigabyte begun, and ten thousand above nine; an error below 1000 bytes, an index out of range at exactly nine gigabytes, and "Too many parts" never |
| FileSplit.SplitFileByPartNum | alist-backend/drivers/115/util.go:494-518 | The given number of chunks, all with the quotient but the last, which has the remainder too; an error exactly for no parts, more than 10000, or more than bytes |
| FileSplit.SplitFileByPartSize | alist-backend/drivers/115/util.go:522-549 | Chunks of the given size and one for the remainder; an error exactly for ten thousand full parts or more |
| FileSplit.EachByteOnce | alist-backend/drivers/115/util.go:469-549 | Every byte of the file is in exactly one chunk |
| PortMapper.NewPortMapper | alist-backend/server/ftp.go:184-257 | All entries are valid or there is no mapper; the number of ports is the sum over the groups and positive |
| PortMapper.PortForms | alist-backend/server/ftp.go:196-219 | One number is one port, and two with a dash between them a range of ports from 1024 to 65535; everything else is an error |
| PortMapper.GroupForms | alist-backend/server/ftp.go:220-251 | Exposed ports stand for themselves, or for as many listened ones behind a colon; everything else is an error |
| PortMapper.MapperForms | alist-backend/server/ftp.go:188 | Entries are separated by commas and newlines |
| PortMapper.PickPorts | alist-backend/server/ftp.go:258-268 | Exposed and listened port have the same offset in the group of the position, and the loop always finds one |
| PortMapper.OnePlace | alist-backend/server/ftp.go:258-268 | Positions and places in groups correspond one to one |

## Left out

- GithubDriver.Github.Get: directories of more than 1000 entries and truncated listings, which the service cuts off; they count as failed calls.
- GithubDriver.Github.NewTree: what the service does with two edits of one name in one request; the model applies them in order. The driver sends such a pair for a rename to the same name and for a move onto the entry it comes through.
- GithubDriver.Github.Commit: pushes by others between reading the head and moving it; the driver's own lock excludes its other writes.
- CommonAncestor.GetPathCommonAncestor: the cleaning of its arguments, which leaves a clean path as it is, and paths with a backslash.
- UploadProtocol.AlwaysInv: that waiting for the workers reports a cancellation is taken as given; a change of the slice size between saving and resuming, and rapid uploads, are not modelled.
- UploadProtocol.StartRun: how the key is joined from its parts.
- BlobFolders.Container.CopyFile: a copy that the service carries out only later.
- BlobMoves.TargetIs: names with empty, dot or double-dot parts, which `path.Join` rewrites; `NothingLost`, `ArrivedIff` and `FolderMoved` hold for them too, in terms of the joined target.
- PortMapper.NewPortMapper: an invalid entry ends the process through `Fatalf`, where the model returns no mapper.
- LinkLines.FileForms: `PathUnescape` is any function and the clock any number.
- Md5Scramble.EncryptMd5: fewer than 32 characters, where a slice is out of range.
- Base64Hex.B64ToHex: characters outside the alphabet, where the digit table is indexed with -1.
- SliceReader.OpenObject.Read: slices of another length than announced, which the driver does not check; the running SHA-1, which hashes what has not been read; decryption and checksums of a fetched slice, and the retries of a fetch.
- Hashes, ciphers, signing, commit messages, tokens, HTTP and RPC, rate limits, progress reports and logging.
- Baidu's choice of a slice size, PKCS7 padding, paging, listings, configuration, Cloudreve's and 139's upload loops and the other drivers.
