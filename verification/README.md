# photoSwipe, verified

A Dafny model of the parts of photoSwipe that compute something: the near-duplicate clustering, the
decision log with its undo, the moves to the trash and back, the weighted picker, the background
hashing, and the readers of RAW, EXIF and orientation data. `dafny verify dfyconfig.toml` checks the
whole project.

The program's loops and in-place updates are methods and classes (`UnionFind.Forest`,
`Stores.Store`, `Handlers.Handler`, `Indexer.Worker`, and the methods of `Dupes`, `Raw`, `Exif`, `Jpeg`,
`Picker`, `DHash`, `Trash`, `Orientation`). Each is proved to do what a specification says, and the
theorems are about those specifications:

- **Clustering** (`Dupes`, `DupesLaws`, `Pairwise`). The union-find under its time-sorted loops with
  an early break computes exactly the connected components of a simple graph on photos, in a fixed
  order. The result does not depend on the order of the input or of map iteration. Where the
  documentation promises more, a theorem says exactly when the promise holds.
- **Store** (`StoreModel`, `Stores`, `StoreLaws`). Every operation is a function on the store's state,
  carried out by a class. `StoreLaws` says in plain terms what each one changes, counts, lists and
  leaves alone.
- **Undo** (`UndoLaws`, `SessionLaws`, `UndoLimits`). n recordings of any kind, with settings changed
  in between, are taken back by n undos; and in every state of every run the stack tells the whole
  history of the session, the list of recent skips, and both counters.
- **Files** (`Trash`, `FileLaws`, `Stranding`, `Handlers`). No run of requests, rescans included, loses
  a file. Whenever the undo stack is again what it was, every file is where it was then, unless an
  undo met a trashed photo that a rescan had forgotten.
- **Both together** (`Thinning`, `Reform`, `Revealed`, `Requests`). Resolving a cluster leaves every
  other cluster as it was and never offers its own members again, unless a photo it trashed had kept
  two photos apart in the scan; undo forms the same cluster again and puts its files back.
- **RAW and EXIF** (`Raw`, `RawPages`, `Exif`, `Jpeg`, `Orientation`). The readers are proved for all
  bytes, and then for files as a writer lays them out: the preview of a written RAW file is the longest
  JPEG its directories show, and written metadata is read back in either byte order.
- **Picker** (`Picker`) and **indexer** (`Indexer`).

## What the code does that its comments do not say

- The documentation of `Find` calls the distance pairwise and clusters mutually similar; the code
  forms the transitive closure. `Pairwise.ChainIsNotPairwise` is an input on which members are too
  far apart, for every threshold from 1 to 127. Without a window the promise holds if and only if
  closeness is transitive among the eligible photos (`Pairwise.PairwiseIfAndOnlyIfTransitive`); with
  any window, if and only if closeness carries over every link (`Pairwise.PairwiseIfAndOnlyIfStepwise`).
  `DupesLaws.ClusterDiameter` says how far apart members can be, and `Pairwise.DiameterIsReached` that
  they can be that far apart.
- The documentation calls the window exclusive; the code accepts a gap equal to it
  (`Pairwise.GapUpToWindowIsClustered`).
- A capture time in the year 0, which EXIF text can express, lies before the zero time that stands
  for "unknown". Sorted before it, such photos can make the early break skip undated photos:
  `DupesLaws.CutPairExample` is an input where two copies are not clustered. No link is lost if and
  only if no close pair is cut off like this (`DupesLaws.LinksAreNearLinks`), and the clusters are
  the documented ones if and only if every such pair is connected by way of other photos
  (`DupesLaws.ResultIsDocumentedOne`). `Dupes.Find` is proved for all times.
- For the same reason resolving a cluster can change other clusters: if it trashes the photo that cut
  a pair off, the scan reaches the pair. `Revealed.ResolvingIsNotLocal` is an input where another
  cluster is merged with a member of the resolved one, which is offered again. Other clusters stay and
  no new ones form if and only if every pair that ceases to be cut is in one cluster already
  (`Reform.ResolvingIsLocal`); so it is whenever no pair was cut (`Reform.NoCutPairIsLocal`).
- A picture that never gets darker to the right or downwards hashes to zero, which clustering takes
  for a failed hash (`DupesLaws.FlatPictureIsNotEligible`).
- Undo does not restore the time of the last decision, although the architecture notes speak of the
  full prior state; and it empties the trashed path rather than restoring it. An undone entry, for one
  photo or a cluster, gives back the very same photos if and only if each photo decided had been
  decided at that very time before and each one trashed had no trashed path
  (`UndoLimits.DecisionTimeIsNotRestored`, and `UndoLimits.RunReturnsPhotos` for whole runs). So an
  undone photo stays under its cooldown (`Picker.UndoneDecisionCoolsDown`).
- A skipped cluster is meant to leave all its members on the list of recent skips. If it has more
  undecided members than the session's target, the first ones are lost
  (`SessionLaws.SkippedClusterIsListed`).
- Undo pops its entry before it finds that the photo is gone; the counters then stay raised by
  exactly that entry. `SessionLaws.ForgottenPhotoLeaks` is a run on which this happens;
  `SessionLaws.CountIsWorthIfNothingMissed` says that the session count is what the stack is worth if
  and only if no undo met a decision on a photo that was gone.
- For the same reason an undo can leave a file in the trash. `Stranding.FileIsStranded` is a run on
  which it does: a photo is trashed, then kept from a page that still shows it, and forgotten by a
  rescan; both undos fail, and no entry is left that could bring the file back. Files return with the
  stack if and only if no undo met a decision that trashed a photo which is gone
  (`FileLaws.FilesReturnWithStack`). That never happens while nothing is forgotten, nor, however often
  the directory is rescanned, while nothing is decided on photos in the trash
  (`Stranding.NothingForgottenNothingStrands`, `Stranding.TrashLeftAloneNothingStrands`).
- A cluster decision recorded with a nil slice of members cannot be undone
  (`UndoLimits.NilSliceIsNotUndone`); the handler never passes one.
- Without a session, files are moved to the trash before the store refuses to record it. For one
  photo this happens exactly if it is known, is to be trashed and its file is there
  (`Handlers.Handler.HandleDecision`); for a cluster, exactly if the file of some undecided member
  that is not kept is there (`Handlers.Handler.HandleClusterResolve`).
- The comment on the picker gives every unsure photo the same rate; the code, like the architecture
  notes, lets it decay with the number of times the photo was put off (`Picker.WeightMeans`,
  `Picker.UnsurePhotosFade`).
- Photos are meant to come up more rarely the more often they were kept. With a decay below zero or
  above one, which the settings form accepts, they do not (`Picker.KeptFadeExactly`).

## Model

| member | source | states |
|---|---|---|
| DHash.DistanceIsMetric | internal/dhash/dhash.go:62-66 | the distance is a metric with values 0..128: zero only between equal hashes, symmetric, triangle inequality |
| DHash.Compute | internal/dhash/dhash.go:34-60 | bit 8y+x of the first plane says whether pixel (x, y) is brighter than its right neighbour, bit 8x+y of the second whether it is brighter than the one below |
| DHash.BitsCompareNeighbours | internal/dhash/dhash.go:34-60 | which two pixels each of the 128 bits compares, by column and row |
| UnionFind.Forest.constructor | internal/dupes/cluster.go:55-58 | every ID starts as its own root |
| UnionFind.Forest.Find | internal/dupes/cluster.go:59-65 | terminates, returns the root above the ID, and path compression changes no ID's root |
| UnionFind.Forest.Union | internal/dupes/cluster.go:66-77 | merges exactly the two classes, under the smaller of the two roots |
| UnionFind.RootsAreDetermined | internal/dupes/cluster.go:59-65 | the root map is the only one that following parents upwards allows |
| UnionFind.CompressionKeepsRoots | internal/dupes/cluster.go:61-63 | hanging an ID directly below its root keeps the forest and all roots |
| UnionFind.LinkMergesClasses | internal/dupes/cluster.go:71-76 | hanging the larger root below the smaller keeps parents at or below children and redirects one class only |
| Dupes.EligibleMeans | internal/dupes/cluster.go:30-43 | a photo takes part exactly if it is not in the trash, was hashed, by version 2 or later, and has a one bit in either plane |
| Dupes.EligiblePhotos | internal/dupes/cluster.go:30-43 | keeps exactly the photos outside the trash that were hashed under the current version to something other than zero |
| Dupes.LinkedPairIsCompared | internal/dupes/cluster.go:79-85 | the early break never cuts off a linked pair |
| Dupes.ComparedPairIsLinked | internal/dupes/cluster.go:79-91 | every close pair that the loops compare is a link |
| Dupes.LinksFitScan | internal/dupes/cluster.go:79-92 | the links are exactly the close pairs compared, for all times |
| Dupes.LinkRow | internal/dupes/cluster.go:80-91 | one row of the loop unites its photo with every later photo linked to it, and nothing else |
| Dupes.LinkPairs | internal/dupes/cluster.go:79-92 | after the loops every link has equal roots at both ends, and every ID is connected to its root |
| Dupes.RootsTellConnected | internal/dupes/cluster.go:54-92 | two IDs have the same root exactly if they are connected |
| Dupes.GroupByRoot | internal/dupes/cluster.go:94-99 | each group holds, once each, exactly the photos with that root |
| Dupes.SortGroups | internal/dupes/cluster.go:101-113 | whatever order the map yields, one cluster for each group of at least two, and none else |
| Dupes.GroupIsCluster | internal/dupes/cluster.go:101-113 | a sorted group is a whole component, its ID the smallest ID in it |
| Dupes.Find | internal/dupes/cluster.go:29-122 | lists exactly the components with at least two photos; a larger file before a smaller one and a longer cluster before a shorter one, and at a tie the smaller ID first |
| Dupes.ResultInOrder | internal/dupes/cluster.go:105-122 | that order holds of every list that has the specified clusters, without naming the sort keys |
| DupesLaws.ResultDeterminedByFaces | internal/dupes/cluster.go:29-122 | the clusters, their IDs and member order depend only on ID, size, time and hash of the eligible photos |
| DupesLaws.ResultIgnoresOrder | internal/dupes/cluster.go:48-122 | permuting the input, or the map iteration, changes nothing in the result |
| DupesLaws.ClustersAreDisjoint | internal/dupes/cluster.go:94-122 | no photo is in two clusters |
| DupesLaws.ClustersCoverComponents | internal/dupes/cluster.go:94-113 | two photos share a cluster exactly if both are eligible and connected |
| DupesLaws.LinksAreNearLinks | internal/dupes/cluster.go:79-92 | the clustered graph is "hashes within the threshold and window not separating the times" if and only if no close pair consists of an undated photo and one dated before the zero time with a later such photo more than a window away |
| DupesLaws.ComponentsAgree | internal/dupes/cluster.go:79-92 | the clustered graph has the components of the documented one if and only if every close cut pair is connected by way of other photos |
| DupesLaws.ResultIsDocumentedOne | internal/dupes/cluster.go:79-122 | so the clusters are those of the documented graph if and only if that is so |
| DupesLaws.NoEarlyTimesNoCut | internal/dupes/cluster.go:79-92 | without times before the zero time, or with the window off, the break loses no link |
| DupesLaws.CutPairExample | internal/dupes/cluster.go:81-85 | a concrete input where the break keeps two near photos apart |
| DupesLaws.ClusterDiameter | internal/dupes/cluster.go:86-90 | members of an m-photo cluster are within (m-1) times the threshold of each other |
| Pairwise.PairwiseIfAndOnlyIfTransitive | internal/dupes/cluster.go:12-25 | without a window, the members of all clusters are pairwise within the threshold if and only if closeness is transitive among the eligible photos |
| Pairwise.PairwiseIfAndOnlyIfStepwise | internal/dupes/cluster.go:12-25 | whatever the window, that is so if and only if a photo connected and close to another is close to all that are linked to the other |
| Pairwise.TransitiveIsPairwise | internal/dupes/cluster.go:12-25 | in particular if closeness is transitive |
| Pairwise.ChainIsNotPairwise | internal/dupes/cluster.go:22-90 | for every threshold from 1 to 127, three photos clustered together of which two are not within the threshold |
| Pairwise.ExtremeThresholdsArePairwise | internal/dupes/cluster.go:86-90 | for every other threshold members are pairwise close, whatever the photos |
| Pairwise.DiameterIsReached | internal/dupes/cluster.go:86-90 | on a chain whose ends are as far apart as its steps allow, the bound is reached, whatever the window |
| Pairwise.StretchedExists | internal/dhash/dhash.go:62-66 | there is such a chain of m photos for every m and threshold with (m-1) times the threshold at most 128 |
| Pairwise.GapUpToWindowIsClustered | internal/dupes/cluster.go:79-91 | two eligible photos not dated before the zero time are clustered if and only if their hashes are within the threshold and the window is off, one is undated, or their gap is at most the window |
| Pairwise.GapOfWindowIsClustered | internal/dupes/cluster.go:23-84 | two copies whose gap is exactly the window are clustered |
| DupesLaws.FlatPictureIsNotEligible | internal/dupes/cluster.go:36-41 | a successfully hashed photo is ignored exactly if its picture never darkens rightwards or downwards |
| Stores.Store.StartSession | internal/store/store.go:318-342 | refuses an unknown mix or a negative target; otherwise a fresh session replaces the old one |
| Stores.Store.EndSession | internal/store/store.go:365-373 | drops the session and remembers its count |
| Stores.Store.SessionExtend | internal/store/store.go:387-400 | raises a finite target, or opens it, and clears the list of recent skips |
| Stores.Store.UpdateSettings | internal/store/store.go:744-749 | replaces the settings and nothing else |
| Stores.Store.RecordDecision | internal/store/store.go:404-448 | takes the step specified for a decision on one photo, errors included |
| Stores.Store.RecordSkip | internal/store/store.go:456-497 | takes the step specified for a skip, errors included |
| Stores.Store.SkipCluster | internal/store/store.go:504-551 | takes the step specified for a cluster skip, errors included |
| Stores.Store.SnapshotMembers | internal/store/store.go:564-574 | fills in every member's previous state, or reports an unknown photo |
| Stores.Store.ApplyMembers | internal/store/store.go:575-586 | carries out the members' transitions in order |
| Stores.Store.RecordClusterDecision | internal/store/store.go:557-607 | takes the step specified for a cluster decision, errors included |
| StoreModel.SnapshotApplies | internal/store/store.go:564-586 | taking the snapshot does not change what the transitions do |
| StoreModel.RemoveLastAt | internal/store/store.go:690-696 | removing the last occurrence cuts out exactly that position, or nothing |
| Stores.Store.Unskip | internal/store/store.go:690-696 | the backward search removes the last occurrence of the ID only |
| Stores.Store.UnskipMembers | internal/store/store.go:673-681 | removes the last occurrence of each member in turn |
| Stores.Store.RollBackCounters | internal/store/store.go:656-667 | lowers session and day count, at most to zero |
| Stores.Store.RestoreMembers | internal/store/store.go:700-715 | restores the members still there, from the last to the first |
| Stores.Store.Undo | internal/store/store.go:639-736 | takes the step specified for undo in all four arms and both error cases |
| Stores.Store.ForgetMissing | internal/store/store.go:251-270 | drops exactly the photos outside the given set that are not in the trash, and counts them |
| Stores.Store.UpsertPhoto | internal/store/store.go:124-157 | registers a new photo as undecided, or gives a known one the file's size, and the file's time if it has none |
| Stores.Store.SetCaptureTime | internal/store/store.go:185-200 | changes one photo's capture time; an unknown time changes nothing |
| Stores.Store.SetHash | internal/store/store.go:203-215 | records a hash under the current version for one photo |
| Stores.Store.MarkHashFailed | internal/store/store.go:218-230 | records the zero hash, so that the photo is not tried again |
| Stores.Store.NextUnhashed | internal/store/store.go:162-175 | returns a photo still to be hashed, and none exactly if there is none |
| Stores.Store.HashProgress | internal/store/store.go:233-247 | total minus hashed is the number of photos still to be hashed |
| Stores.Store.AllPhotos | internal/store/store.go:284-294 | lists every photo once |
| StoreLaws.DecisionRecorded | internal/store/store.go:404-448 | sets state, counts and times of one photo, leaves all others, pushes one entry with what the photo was before, and adds one to the session and to the day |
| StoreLaws.SkipRecorded | internal/store/store.go:456-497 | changes a photo's last-seen time only; its ID ends the list of recent skips, which loses at the front exactly what exceeds the target, or 5; counts one if skips are to count |
| StoreLaws.ClusterSkipRecorded | internal/store/store.go:504-551 | changes no photo; the members end the list, cut at the target, or 10; counts one, or one for each member, if skips are to count |
| StoreLaws.LastOpDecides | internal/store/store.go:575-586 | each operation on a photo of its own decides that photo as it says, whatever the others do |
| StoreLaws.ClusterDecisionRecorded | internal/store/store.go:557-607 | so a cluster decision decides each photo named as it says and no other, and counts one, or one for each photo, as the settings have it |
| StoreLaws.RecordingsRefused | internal/store/store.go:404-607 | which recordings are refused with which error, the order of the two checks included; a refused one changes nothing |
| StoreLaws.UndoRestoresSkips | internal/store/store.go:670-696 | undoing what was just recorded leaves on the list of recent skips exactly those that were on it before and had not been pushed out |
| StoreLaws.UndoPops | internal/store/store.go:639-736 | whatever the top entry is, undo drops it, leaves alone all photos it does not name, reports a photo that is gone, and takes the entry's count off unless it added none or the photo is gone |
| StoreLaws.NothingUndone | internal/store/store.go:639-650 | there is nothing to undo exactly without a session or with an empty stack, and then nothing changes |
| StoreLaws.SessionStarted | internal/store/store.go:318-342 | a new session has counted, recorded and skipped nothing |
| StoreLaws.SessionExtended | internal/store/store.go:387-400 | a positive number is added to a finite target, any other opens it, an open one stays open; only the list of recent skips is cleared |
| StoreLaws.ScanForgets | internal/store/store.go:251-270 | of the photos a scan did not find exactly those in the trash stay, unchanged |
| StoreLaws.ScanRegisters | internal/store/store.go:124-157 | every field of a photo that a scan finds, new or known; all other photos stay |
| StoreLaws.WaitingMeans | internal/store/store.go:162-175 | a photo waits exactly if it is not in the trash and was never hashed, or by a version before 2 |
| UndoLaws.UndoInverts | internal/store/store.go:639-736 | undoing what was just recorded restores photos, stack and counters, with the trashed paths of the photos it trashed emptied |
| UndoLaws.UndoRespects | internal/store/store.go:639-736 | undo depends on nothing but photos' decision fields, stack and counters |
| UndoLaws.RoundTrip | internal/store/store.go:404-736 | any run of recordings, settings changes, extensions and indexer writes, then as many undos as entries were pushed, restores all of these; exactly the paths of photos trashed on the way come back empty |
| UndoLaws.RoundTripWithUndos | internal/store/store.go:404-736 | with undos in between as well, as long as nothing older than the run is undone, undoing what is left of it restores the same view; the paths of all photos trashed on the way come back empty |
| UndoLimits.UndoReturns | internal/store/store.go:698-729 | recording an entry of any kind and undoing it gives back every photo but for the last decision's time and the trashed path, which are said |
| UndoLimits.DecisionTimeIsNotRestored | internal/store/store.go:698-729 | it gives back the very same photos if and only if each photo decided had that decision time before and each one trashed had no trashed path |
| UndoLimits.LastDecisionStays | internal/store/store.go:698-729 | however many undos follow a run, a photo's last decision time is that of the last entry of the run that decided it |
| UndoLimits.RunReturnsPhotos | internal/store/store.go:639-736 | n recordings and n undos give back the very same photos if and only if no decision time changed on the way and no photo trashed on the way had a trashed path |
| UndoLimits.NilSliceIsNotUndone | internal/store/store.go:717-730 | a cluster decision with a nil slice is undone if and only if the photo named like the cluster had zero fields; otherwise fields are overwritten or the count stays raised |
| SessionLaws.StackTellsHistory | internal/store/store.go:404-730 | in every reachable state, replaying the stack over the photos as they were at session start gives every photo's state, counts and last-seen time, and each entry remembers the values at its replay point |
| SessionLaws.RecordingReplays | internal/store/store.go:404-607 | what a recording does to each photo is what replaying its entry does |
| SessionLaws.UndoUnreplays | internal/store/store.go:669-730 | undo takes each photo back to what the entry remembers |
| SessionLaws.RemoveBlock | internal/store/store.go:670-681 | removing last occurrences of a skipped cluster's members removes exactly its block from the end of the list |
| SessionLaws.SkipsAlwaysFit | internal/store/store.go:479-487 | in every reachable state the recent skips are the end of the skips still on the stack, and no more than the target, or 10 |
| SessionLaws.SkippedIsListed | internal/store/store.go:479-487 | a photo just skipped is on the list of recent skips, whatever the cap |
| SessionLaws.SkippedClusterIsListed | internal/store/store.go:499-520 | every member of a skipped cluster is on the list if and only if there are no more of them than the target, or 10 |
| SessionLaws.CountersBalance | internal/store/store.go:652-667 | in every reachable state the session count is the worth of the entries on the stack plus what undos of forgotten photos left behind, and each day's count has grown by its share of both |
| SessionLaws.UndoKeepsWorth | internal/store/store.go:652-721 | an undo keeps the session count at what the stack is worth if and only if the last entry is not a decision on a photo that is gone, which is also exactly when undo fails |
| SessionLaws.CountIsWorthIfNothingMissed | internal/store/store.go:652-721 | after a run the session count is what the stack is worth if and only if no undo of the run met such an entry |
| SessionLaws.ForgottenPhotoLeaks | internal/store/store.go:717-721 | decide, forget, undo: the stack is empty and the count is one |
| SessionLaws.ClampsNeverAct | internal/store/store.go:656-667 | in every reachable state both counters cover the entry to be undone, so the clamps to zero never act |
| SessionLaws.NoForgettingNoLeak | internal/store/store.go:717-721 | while no photo is forgotten, undo never misses its photo |
| Trash.UniqueDest | internal/img/trash.go:41-55 | the unbounded search ends, at the first path that is free: the path asked for, or that path with the stamp, and perhaps a number, put between stem and extension |
| Trash.CandidateKeepsName | internal/img/trash.go:45-53 | every path tried keeps directory, stem and extension |
| Trash.CandidatesDiffer | internal/img/trash.go:47-53 | no path is tried twice |
| Trash.TriedAreFew | internal/img/trash.go:49-54 | no more paths are found taken than there are files |
| Trash.AllMoveBackInverts | internal/handlers/handlers.go:469-478 | moving a cluster's files back in the order they were moved restores the file system exactly |
| Trash.MovesConserve | internal/img/trash.go:14-39 | the multiset of file contents is unchanged by a cluster's moves |
| FileLaws.RunKeeps | internal/handlers/handlers.go:404-500 | in every world a run of requests and rescans reaches, the stack tells exactly which file is where: those its entries moved, and all others where they were at the start or were left in the trash |
| FileLaws.ContentsConserved | internal/handlers/handlers.go:404-500 | no run of requests, undos and rescans included, loses, duplicates or overwrites a file |
| FileLaws.FilesReturnWithStack | internal/handlers/handlers.go:461-500 | whenever the stack is again what it was at an earlier point, every file is where it was then if and only if no undo since met a decision that trashed a photo which is gone |
| FileLaws.UndoReturnsEveryFile | internal/handlers/handlers.go:461-500 | undoing all entries on the stack puts every file back where it was at session start, under that condition and no other |
| FileLaws.UndoReturnsFilesSince | internal/handlers/handlers.go:461-500 | from any point of a session on, undoing the entries pushed since puts every file back where it was at that point if and only if none of these undos meets such an entry |
| FileLaws.StackDeterminesFiles | internal/handlers/handlers.go:461-500 | of two runs with equal stacks, the files are equal if and only if the same files were left in the trash by undos that failed |
| Stranding.FileIsStranded | internal/store/store.go:717-721 | a run of five requests after which the stack is empty and a file is in the trash |
| Stranding.NothingForgottenNothingStrands | internal/store/store.go:717-721 | while no photo is forgotten, no undo leaves a file in the trash |
| Stranding.TrashLeftAloneNothingStrands | internal/store/store.go:251-270 | nor does it, with any number of rescans, while nothing is decided on photos in the trash |
| FileLaws.TrashedPathLeadsToFile | internal/store/store.go:430-433 | a photo just trashed records the path at which its very file now is |
| Handlers.Handler.MoveToTrash | internal/img/trash.go:14-28 | moves a file to a free path in the trash, or fails without a change if it is missing |
| Handlers.Handler.RestoreFromTrash | internal/img/trash.go:31-39 | moves a file back, or does nothing if it is missing |
| Handlers.Handler.HandleDecision | internal/handlers/handlers.go:404-459 | says when each of the four replies is given; keep, trash and skip change exactly the fields they should of that photo, and trash moves its file to a path of its own in the trash; if nothing is recorded, the store is as before, and the files are too unless there is no session and a known photo whose file is there is to be trashed |
| Handlers.Handler.HandleUndo | internal/handlers/handlers.go:461-500 | undoes in the store and moves back the files of the entry; a single trashed photo's file, if it is still in the trash, goes where it came from |
| Handlers.Handler.ResolveMembers | internal/handlers/handlers.go:786-815 | decides exactly the undecided members whose file is there or which are kept, each once; every move it records was made, to a path in the trash that keeps the name |
| Handlers.Handler.ResolveCluster | internal/handlers/handlers.go:786-823 | moves the files and records that, or leaves the world alone if nothing could be decided; without a session the store stays as it is, and the files change exactly if some file to be trashed is there |
| Handlers.Handler.HandleClusterResolve | internal/handlers/handlers.go:739-824 | acts on the cluster with the ID among those found now, if any: a skip of its undecided members, or their resolution, with or without a session |
| Handlers.UndecidedIdsMean | internal/handlers/handlers.go:767-777 | a skip of a cluster names exactly its undecided members |
| Requests.ResolutionMeans | internal/handlers/handlers.go:786-820 | after a resolution each undecided member that was named is kept with one keep more, each other one whose file was there is trashed with the file at the path recorded, and every other photo is as before |
| Handlers.Handler.OpenClusterFor | internal/handlers/handlers.go:829-852 | returns the photo's cluster if at least two members are undecided, and none only if there is no such cluster |
| Handlers.OpenMeans | internal/handlers/handlers.go:836-850 | a cluster is open for a photo exactly if it contains it and two members are undecided |
| Handlers.Handler.ClusterById | internal/handlers/handlers.go:345-363 | finds the cluster with the ID whenever there is one |
| Reform.ResolvingIsLocal | internal/handlers/handlers.go:786-820 | after a cluster is resolved every other one is found with the same ID, members and order, and every one found is one of those or a part of the resolved one without undecided members, if and only if every pair that ceases to be cut is in one cluster already |
| Reform.NoCutPairIsLocal | internal/dupes/cluster.go:79-92 | that is so whenever no close pair is cut, as with the window off or no time before the zero time |
| Reform.OtherClustersRemain | internal/handlers/handlers.go:786-820 | under that condition, every other cluster is found with the same ID, members and order |
| Reform.NewClustersAreOldOrDecided | internal/handlers/handlers.go:786-820 | under that condition, every cluster found is one of the others, or a part of the resolved one without undecided members |
| Reform.ResolvedIsNeverOffered | internal/handlers/handlers.go:829-852 | under that condition, no member of a resolved cluster is offered in an open cluster again |
| Reform.OfferedExactly | internal/handlers/handlers.go:829-852 | a photo is offered in an open cluster if and only if it takes part in clustering and is connected to two undecided photos |
| Reform.ResolvedIsOfferedExactly | internal/handlers/handlers.go:786-852 | so after a resolution a member is offered again if and only if some member is connected to two undecided photos among those left |
| Revealed.ResolvingIsNotLocal | internal/handlers/handlers.go:786-852 | an input where it fails: another cluster does not remain, a new one is found, and it is offered with a member of the resolved one in it |
| Revealed.SceneExists | internal/dupes/cluster.go:79-90 | there are such photos at the default threshold with a window of an hour |
| Reform.ResolvingResolves | internal/handlers/handlers.go:786-820 | if the files are there, the resolver decides every undecided member and touches no other photo |
| Reform.UndoReformsClusters | internal/handlers/handlers.go:468-481 | after n recordings and n undos the same clusters are found, so the undone cluster's ID finds it again |
| Reform.UndoShowsTheCluster | internal/handlers/handlers.go:461-481 | after a cluster decision is undone, the cluster the undone entry names is found again with the same members, order and undecided members |
| Requests.ResolveThenRender | internal/handlers/handlers.go:786-852 | after a resolution with all files there, a member of the cluster picked next is not shown as part of an open cluster, under the condition of `Reform.ResolvingIsLocal` |
| Requests.UndoAndShow | internal/handlers/handlers.go:461-484 | undoes, and for a cluster decision shows the cluster with the ID of the entry whenever there is one |
| Requests.ResolveThenUndo | internal/handlers/handlers.go:461-484 | resolving a cluster and undoing that shows a cluster with the same ID, members, order and undecided members, and all files are back |
| Raw.ReadOffsets | internal/img/raw.go:173-189 | one offset inline, up to 16 from an array, none if the array is cut off |
| Raw.ScanAll | internal/img/raw.go:109-141 | the loop over the entries collects what folding them specifies |
| Raw.LastEntryWins | internal/img/raw.go:111-140 | each field of the scan is what the last fitting entry of its tag says |
| Raw.NoEntryNoValue | internal/img/raw.go:109-140 | a field no entry sets is zero |
| Raw.ScanDirectory | internal/img/raw.go:95-151 | reads one directory; an unreadable one refers to nothing |
| Raw.Search | internal/img/raw.go:83-152 | ends on every file; visits at most 64 directories, all reachable from the header; if fewer than 64, all that are reachable |
| Raw.SearchIsExact | internal/img/raw.go:83-152 | with no more than 64 reachable directories the search visits exactly these |
| Raw.LargestJpeg | internal/img/raw.go:154-168 | returns the longest region that is a JPEG, and fails exactly if none is |
| Raw.ExtractPreview | internal/img/raw.go:57-169 | refuses bad headers; otherwise returns the longest JPEG of the visited directories |
| Raw.PreviewIsLargestReachable | internal/img/raw.go:57-169 | with no more than 64 reachable directories the preview is the longest JPEG any of them refers to |
| Raw.HeaderMeans | internal/img/raw.go:64-81 | a header is good exactly if it is "II" or "MM" and 42 in that byte order; which error the others give |
| Raw.BytesMean | internal/img/raw.go:68-73 | which byte of a number comes first in which byte order |
| RawPages.RegionsWritten | internal/img/raw.go:107-147 | a directory written as items offers exactly the regions that its last preview items give, and its only strip if it is compressed as JPEG |
| RawPages.LinksWritten | internal/img/raw.go:135-151 | it links to the sub-directories its items give, a single one inline and 2 to 16 in an array, and then to the next directory |
| RawPages.UnreadableDirectory | internal/img/raw.go:95-106 | one without entries, with more than 4096 or cut off offers nothing and links to nothing |
| RawPages.PagesAreReachable | internal/img/raw.go:83-152 | the directories reachable in a written file are exactly those it was written with |
| RawPages.ExtractWritten | internal/img/raw.go:57-169 | the preview of a written file with at most 64 directories is the longest JPEG that any of them shows, and it fails exactly if none does |
| Picker.BuildPool | internal/queue/queue.go:51-64 | collects the photos that can be picked, in order, and their total weight |
| Picker.PickAt | internal/queue/queue.go:70-80 | returns the candidate whose interval of cumulated weight holds the target; the fallback after the loop is unreachable |
| Picker.Next | internal/queue/queue.go:35-81 | fails exactly if no photo can come up; otherwise picks one that can, the one in whose share the draw lands |
| Picker.BarredExactly | internal/queue/queue.go:83-121 | a photo has no chance exactly if it was skipped, is trashed, locked, kept too often or cooling down, is new in a session for review only, is not new in a session for new photos only, or has no rate |
| Picker.WeightMeans | internal/queue/queue.go:94-121 | 1 for a new photo, base rate times decay to the keep count for a kept one, unsure rate times decay to the unsure count for an unsure one; times 0.3 and 2.5 in a session mostly for review |
| Picker.RatesPositive | internal/queue/queue.go:97-100 | with positive rates and decay no kept or unsure photo has rate zero, however often it was seen |
| Picker.PowAdds | internal/queue/queue.go:97-101 | what a power is |
| Picker.ShareIsWeight | internal/queue/queue.go:66-79 | each photo that can come up has a share of the draws as wide as that weight |
| Picker.PickedExactly | internal/queue/queue.go:35-81 | a photo is picked by some draw exactly if it can come up |
| Picker.PoolEmpty | internal/queue/queue.go:54-68 | the pool is empty exactly if every photo is barred |
| Picker.PickIsUnique | internal/queue/queue.go:70-79 | intervals do not overlap: a draw determines the pick |
| Picker.EveryCandidateCanBePicked | internal/queue/queue.go:70-79 | every candidate is picked by some draw below one |
| Picker.KeptPhotosFade | internal/queue/queue.go:97-98 | with a decay from zero to one, a photo kept more often weighs no more |
| Picker.KeptFadeExactly | internal/queue/queue.go:86-98 | with review photos drawn and no lock threshold, that holds of all photos if and only if the decay is from zero to one |
| Picker.UnsurePhotosFade | internal/queue/queue.go:99-100 | an unsure photo put off more often weighs no more, and how often it was kept makes no difference |
| Picker.UndoneDecisionCoolsDown | internal/queue/queue.go:90-92 | a photo whose decision was undone, its own or its cluster's, has no weight until the cooldown since that decision is over |
| Indexer.HashingShrinksWaiting | internal/store/store.go:203-230 | hashing or marking a photo takes exactly it off the waiting set, if it is on it |
| Indexer.Worker.HashOne | internal/indexer/indexer.go:81-94 | records the capture time and hash found on one photo, which may have been decided on or forgotten since it was chosen, touching no other photo and no decision |
| Indexer.Worker.Round | internal/indexer/indexer.go:62-77 | afterwards the photo chosen has the time and hash found, or no hash bit if it could not be decoded, counts as hashed now, and waits no more; every other photo is as before; the run counts it if it was hashed |
| Indexer.Worker.Drain | internal/indexer/indexer.go:51-79 | reaches the point where nothing waits; exactly the photos that waited have what was found for them; counts those that could be hashed, and touches no decision |
| Indexer.IndexingCommutes | internal/indexer/indexer.go:81-94 | an indexer write before or after any other step leads to the same state |
| Indexer.IndexingComesLast | internal/indexer/indexer.go:51-94 | however indexer writes and other steps are interleaved, the outcome is as if all other steps had come first |
| Indexer.IndexingIsInvisible | internal/indexer/indexer.go:51-94 | so decisions, session and counters end as if the indexer had not run |
| Orientation.ApplyOrientation | internal/img/exif.go:181-215 | every pixel is at its place in the turned picture; tags outside 2..8 leave the picture as it is |
| Orientation.SidesShown | internal/img/exif.go:181-215 | the side at which each tag shows the first row and the first column, as the table of TIFF Revision 6.0, section 8, has it, with the other rows and columns in order behind them |
| Orientation.PlaceInverts | internal/img/exif.go:192-211 | each orientation permutes the pixels: 6 and 8 undo each other, the rest undo themselves, at every size |
| Orientation.TurningBackRestores | internal/img/exif.go:181-215 | turning a picture and turning it back restores it |
| Exif.TrimText | internal/img/exif.go:161-164 | the longest prefix that does not end in a zero byte or a space (byte 32) |
| Exif.TrimmedIsLongest | internal/img/exif.go:161-164 | the trimmed text is that prefix and no other |
| Exif.ReadDate | internal/img/exif.go:149-168 | reads the text of a date from where the entry says, or nothing if that is outside the file |
| Exif.VisitEntry | internal/img/exif.go:141-169 | one entry has the effect its tag, type and count give it |
| Exif.WalkIfd | internal/img/exif.go:124-172 | stays inside the bytes and applies the effects of all entries in order |
| Exif.ParseExif | internal/img/exif.go:97-120 | first directory, then the Exif directory it points to; the three header errors |
| Exif.LastEntryWins | internal/img/exif.go:97-172 | for all bytes with a good header, orientation and date are what the last entries say that set them, over the first directory and the one it points to; zero and missing if none does |
| Exif.EncodedParses | internal/img/exif.go:97-172 | metadata encoded in either byte order is read back: orientation and date are those of the last well-typed items of their tags |
| Exif.LastItemsAreRead | internal/img/exif.go:97-172 | in particular the orientation is the number in the last SHORT item 0x0112, and the date that of the last text 0x9003 of at least 19 bytes that is a date; zero and none without such items |
| Exif.ByteOrderIsIrrelevant | internal/img/exif.go:97-115 | both byte orders parse to the same info |
| Jpeg.ReadExif | internal/img/exif.go:54-95 | consumes the stream segment by segment, with all its error cases; parses the payload of the EXIF segment |
| Jpeg.MarkersMean | internal/img/exif.go:61-86 | what the search does at each marker byte: 0x01 and 0xD0 to 0xD7 are passed over, 0xD9 and 0xDA end it, any other has a length of at least 2, and a byte other than 0xFF is no marker |
| Jpeg.ExifSegmentStarts | internal/img/exif.go:79-93 | the segment found is marker 0xE1, a length in high byte first order, "Exif" and two zero bytes, and the payload is the rest |
| Jpeg.BodyRead | internal/img/exif.go:79-93 | a segment with a length is passed over, or its payload is what is found if it is the EXIF segment |
| Jpeg.SegmentsPassed | internal/img/exif.go:61-94 | any number of other segments are passed over |
| Jpeg.FirstExifIsFound | internal/img/exif.go:61-94 | whatever segments come before and whatever follows, the first EXIF segment is the one parsed |
| Jpeg.SearchIsDetermined | internal/img/exif.go:61-94 | for all streams and results: the search has the result if and only if the stream is segments passed over and then what ends the search with it, be it the EXIF segment or one of the four errors |

## Left out

- HTTP, templates, authentication, saving and loading of the state file: saves are taken to succeed. An empty member list that was saved and loaded again comes back as nil; the model keeps the two apart in memory and does not follow a reload.
- Photo IDs are natural numbers instead of base64 strings; only their order and distinctness matter. Session IDs are not modelled.
- Stores.Store.AllPhotos: does not state the order by path, because no result here depends on it (`DupesLaws.ResultIgnoresOrder`).
- Walking the photo directory: what a rescan registers and forgets is given. `FileLaws` follows photos that are forgotten and registered again; the runs of `SessionLaws` and `UndoLaws` register none. Paths of photos are taken to be outside the trash directory and distinct, as the scan makes them (`Handlers.PathsFit`).
- Path cleaning and the check against paths that leave the photo directory: paths are joined from parts that are clean already. Directories are made as needed.
- Image decoding, scaling to the 9x9 grid and thumbnails: the grid and the pixels are inputs. Pixels are read from a picture whose bounds start at the origin.
- Floating-point rounding in weights: the picker computes over reals. The random generator and the clock are parameters.
- Calendar days have 24 hours in one fixed time zone.
- Differences of times saturate at about 292 years in the program; the model's do not. A window of that length is not considered.
- Reading the text of a date: any function of the text.
- The sorts are library calls in the program; they are one insertion sort by an integer pair here, and nothing relies on how ties are broken.
- Data races and shared backing arrays of slices: each store operation is one atomic step on values.
- RawPages.ExtractWritten: is about files whose compression items are SHORT and whose sub-directory items are LONG, as TIFF has them; other files are covered by `Raw.ExtractPreview`.
- `SetPhotoState`, `MarkSeen`, `EstimateCounts`, statistics and fatigue hints: they would add only easy members.
