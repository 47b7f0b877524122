# A verified model of go-git's graph, diff, rename and index algorithms

go-git is an implementation of Git in Go. This project models the parts of it that
are hardest to get right, and proves what they promise, for every input:

- **History and objects as graphs.** The three commit iterators, merge bases, `rev-list`
  over objects, the walk behind pruning, and the fast-forward rules of push and fetch.
  Each prunes its walk with a shared set of what has been seen; each is proved equal to a
  declarative set of reachable objects.
- **Blame.** The work queue with suspended items, reference counters, merged needs maps and
  bypasses, from one step to a whole run: it ends, never reaches a state the code calls
  invalid, and attributes every line to its origin; and it prefers the first of several
  parents with the line wherever that is true.
- **Differences of trees.** The lock-step walk of two Merkle tries that skips equal hashes,
  against the plain difference of their file maps.
- **Patches.** The hunk generator, against replaying its hunks at their line numbers.
- **Renames.** The growing open-addressing table, the similarity score, the greedy matching,
  and what the whole detection conserves.
- **Trees from an index.** Laying out, sorting and storing nested trees, against looking up
  every path from the root.
- **Binary indices.** Pack indices and commit graphs: encoders, decoders, searches and round
  trips.
- **Caches.** The two size-bounded LRU caches as one class, against a list.

Code that changes state step by step is modelled as classes and loops; what those methods
compute is stated by functions and predicates on values, and the theorems are about these.

## Layout

| files | models |
|---|---|
| `Wrappers`, `Sequences` | an optional value, joined sequences |
| `Graph`, `CommitWalkers`, `MergeBase` | reachability, the commit iterators, merge bases |
| `BlameHistory`, `BlamePreference` | what blame means, and which parent it prefers |
| `BlameNeeds`, `BlameState`, `BlameSteps`, `BlameAsk`, `BlameMoves` | its loops, its invariant, what keeps it, the questions, and what a turn does |
| `Blame`, `BlameExample` | the run, and one that does not keep the preference |
| `Ordering`, `Tries`, `DiffTree` | orders, tries and their iterator, the difference of two tries |
| `ObjectGraph`, `RevList`, `Prune`, `FastForward` | the object store, reachable objects, pruning, moving references |
| `Hunks` | unified patches |
| `SimilarityIndex`, `SimilarityScore`, `NameSimilarity`, `RenameMatching`, `RenameDetector` | rename detection |
| `TreeLayout`, `BuildTree` | trees from an index |
| `Bytes`, `IdxFormat`, `IdxLookup` | pack indices (gitformat-pack, "Version 2 pack-*.idx files") |
| `CommitGraphFile`, `CommitGraphEncoder`, `CommitGraphWriter`, `CommitGraphRoundTrip` | commit graphs (gitformat-commit-graph, "CHUNK DATA") |
| `Lru` | the caches |

`dafny verify dfyconfig.toml` checks everything.

## Where the code does not do what one would expect

The model follows the code in these places. Each names a member that shows the failure at an
input or at every input of a kind, and the members that say when the property holds.

- Without context lines, a deletion next to an addition gets wrong line numbers, and the
  patch does not apply (`Hunks.NoContextExample`; exactly when it does, `Hunks.PatchApplies`;
  POSIX diff, "Diff -u or -U Output Format").
- A diff with two chunks of kept lines in a row gives hunks with too much context
  (`Hunks.TwoEqualChunks`; exactly, `Hunks.HunksAreStretches`).
- A carriage return before a line feed is hashed even in a text if a buffer of 4096 bytes ends
  between the two (`SimilarityIndex.ReturnsIgnored`, exactly).
- An addition that is alone with its hash, faces several deletions of that hash and finds no
  best name of its own mode is dropped from the result (`RenameDetector.LostExample`;
  exactly, `RenameDetector.ConservedExactly`).
- The merge of two similarity tables takes an empty slot for key zero
  (`SimilarityScore.ZeroKeyLost`; exactly, `SimilarityScore.CommonExact`).
- The commit-graph encoder counts offsets above 2^32-1 but spills those from 2^31 on, so a
  file with some of the latter and none of the former lacks a chunk
  (`CommitGraphRoundTrip.LargeExample`; exactly, `CommitGraphRoundTrip.ReadsBackExactly`).
- When a hash is added twice, the commit-graph encoder counts the first commits added instead
  of those that are written (`CommitGraphWriter.AddedTwice`). The chunk table is right exactly
  when the two counts match (`CommitGraphWriter.CountsTell`), and then the file is.
- Pruning reverses a refspec with its plus sign in the destination, so a forced refspec
  prunes references that have a counterpart (`FastForward.PruneExample`; exactly,
  `FastForward.PruneDeletesCounterpart`).
- The layout of trees has no memory of the paths already placed, so an index with a path
  twice, or with a path that is a directory of another, gives wrong trees
  (`TreeLayout.NotRight`; exactly, `TreeLayout.RightExactly`).
- Filling the reverse map of a pack index reuses one buffer for all names, and writing a name
  copies more bytes than the name has. What is remembered for an entry is the id of its name
  exactly when no later name of the bucket or earlier bucket left other bytes behind
  (`IdxLookup.ThreeTails`, `IdxLookup.TailExample`; exactly, `IdxLookup.StoredExactly`). The
  first 20 bytes are always right.
- Blame means to prefer the parent that comes first (blame.go:42-43). When several items about
  one commit collapse into one, the bypass at blame.go:196-202 gives up a suspended item
  together with the answers it already holds, and a later parent gets the credit
  (`BlameExample.FirstParentPassedOver`, for every history that contains the fork it
  describes). `Blame.BlameFile` returns the preferred commit of every line if each commit that
  may be passed over is credited like the parent it is passed over for, which
  `BlamePreference.PassingOver` spells out in both directions. It is enough that no earlier
  parent has any of the lines (`BlamePreference.NoneBeforeIsSafe`), or that no commit has two
  parents with its own file (`BlamePreference.OneTwinIsSafe`). Beyond these, which parent is
  credited depends on the order in which the queue hands out items.
- `MergeBase` drops the error of its second walk (plumbing/object/merge_base.go:35), so a base
  behind a commit that lacks a parent is missed in silence (`MergeBase.MissedBase`).
  `MergeBase.MergeBaseOf` is exact when no commit on the way from the older commit into the
  history of the newer one lacks a parent.
- `TreeWalker` takes a subtree that cannot be loaded for the end of the walk, although its
  comment says that such objects are skipped (plumbing/object/tree.go:418-424), so later
  entries are missed in silence (`RevList.TruncatedTree`). `RevList.TreeWalker.Next` says
  exactly when a walk ends there.
- A fetch without tags does not report that force is needed (remote.go:1146-1148;
  `FastForward.HiddenRefusal`). The need is reported exactly when a reference is refused and
  tags are wanted, and the refused references are exactly those that keep their value
  (`FastForward.RefStorage.UpdateLocalReferenceStorage`, `FastForward.RunRefused`).

## Model

| member | source | states |
|---|---|---|
| `CommitWalkers.BfsCommitIter.AppendHash` | plumbing/object/commit_walker_bfs.go:40-50 | Queues a hash that is neither seen nor externally seen, and fails exactly for such a hash that is missing from the store. |
| `CommitWalkers.BfsCommitIter.Next` | plumbing/object/commit_walker_bfs.go:52-76 | Each commit comes at most once; at the end the visited commits are exactly those reached without entering a skipped one; it fails only on an incomplete history. |
| `CommitWalkers.FilterCommitIter.PopNewFromQueue` | plumbing/object/commit_walker_bfs_filtered.go:134-153 | Hands out a commit not visited yet and keeps the frontier invariant; at the end of the queue nothing is pending. |
| `CommitWalkers.FilterCommitIter.AddToQueue` | plumbing/object/commit_walker_bfs_filtered.go:157-175 | Queues every hash that is not visited, and fails only for a hash missing from the store. |
| `CommitWalkers.FilterCommitIter.Next` | plumbing/object/commit_walker_bfs_filtered.go:65-87 | The next valid commit, each once; no valid commit is walked over silently, although the limit may change between calls as long as it agrees on commits not walked yet. |
| `CommitWalkers.FilterCommitIter.WalkedExactly` | plumbing/object/commit_walker_bfs_filtered.go:65-87 | A finished walk has covered exactly what is reached without crossing a limit commit. |
| `CommitWalkers.FilterCommitIter.EndedNoGap` | plumbing/object/commit_walker_bfs_filtered.go:65-87 | A walk that ends has met no commit that lacks a parent. |
| `CommitWalkers.CommitPreIter.Next` | plumbing/object/commit_walker.go:67-103 | Pre-order walk over a stack of parent iterators: each commit once, and at the end exactly what is reached without entering a skipped commit. |
| `CommitWalkers.Unseen` | plumbing/object/commit_walker.go:105-116 | Keeps exactly the parents that are not seen. |
| `CommitWalkers.FrontierDone` | plumbing/object/commit_walker_bfs.go:52-76 | With nothing pending, visited means reached by a walk that stops at the limit, in both directions. |
| `CommitWalkers.FrontierVisit` | plumbing/object/commit_walker_bfs.go:52-76 | Moving a commit from pending to visited and its parents to pending keeps the invariant that all three iterators share. |
| `CommitWalkers.BfsCommitIter.constructor` | plumbing/object/commit_walker_bfs.go:23-38 | The walk starts at the commit, with the ignored and the externally seen ones skipped. |
| `CommitWalkers.BfsCommitIter.Visit` | plumbing/object/commit_walker_bfs.go:65-72 | A commit taken off the queue is marked and its parents queued; the invariant is kept. |
| `CommitWalkers.FilterCommitIter.constructor` | plumbing/object/commit_walker_bfs_filtered.go:19-48 | The walk starts at the commit and has the limit that its filter gives. |
| `CommitWalkers.FilterCommitIter.Visit` | plumbing/object/commit_walker_bfs_filtered.go:74-81 | A commit is marked and, unless it is a limit, its parents are queued; the invariant is kept. |
| `CommitWalkers.FilterCommitIter.Advance` | plumbing/object/commit_walker_bfs_filtered.go:69-81 | Walks exactly one more commit, or closes the iterator at the end of the walk. |
| `CommitWalkers.CommitPreIter.constructor` | plumbing/object/commit_walker.go:49-65 | The walk starts at the commit, with the ignored ones skipped. |
| `CommitWalkers.CommitPreIter.TakeNext` | plumbing/object/commit_walker.go:70-89 | Takes one pending commit off the stack, or finds that none is left. |
| `CommitWalkers.CommitPreIter.Visit` | plumbing/object/commit_walker.go:95-99 | Marks the commit and stacks its unseen parents; the invariant is kept. |
| `MergeBase.SortByCommitDateDesc` | plumbing/object/merge_base.go:148-156 | A permutation with the newest commits first. |
| `MergeBase.IndexOf` | plumbing/object/merge_base.go:159-167 | The first position of a commit, or -1 exactly when it is absent. |
| `MergeBase.Remove` | plumbing/object/merge_base.go:170-183 | The list without every occurrence of one commit, in order. |
| `MergeBase.RemoveDuplicated` | plumbing/object/merge_base.go:186-201 | The same commits, each once. |
| `MergeBase.IsAncestor` | plumbing/object/merge_base.go:46-59 | True exactly for reachable commits; it can fail only when part of the history is missing. |
| `MergeBase.LimitHidesNothing` | plumbing/object/merge_base.go:94-135 | The cut-off set hides no candidate: a candidate that a commit reaches is reached by a walk that stops at commits seen by earlier walks. |
| `MergeBase.WalkFrom` | plumbing/object/merge_base.go:106-123 | One limited walk removes exactly the candidates it passes, other than its start, and stops early only when one candidate is left. |
| `MergeBase.WalkKeepsProgress` | plumbing/object/merge_base.go:104-135 | After a completed walk the cut-off set is closed under parents and no remaining candidate is reached from a start already walked. |
| `MergeBase.Independents` | plumbing/object/merge_base.go:89-138 | Exactly the distinct commits of the list that no other commit of the list reaches; it can fail only on an incomplete history. |
| `MergeBase.ComputeAncestorsIndex` | plumbing/object/merge_base.go:64-85 | Either the excluded commit is an ancestor, or the index is exactly the set of ancestors, which lacks it. |
| `MergeBase.CollectEntries` | plumbing/object/merge_base.go:32-38 | Exactly the common ancestors reached without crossing another one if the walk meets no commit that lacks a parent; otherwise only some of them, all reached past commits that lack none. |
| `MergeBase.EntryAbove` | plumbing/object/merge_base.go:17-41 | Every common ancestor lies behind one of the collected entries. |
| `MergeBase.IndependentEntries` | plumbing/object/merge_base.go:17-41 | The independent ones among the entries are exactly the maximal common ancestors. |
| `MergeBase.MergeBaseOf` | plumbing/object/merge_base.go:17-41 | On complete histories exactly the maximal common ancestors, each once, whatever the commit dates are. If the history of the newer commit is there, it succeeds, and it is exact when no commit on the way into that history lacks a parent; every result is a common ancestor that reaches no other. |
| `MergeBase.MissedBase` | plumbing/object/merge_base.go:32-38 | A history in which the merge base is missed without an error. |
| `MergeBase.BestCommonAncestorSymmetric` | plumbing/object/merge_base.go:17-41 | The set that is computed does not depend on the order of the two commits. |
| `MergeBase.DropVisited` | plumbing/object/merge_base.go:110-115 | A visited commit that is one of the others leaves both lists. |
| `BlameHistory.AlignmentSameText` | blame.go:297-335 | A line that the diff keeps has the same text on both sides. |
| `BlameHistory.TrailSameText` | blame.go:244-352 | A line followed through any number of commits keeps its text and ends at an ancestor. |
| `BlameHistory.BlamedMeans` | blame.go:31-117 | The commit blamed for a line is an ancestor, or the commit itself, whose file has that text in a line that none of its parents has. |
| `BlamePreference.Sources` | blame.go:545-576 | Exactly the parents with the file; their positions are the parent numbers. |
| `BlamePreference.SourcesInOrder` | blame.go:545-576 | The parents with the file keep the order in which the commit lists its parents. |
| `BlamePreference.PreferredFollows` | blame.go:42-43 | The preferred commit of a line, by the positions of the parents in the commit: that of the first listed parent that has the file and the line, or the commit itself when none has. |
| `BlamePreference.PreferredIs` | blame.go:42-43 | The same by the parent numbers of the run. |
| `BlamePreference.PassingOver` | blame.go:196-202 | Passing over a commit for a parent with the same file credits the same commits if and only if, for each line, the first parent with it is credited like that parent. |
| `BlamePreference.NoneBeforeIsSafe` | blame.go:181-203 | The preference is kept if, before a parent at which items may collapse, no parent has any of the lines. |
| `BlamePreference.OneTwinIsSafe` | blame.go:181-203 | The preference is kept if no commit has two parents with its own file. |
| `BlameNeeds.AskParent` | blame.go:297-335 | The hunk loop asks the parent for exactly the needed lines that the diff keeps, with their line numbers on both sides; no index leaves its range. |
| `BlameNeeds.LineMatchIs` | blame.go:297-335 | A line of an equal blob is taken over from the line of the same number; otherwise a line of a kept hunk is taken over from where the hunk has it on the other side, and an inserted line from nowhere. |
| `BlameNeeds.InsertAt` | blame.go:229-235 | Appending and swapping down is insertion at a position. |
| `BlameNeeds.MergeNeeds` | blame.go:215-237 | The strictly increasing union of two strictly increasing needs maps. |
| `BlameNeeds.Scatter` | blame.go:380-393 | Every entry of a part gets the answer of the equal line in the merged map, and no index runs past its end. |
| `BlameNeeds.ApplyIdentical` | blame.go:403-443 | For an unchanged file the maps run in step, so the guarded error cannot occur; each line takes the answer or keeps what it has by the rule of the parent numbers. |
| `BlameNeeds.ApplyByOrig` | blame.go:403-443 | For a changed file every answer reaches the child's line it was asked for, and no other line changes. |
| `BlameNeeds.AskEqualLine` | blame.go:307-318 | A needed line that both sides have is asked for with its two numbers. |
| `BlameNeeds.AskInsertedLine` | blame.go:319-327 | A needed line that only this side has is passed over. |
| `BlameNeeds.AskHunk` | blame.go:303-335 | One hunk moves both line counters and asks for exactly its kept and needed lines. |
| `BlameState.SameItemsOk` | blame.go:403-443 | Entering answers does not disturb what any item asks for. |
| `BlameSteps.AnswerStep` | blame.go:403-443 | Answering one outstanding question keeps the run's invariant: counters equal outstanding answers, and every line that a parent has is answered or awaited from a parent that does not come after it. |
| `BlameSteps.FinishStep` | blame.go:363-401 | Taking a finished item out of the run keeps the invariant. |
| `BlameSteps.DropMany` | blame.go:192-194 | Of several items that ask one child the same question, one is enough: dropping the others, and taking the lowest of their parent numbers, keeps the invariant. |
| `BlameSteps.GroupCollapses` | blame.go:181-195 | Items of one commit that ask one child the same came to it from different parents with the child's file. |
| `BlameSteps.RelayStep` | blame.go:197-202 | Bypassing a child that would only hand its answer on keeps the invariant; the answer that is due there is still the preferred one if the history keeps the preference. |
| `BlameSteps.GatherStep` | blame.go:206-241 | Merging all items about one commit into one keeps the invariant; no outstanding answer is lost. |
| `BlameSteps.PassOnStep` | blame.go:259-270 | An item with one parent and the same blob as that parent and its child steps aside for a new one, keeping the invariant. |
| `BlameSteps.PushStep` | blame.go:271-282 | A new question raises the asker's counter by one and keeps the invariant. |
| `BlameSteps.NothingAwaited` | blame.go:363-370 | When an item's counter is zero, a line that some parent has is answered, and by no parent that comes after it. |
| `BlameAsk.SomeWeights` | blame.go:83-108 | Over an acyclic history the work that a question can cause is bounded, so a run ends. |
| `BlameAsk.AllAsked` | blame.go:244-352 | Once every parent with the file has been asked, each needed line that a parent has is awaited from that parent or an earlier one. |
| `Blame.FinishLines` | blame.go:365-370 | Lines without an answer get the item's commit, all others keep theirs. |
| `Blame.LineFinished` | blame.go:363-370 | With nothing outstanding, an answer is the preferred one, and a line without one was introduced by the item's own commit. |
| `Blame.Blamer.constructor` | blame.go:61-81 | The first item asks for every line of the file, and the invariant holds. |
| `Blame.Blamer.FinishNeeds` | blame.go:363-401 | Never fails; either the first item is done with right answers, or the invariant holds and the finished item owes nothing any more. A child that asked the same gets exactly its answers. |
| `Blame.Blamer.AnswerAll` | blame.go:376-400 | Hands each asker its part of the answers, in order, until the first item is done or nothing is owed. |
| `Blame.Blamer.ApplyNeeds` | blame.go:403-443 | Enters one answer and finishes the child when it was the last one outstanding; never fails. |
| `Blame.Blamer.AllIdentical` | blame.go:181-191 | True exactly if all items ask the same child for the same lines; the number returned is the lowest of their parent numbers. |
| `Blame.Blamer.KeepFirst` | blame.go:192-203 | Only the first item of such a group is left, with the lowest parent number, and the child waits for as many answers less; nothing else changes and the invariant holds. |
| `Blame.Blamer.SkipRelays` | blame.go:197-202 | The item answers for, and to, whoever the relays in front of it would have; it ends at a child that is no mere relay, and keeps the invariant. |
| `Blame.Blamer.UnionNeeds` | blame.go:212-238 | A strictly increasing map that covers the lines of every item of the group. |
| `Blame.Blamer.Combine` | blame.go:206-241 | The group becomes one waiting item that answers everybody the group had to answer. |
| `Blame.Blamer.Collapse` | blame.go:174-242 | Whatever the group, one waiting item is left for it and the invariant holds. |
| `Blame.Blamer.ParentsContainingPath` | blame.go:545-576 | Exactly the parents that have the file, in order; nothing exactly when a parent is missing. |
| `Blame.Blamer.PassOn` | blame.go:259-270 | The item is replaced by one about its only parent and the invariant holds. |
| `Blame.Blamer.AskAll` | blame.go:250-352 | Every parent is asked for exactly what it shares; when all of them have the same blob, one item is queued for each, in order. |
| `Blame.Blamer.Expand` | blame.go:244-361 | Steps aside, asks the parents or finishes the item; it fails exactly when a parent is missing, and what remains queued weighs less than before. |
| `Blame.Blamer.AddBlames` | blame.go:174-361 | Never reaches the state the code calls invalid; keeps the invariant and makes the queue lighter. A single item is expanded as it is; of items that ask the same, the first is, after passing over relays. |
| `Blame.Blamer.Best` | blame.go:505-538 | The item at hand is one that no other queued item precedes. |
| `Blame.Blamer.PopGroup` | blame.go:84-95 | Takes exactly the items about one commit, and all that stay are about older ones. |
| `Blame.Blamer.SomebodyWaits` | blame.go:85-88 | While the first item is not done the queue is not empty, so the error about an empty queue cannot arise. |
| `Blame.Blamer.Step` | blame.go:84-102 | One turn of the loop takes the items of the first commit in line and expands them. |
| `Blame.Blamer.Run` | blame.go:82-103 | Every run is a sequence of such turns, ends, and ends with the first item done unless a parent is missing. |
| `Blame.BlameFile` | blame.go:31-117 | One commit per line of the file, each the origin of its line as BlamedMeans explains, and the preferred one, by the order in which commits list their parents, wherever the history keeps the preference; it fails exactly when the file is missing or, at most, when history is incomplete. |
| `Blame.Blamer.FinishOwn` | blame.go:363-374 | What is left is attributed to the item's own commit, rightly, and the item can answer all who asked it. |
| `Blame.Blamer.EnterAnswers` | blame.go:404-434 | The answers are entered into the child, its counter goes down by one and its open lines are still covered. |
| `Blame.Blamer.RelayOnce` | blame.go:198-201 | One child that only hands on leaves the run; the item answers where that child would have. |
| `Blame.Blamer.AskOneParent` | blame.go:250-352 | Every needed line that the parent shares is awaited afterwards, by one new item at most. |
| `Blame.Blamer.AskSameBlob` | blame.go:271-284 | A parent with the same blob is asked for all lines. |
| `Blame.Blamer.AskOtherBlob` | blame.go:287-351 | A parent with another blob is asked for the lines the diff keeps, if there are any. |
| `Blame.Blamer.AskOrFinish` | blame.go:250-360 | With nobody to ask the item is finished; otherwise it waits for as many answers as it asked for. |
| `BlameExample.FirstParentPassedOver` | blame.go:181-203 | In every history with a certain fork the only line of a file is credited to the common parent of the second and the third parent of a commit, although the first parent introduced it. |
| `BlameExample.RunEnds` | blame.go:84-102 | Every run over such a history ends that way. |
| `BlameExample.SmallFork` | blame.go:181-203 | There is such a history. |
| `Tries.SortedFacts` | utils/merkletrie/iter.go:80-96 | Sorting the children of a node keeps them and puts distinct names in strict order. |
| `Tries.DropAhead` | utils/merkletrie/iter.go:201-215 | Dropping the current node leaves exactly the files that come after it. |
| `Tries.DescendAhead` | utils/merkletrie/iter.go:138-171 | Going down into a directory leaves the same files ahead. |
| `DiffTree.Iter.Current` | utils/merkletrie/iter.go:176-197 | The path of the first node of every frame, or nothing at the end. |
| `DiffTree.Iter.DropCurrent` | utils/merkletrie/iter.go:201-215 | Drops the current node and every frame this empties. |
| `DiffTree.Iter.Advance` | utils/merkletrie/iter.go:138-171 | The first call hands out the first node, later ones go down or past the current node. |
| `DiffTree.StepHandsOut` | utils/merkletrie/iter.go:128-171 | A step hands out what was coming and nothing else, and the load of the stack shrinks. |
| `DiffTree.DoubleIter.NextFrom` | utils/merkletrie/doubleiter.go:84-87 | Goes past the old node and leaves the other side alone. |
| `DiffTree.DoubleIter.NextTo` | utils/merkletrie/doubleiter.go:91-94 | Goes past the new node and leaves the other side alone. |
| `DiffTree.DoubleIter.NextBoth` | utils/merkletrie/doubleiter.go:71-80 | Goes past both nodes. |
| `DiffTree.DoubleIter.StepBoth` | utils/merkletrie/doubleiter.go:98-106 | Goes down into both nodes where possible. |
| `DiffTree.Compare` | utils/merkletrie/noder/path.go:78-98 | -1, 0 and 1 exactly for smaller, equal and larger paths in directory order. |
| `DiffTree.AddRecursive` | utils/merkletrie/change.go:128-160 | One change for every file at and below a path, and for nothing else; fails exactly for a path that spells the empty string. |
| `DiffTree.PathStringIs` | utils/merkletrie/noder/path.go:28-38 | A path is its names joined by slashes; only the path of one empty name spells the empty string. |
| `DiffTree.AddFilesBelow` | utils/merkletrie/change.go:140-157 | Exactly one change for every file below a directory. |
| `DiffTree.SameHashNoChange` | utils/merkletrie/difftree.go:384-389 | Nodes of equal hash at one place have no difference, so skipping them is right. |
| `DiffTree.BehindForks` | utils/merkletrie/difftree.go:350-365 | The walker that is behind is never above the other one, so its whole node can be deleted or inserted. |
| `DiffTree.DeleteFrom` | utils/merkletrie/difftree.go:352-358 | Everything below the old node is deleted, once, and stays out of what is still ahead. |
| `DiffTree.InsertTo` | utils/merkletrie/difftree.go:359-365 | Everything below the new node is inserted, once, and stays out of what is still ahead. |
| `DiffTree.ReplaceBoth` | utils/merkletrie/difftree.go:395-404 | A file and a directory at one place: all of one is deleted and all of the other inserted, which is their difference. |
| `DiffTree.DiffDirs` | utils/merkletrie/difftree.go:416-450 | Empty directories and directories with children are told apart, and the difference found so far stays right. |
| `DiffTree.DiffNodesSameName` | utils/merkletrie/difftree.go:375-414 | The difference of two nodes at one place is found or entered, and the walk makes progress. |
| `DiffTree.DiffNodes` | utils/merkletrie/difftree.go:345-373 | One round keeps the changes equal to the difference of what is behind and makes progress. |
| `DiffTree.DiffTries` | utils/merkletrie/difftree.go:277-343 | Ends, with exactly the plain difference of the two file maps, each change once; applied to the one map the changes give the other; it fails only for a child of a root without a name. |
| `DiffTree.ApplyDifference` | utils/merkletrie/difftree.go:277-343 | Applying the changes to the old files gives exactly the new files. |
| `DiffTree.TrieFunctional` | utils/merkletrie/difftree.go:277-343 | A well-formed trie has one hash for every path, so ApplyDifference holds of it. |
| `DiffTree.Iter.constructor` | utils/merkletrie/iter.go:80-96 | The iterator stands before the sorted children of its root. |
| `DiffTree.DoubleIter.constructor` | utils/merkletrie/doubleiter.go:38-60 | Both iterators stand on their first nodes. |
| `DiffTree.StepOn` | utils/merkletrie/change.go:145-152 | Each step below a directory hands out one file that was still coming, or a directory. |
| `DiffTree.AddCurrent` | utils/merkletrie/change.go:116-124 | Deletes or inserts exactly the files at the node an iterator stands on. |
| `DiffTree.AddOtherSide` | utils/merkletrie/difftree.go:425-439 | With one directory empty, the files of the other one are the difference. |
| `DiffTree.PassBoth` | utils/merkletrie/doubleiter.go:71-80 | Once the difference of two nodes is recorded, going past both keeps the walk right. |
| `DiffTree.EnterBoth` | utils/merkletrie/difftree.go:440-444 | Entering two directories with children keeps the walk right and makes progress. |
| `RevList.TreeWalker.Next` | plumbing/object/tree.go:425-482 | The next entry that leads to nothing seen, by the position it is at; the walk ends exactly when no entry is left or a subtree that cannot be loaded is next. |
| `RevList.NextPlaceIs` | plumbing/object/tree.go:425-460 | In a tree the walk stands at the first entry that is not seen; with none left it goes on in the tree above, and below 1025 trees it stops. |
| `RevList.ObjectWalk.Record` | plumbing/revlist/revlist.go:56-61 | The result grows exactly by the objects that were not seen. |
| `ObjectGraph.LinksAre` | plumbing/revlist/revlist.go:77-115 | Which objects the walk goes to from an object, by its fields: from a commit to its tree and parents, from a tree to its entries but submodules, from a tag to its target, from a blob nowhere. |
| `RevList.ObjectWalk.IterateCommitTrees` | plumbing/revlist/revlist.go:179-213 | Adds only what the tree reaches, no commit, and on a loadable tree closes the seen set up to what was seen before; a subtree that cannot be loaded right at the start leaves it at the tree. |
| `RevList.TruncatedTree` | plumbing/object/tree.go:418-482 | A tree with a subtree that is missing: the entry after it is left out without an error. |
| `RevList.ObjectWalk.ReachableObjects` | plumbing/revlist/revlist.go:121-168 | Adds only what the commit reaches and closes the seen set up to what was seen before. |
| `RevList.ObjectWalk.ProcessObject` | plumbing/revlist/revlist.go:77-115 | The same for a commit, tree, blob or tag, by its kind; a tag is followed to its target. |
| `RevList.ObjectWalk.ProcessAll` | plumbing/revlist/revlist.go:63-71 | The same for a list of objects, with the missing ones passed over if that is allowed. |
| `RevList.SeenOrBehind` | plumbing/revlist/revlist.go:77-213 | Whatever a seen object reaches is seen or lies behind something that was seen before the walk, so pruning at seen objects is safe. |
| `RevList.IgnoresExact` | plumbing/revlist/revlist.go:33-44 | When all ignored objects are there, what was found for them is all that they reach. |
| `RevList.ToList` | plumbing/revlist/revlist.go:215-222 | A list of the set, each member once. |
| `RevList.CollectObjects` | plumbing/revlist/revlist.go:46-74 | Lists, each once, only reachable objects that are not ignored, and closes the list up to the ignored ones. |
| `RevList.ListIsSelfContained` | plumbing/revlist/revlist.go:33-44 | A list closed up to the ignored objects has, with every commit, its tree and parents, with every tree its entries but submodules, and with every tag its target, unless an ignored object reaches them. |
| `RevList.ObjectsWithStorageForIgnores` | plumbing/revlist/revlist.go:33-44 | Every object reachable from the wanted ones is listed or reachable from an ignored one, even when ignored objects are missing; with all of them there, the list is exactly the difference of the two reachable sets. The list is self-contained: what an object on it names in its fields is on it or reached from an ignored one. |
| `RevList.TreeWalker.constructor` | plumbing/object/tree.go:404-416 | The walk starts before the first entry of the root. |
| `RevList.ObjectWalk.constructor` | plumbing/revlist/revlist.go:52-54 | Exactly the ignored objects are seen and the result is empty. |
| `RevList.ObjectWalk.WalkCommit` | plumbing/revlist/revlist.go:141-164 | A commit of the history is recorded with all that its tree leads to. |
| `Prune.ObjectWalker.WalkObjectTree` | object_walker.go:54-104 | Ends; adds only what the object reaches, and after success all of it. |
| `Prune.ObjectWalker.WalkAllRefs` | object_walker.go:25-40 | After success the seen objects are exactly those that the hash references reach; failure means an object in the way that cannot be walked. |
| `Prune.Prune` | prune.go:33-66 | The handler gets exactly the unreachable loose objects that are older than the limit, if there is one, in order, up to the first failure, and nothing when the walk failed; it never gets what a hash reference reaches. |
| `Prune.NeverPrunesNeeded` | prune.go:33-66 | What references reach is never prunable. |
| `Prune.ObjectWalker.WalkCommit` | object_walker.go:67-77 | The tree and the parents of a commit are walked. |
| `Prune.ObjectWalker.WalkTree` | object_walker.go:78-96 | Every entry of a tree is recorded or walked, by its mode. |
| `Prune.PlainIs` | object_walker.go:80-90 | Entries that are not walked are those of the regular type with no permission but those of 0755. |
| `FastForward.ReverseDst` | config/refspec.go:117-140 | Going back from a destination gives the source name, with a plus sign in front when the refspec forces updates. |
| `FastForward.GlobIs` | config/refspec.go:100-133 | A name matches a wildcard if and only if it is the prefix, any middle part and the suffix, and its destination has the same middle part. |
| `FastForward.MoveIs` | remote.go:667-735 | Nothing is to be moved exactly if the remote reference is symbolic or has the value already; a new reference is moved from the zero hash, any other from its value. |
| `FastForward.IsFastForward` | remote.go:1040-1071 | Says yes or no exactly by whether the old commit is reached without entering a parent of the shallow commit; without one, by reachability. It fails only when a commit is none or the history has a gap. |
| `FastForward.CheckFastForwardUpdate` | remote.go:1014-1038 | Passes only moves that keep history, and refuses with the error that applies. |
| `FastForward.CheckForceWithLease` | remote.go:752-775 | Without a tracking reference it says so; it refuses exactly when the lease is for this reference, or for all, and the old value differs from the hash of the lease or, when that is zero, from the tracking reference. |
| `FastForward.AddMove` | remote.go:667-750 | Plans a move that the refspec asks for, unless it changes nothing, and refuses only for a reason that holds. |
| `FastForward.BuildDict` | remote.go:568-571 | Of several local references with one name the last one counts. |
| `FastForward.AddOrUpdateReferences` | remote.go:595-626 | Plans moves for exactly what the refspec sends. |
| `FastForward.DeleteReferences` | remote.go:628-665 | Plans exactly the deletions that the refspec, or pruning by it, asks for. |
| `FastForward.AddReferencesToUpdate` | remote.go:559-593 | Every command is asked for by some refspec and allowed; on success everything the refspecs ask for is planned; without force and lease every planned update moves a reference to a commit that reaches its old value, and with a lease on a hash wildcards move the references it is for only from that hash. |
| `FastForward.PruneDeletesCounterpart` | remote.go:644-652 | A remote reference that has a local counterpart is pruned exactly when the refspec forces updates and no local reference is named with a leading plus sign. |
| `FastForward.PruneExample` | remote.go:644-652 | A forced push of all branches that prunes deletes a branch that both sides have. |
| `FastForward.RunLosesNothing` | remote.go:1103-1144 | No run of fetched moves loses the history of an unforced reference. |
| `FastForward.WhereNamesGo` | remote.go:1113-1117 | Full names stay as they are, all others become branches, and tags are exactly the names below refs/tags/. |
| `FastForward.ResolveIs` | plumbing/storer/reference.go:215-243 | A chain of symbolic references leads to the hash at its end unless it has more than 1025 links, and nowhere if its end is missing. |
| `FastForward.BranchesGo` | remote.go:1103-1117 | The usual refspec of a fetch takes each branch to its remote-tracking branch, by force. |
| `FastForward.RunDecided` | remote.go:1103-1144 | A reference ends up with the last value that was not refused. |
| `FastForward.RunRefused` | remote.go:1103-1144 | A reference of which every move is refused keeps its value. |
| `FastForward.RefStorage.CheckAndUpdate` | repository.go:1181-1200 | Sets the reference unless it has the value already or was changed meanwhile; reports exactly whether something changed. |
| `FastForward.RefStorage.UpdateOne` | remote.go:1108-1143 | One fetched reference is written, found unchanged or refused, exactly as the rules for its kind and for force say. |
| `FastForward.RefStorage.BuildFetchedTags` | remote.go:1170-1196 | Writes exactly the tags whose objects are there, and reports whether anything changed. |
| `FastForward.TagsFollow` | remote.go:1146-1160 | If every refspec has a wildcard, all tags of the remote whose objects are there come along; if one has none, only fetched ones do. |
| `FastForward.RefStorage.UpdateLocalReferenceStorage` | remote.go:1093-1168 | The references end up as the run of all fetched moves, and then the tags, leaves them. The need for force is reported exactly when a move was refused and tags are wanted, otherwise whether anything changed; an error cuts the run short at the move that causes it. No unforced reference loses history. |
| `FastForward.AddMatching` | remote.go:618-625 | A wildcard sends every matching local reference, and nothing else. |
| `FastForward.RefStorage.UpdateList` | remote.go:1103-1144 | The references of one refspec are run one by one, and what was refused and changed so far is known. |
| `FastForward.HiddenRefusal` | remote.go:1146-1148 | A diverged branch, fetched without tags: it stays, and the result is that nothing changed. |
| `Hunks.HunksGenerator.ProcessHunk` | plumbing/format/diff/unified_encoder.go:228-278 | Opens a hunk with the saved context and its line numbers. |
| `Hunks.HunksGenerator.ProcessEqualsLines` | plumbing/format/diff/unified_encoder.go:280-302 | Extends the open hunk or closes it and saves the rest as context. |
| `Hunks.HunksGenerator.Generate` | plumbing/format/diff/unified_encoder.go:193-226 | The hunks, replayed at their line numbers and counts on the old lines, give the new lines, or do not apply at all, exactly as PatchApplies says. They are the longest stretches of lines near a change exactly as HunksAreStretches says. |
| `Hunks.HunksAreStretches` | plumbing/format/diff/unified_encoder.go:193-302 | The hunks are exactly the longest stretches of lines that lie at most as many lines from a change as there are context lines, if and only if no change is followed by several chunks of kept lines that are short one by one, but too long together. |
| `Hunks.ChangesTogether` | plumbing/format/diff/unified_encoder.go:287-289 | Two neighbouring changes are in one hunk if and only if at most twice the context lines lie between them. |
| `Hunks.ContextFirst` | plumbing/format/diff/unified_encoder.go:228-278 | A hunk starts with exactly the context lines before its first change, or with the lines there are. |
| `Hunks.ContextLast` | plumbing/format/diff/unified_encoder.go:290-300 | A hunk ends with exactly the context lines after its last change, or with the lines there are. |
| `Hunks.TwoEqualChunks` | plumbing/format/diff/unified_encoder.go:286-289 | With two chunks of kept lines in a row, a hunk takes over more lines than the context. |
| `Hunks.GoodPatch` | plumbing/format/diff/unified_encoder.go:193-302 | With context, or with no addition next to a deletion, the patch turns the old lines into the new ones. |
| `Hunks.BadPatch` | plumbing/format/diff/unified_encoder.go:228-278 | Without context, an addition next to a deletion makes the patch inapplicable. |
| `Hunks.PatchApplies` | plumbing/format/diff/unified_encoder.go:193-302 | Both directions in one: exactly when the patch of a tidy diff applies, and what it then gives. |
| `Hunks.NoContextExample` | plumbing/format/diff/unified_encoder.go:257-278 | Replacing one line without context is a patch that does not apply. |
| `Hunks.HunksGenerator.ProcessChunk` | plumbing/format/diff/unified_encoder.go:194-222 | One chunk, by its operation. |
| `SimilarityIndex.NotStored` | plumbing/object/rename.go:717-751 | An empty slot on the way from the home slot means that the key is nowhere in the table. |
| `SimilarityIndex.KeysApart` | plumbing/object/rename.go:717-718 | Of the block hashes of 32 bits at most two share a key: those that agree in the lowest bit and in the key are equal. |
| `SimilarityIndex.StoreNew` | plumbing/object/rename.go:733-739 | Storing a new key in the first empty slot keeps keys unique and reachable by probing, and adds its count. |
| `SimilarityIndex.StoreMore` | plumbing/object/rename.go:740-744 | Counting a stored key changes its count only. |
| `SimilarityIndex.Index.constructor` | plumbing/object/rename.go:568-574 | An empty, well-formed table. |
| `SimilarityIndex.Index.FirstEmpty` | plumbing/object/rename.go:796-806 | Probing ends at the first empty slot from the home slot. |
| `SimilarityIndex.Index.Grow` | plumbing/object/rename.go:782-810 | Twice the slots and the same key-to-count map; fails exactly at the largest size, leaving the table alone. |
| `SimilarityIndex.Index.Add` | plumbing/object/rename.go:717-751 | The table stands for the map with the block counted; an empty slot always remains, so probing ends; it fails only for a full count or a full table. |
| `SimilarityIndex.NextBlock` | plumbing/object/rename.go:595-637 | The shortest block that ends, with its hash and size. |
| `SimilarityIndex.BlockIs` | plumbing/object/rename.go:596-637 | A block has no line feed but at its end; it ends with one, with the file, or at 64 bytes, or 65 if a carriage return before the line feed comes 64th. |
| `SimilarityIndex.BlockHashIs` | plumbing/object/rename.go:596-630 | The hash of a block is 5381 and the bytes, weighted by the powers of 33. |
| `SimilarityIndex.OneLine` | plumbing/object/rename.go:592-644 | A short line has one key, that of its hash without the line feed, and counts all its bytes. |
| `SimilarityIndex.OneLineReturn` | plumbing/object/rename.go:617-620 | With a carriage return before the line feed it has the same key and the same count if it is text, and another hash and one byte more if it is binary. |
| `SimilarityIndex.ReturnsIgnored` | plumbing/object/rename.go:617-620 | All bytes of a binary file are hashed. Of a text, all but the carriage returns before line feeds are: if and only if none of these is the last byte of a buffer of 4096 bytes. |
| `SimilarityIndex.Index.HashContent` | plumbing/object/rename.go:592-644 | The table stands for the counts of the blocks of the file; they sum to the bytes hashed, which are its significant bytes. It fails exactly when the file is shorter than announced, or for a very large file. |
| `SimilarityIndex.SortOrders` | plumbing/object/rename.go:557-566 | Sorting puts empty slots first and keys in order, and keeps the map and the total. |
| `SimilarityScore.Common` | plumbing/object/rename.go:668-715 | The merge of the two sorted tables. |
| `SimilarityScore.MergeSymmetric` | plumbing/object/rename.go:668-715 | The common bytes do not depend on the order of the files. |
| `SimilarityScore.CommonBounded` | plumbing/object/rename.go:668-715 | No more is common than either file has. |
| `SimilarityScore.MergeExact` | plumbing/object/rename.go:668-715 | The common bytes plus what is lost at key zero are the sum over shared keys of the smaller count. |
| `SimilarityScore.CommonExact` | plumbing/object/rename.go:668-715 | The common bytes are that sum exactly unless both files have key zero and their tables differ in empty slots. |
| `SimilarityScore.KeysApartNothingCommon` | plumbing/object/rename.go:668-715 | Files whose blocks have different keys have nothing in common. |
| `SimilarityScore.OneBlockEach` | plumbing/object/rename.go:668-715 | Two files of one block each have nothing in common if the hashes of the blocks differ modulo 2^32 and agree in the lowest bit. |
| `SimilarityScore.LinesApart` | plumbing/object/rename.go:557-715 | Two files of one line that differ in a letter have nothing in common. |
| `SimilarityScore.ZeroKeyLost` | plumbing/object/rename.go:668-715 | Two tables of 256 slots, built by adding blocks, whose shared key zero is not counted. |
| `SimilarityScore.Score` | plumbing/object/rename.go:656-666 | The common bytes as a share of the larger file, rounded down: between zero and the maximum, the same both ways, and the maximum for a file and itself. |
| `SimilarityScore.FileSimilarityIndex` | plumbing/object/rename.go:557-590 | A sorted table that stands for the counts of the blocks of the file, with the same failures. |
| `NameSimilarity.ScoreMeans` | plumbing/object/rename.go:285-331 | A percentage, the same both ways, and 100 for equal paths only. |
| `NameSimilarity.ScoreParts` | plumbing/object/rename.go:285-331 | The characters in which the directories agree from the front, and from the back, count 25 each of a hundred, those in which the file names agree from the back count 50; each as a percentage of the longer one. |
| `NameSimilarity.NameSimilarityScore` | plumbing/object/rename.go:285-331 | The loops compute that score. |
| `RenameMatching.SortMatrix` | plumbing/object/rename.go:369-381 | A permutation with the worst pairs first. |
| `RenameMatching.GroupChangesByHash` | plumbing/object/rename.go:360-367 | Every change is in the group of its hash, as often as in the list, and no group is empty. |
| `RenameMatching.SplitGroups` | plumbing/object/rename.go:75-81 | Single additions and groups of several together are all additions. |
| `RenameMatching.Ungroup` | plumbing/object/rename.go:197-201 | Every change comes out as often as it is in the groups. |
| `RenameMatching.BestIsHighest` | plumbing/object/rename.go:268-283 | The best match has the highest score and is the first that has it, and there is none exactly when all scores are zero. |
| `RenameMatching.BestNameMatch` | plumbing/object/rename.go:268-283 | The loop finds that match. |
| `RenameMatching.MatchUnique` | plumbing/object/rename.go:83-111 | The addition becomes a rename, is left over or, exactly in the branch without an else, is dropped; the deletions are conserved. |
| `RenameMatching.MatchGreedily` | plumbing/object/rename.go:159-177 | A stable one-to-one matching: a pair is passed over only for a clash with a pair that comes before it. |
| `RenameMatching.ChosenScores` | plumbing/object/rename.go:159-177 | A pair that is left out shares a file with a chosen one whose score is not lower; of equal scores the later addition wins, and then the later deletion. |
| `RenameMatching.NoneLeft` | plumbing/object/rename.go:163-177 | No pair of the matrix is left over on both sides. |
| `RenameMatching.CompactChanges` | plumbing/object/rename.go:523-531 | The changes not crossed out, in order. |
| `RenameMatching.BuildNameMatrix` | plumbing/object/rename.go:133-157 | All pairs with their scores, or as many of the first ones as the limit allows. |
| `RenameMatching.MatchByName` | plumbing/object/rename.go:132-191 | Both sides are conserved, and without a limit one side is used up. |
| `RenameMatching.MatchSeveral` | plumbing/object/rename.go:113-195 | Both sides of a group are conserved, whatever its sizes. |
| `RenameMatching.RemoveMatch` | plumbing/object/rename.go:100-106 | The deletions without the one that was matched. |
| `RenameMatching.AddNameRow` | plumbing/object/rename.go:143-152 | One row of the matrix, or as much of it as the limit allows. |
| `RenameMatching.MatchUniques` | plumbing/object/rename.go:83-111 | All single additions: each is renamed, left over or dropped, and the deletions stay balanced. |
| `RenameMatching.MatchSeverals` | plumbing/object/rename.go:113-195 | All groups of several additions: both sides are conserved. |
| `RenameDetector.PairScoreRange` | plumbing/object/rename.go:504-508 | A pair's score is a percentage. |
| `RenameDetector.PairScoreParts` | plumbing/object/rename.go:504-508 | Files with one table score 99, and 100 if they have one name; files with nothing in common score zero, and one if they have one name. |
| `RenameDetector.SimilarIs` | plumbing/object/rename.go:424-512 | Two changes are similar if and only if both are regular files with an index, each size plus one has at least the threshold of the other, and 99 times the content score and 100 times the name score reach it. |
| `RenameDetector.BuildSimilarityMatrix` | plumbing/object/rename.go:408-521 | Exactly the pairs of regular files that reach the threshold, worst first; it fails only for files that cannot be read or indexed. |
| `RenameDetector.SortByPath` | plumbing/object/rename.go:247-266 | A permutation ordered by path. |
| `RenameDetector.ByPathIs` | plumbing/object/change.go:98-131 | The result is ordered by old paths, additions by their new ones. |
| `RenameDetector.Detector.DetectExactRenames` | plumbing/object/rename.go:68-202 | Deletions are conserved, additions are conserved but for the dropped ones, and every rename joins equal contents. |
| `RenameDetector.Detector.DetectContentRenames` | plumbing/object/rename.go:208-245 | Both sides are conserved, every rename is justified by its score, and without a limit no similar pair is left. |
| `RenameDetector.Detector.Detect` | plumbing/object/rename.go:247-266 | The two phases together, sorted by path. |
| `RenameDetector.DetectRenames` | plumbing/object/rename.go:19-50 | The result is the given changes with some deletions and additions joined to justified renames; failure means a malformed change or an unreadable file. |
| `RenameDetector.SidesConserved` | plumbing/object/rename.go:68-266 | Every old side comes out as often as it went in, and so does every new side but for the dropped additions. |
| `RenameDetector.CountsAre` | plumbing/object/rename.go:19-50 | The counts in which conservation is stated are those of the sides of all changes. |
| `RenameDetector.ConservedExactly` | plumbing/object/rename.go:94-107 | New sides are conserved exactly when no addition is alone with its hash, faces several deletions of that hash and has no best name of the same mode. |
| `RenameDetector.LostExample` | plumbing/object/rename.go:94-107 | Two deletions with the content of an addition and with unlike names: no change of the result has the added file. |
| `RenameDetector.ScoreRow` | plumbing/object/rename.go:424-515 | Exactly the additions similar to one deleted file. |
| `RenameDetector.ScorePair` | plumbing/object/rename.go:504-508 | Content and name in the proportion of 99 to 1. |
| `Lru.FitIsLongest` | plumbing/cache/buffer_lru.go:63-72 | What is kept is the longest most recently used part that fits. |
| `Lru.PutIs` | plumbing/cache/buffer_lru.go:38-74 | After a put of something that fits at all, it comes first, the others follow in their order, and as many of them as fit are kept; something that does not fit is refused, or empties the cache when its key is there. |
| `Lru.GetIs` | plumbing/cache/buffer_lru.go:77-88 | After a hit, what was found comes first and the others follow in their order; after a miss nothing changes. |
| `Lru.RunKeeps` | plumbing/cache/buffer_lru.go:38-98 | After any run of puts, gets and clears keys are distinct, sizes stay within the bound, and each key has what was last put under it. |
| `Lru.Cache.constructor` | plumbing/cache/buffer_lru.go:21-23 | An empty cache. |
| `Lru.Cache.MoveToFront` | plumbing/cache/object_lru.go:80-91 | The entry becomes the first and all others keep their order. |
| `Lru.Cache.Evict` | plumbing/cache/object_lru.go:61-75 | Drops from the back until the rest fits and never meets an empty list. |
| `Lru.Cache.PutEntry` | plumbing/cache/object_lru.go:35-76 | Map, list and size agree afterwards; the contents are those of the specification on the list alone, with the new entry first when it fits. |
| `Lru.Cache.GetEntry` | plumbing/cache/buffer_lru.go:77-88 | Finds exactly what is there and moves it to the front. |
| `Lru.Cache.ClearAll` | plumbing/cache/buffer_lru.go:91-98 | Nothing is left. |
| `Lru.Cache.Replace` | plumbing/cache/buffer_lru.go:49-54 | A key that is there gets its new value at the front, and the size changes by the difference. |
| `Bytes.WordBytes` | plumbing/format/idxfile/encoder.go:58-66 | Words are written with the highest byte first. |
| `IdxFormat.EncodeFanout` | plumbing/format/idxfile/encoder.go:58-66 | The fanout in big-endian words. |
| `IdxFormat.EncodeTable` | plumbing/format/idxfile/encoder.go:68-102 | The non-empty buckets in order. |
| `IdxFormat.Encode` | plumbing/format/idxfile/encoder.go:26-47 | The file of the index and its size, with the computed checksum, which the index also gets. |
| `IdxFormat.FileStarts` | plumbing/format/idxfile/encoder.go:49-66 | A file of version 2 starts with ff 74 4f 63 and the version, and the fanout follows. |
| `IdxFormat.ReadFanout` | plumbing/format/idxfile/decoder.go:85-97 | Reads the fanout and fails exactly on a short file. |
| `IdxFormat.ReadObjectNames` | plumbing/format/idxfile/decoder.go:99-126 | Cuts the names into buckets and gives every non-empty bucket its place; fails exactly on a short file. |
| `IdxFormat.ReadTable` | plumbing/format/idxfile/decoder.go:128-164 | Cuts a table of words into the same buckets; fails exactly on a short file. |
| `IdxFormat.CountWide` | plumbing/format/idxfile/decoder.go:148-152 | Counts the offsets with the high bit. |
| `IdxFormat.WideIs` | plumbing/format/idxfile/decoder.go:148-152 | The words that count as large offsets are those of at least 2^31. |
| `IdxFormat.DecodeFile` | plumbing/format/idxfile/decoder.go:35-56 | The decoder as a function of the bytes. |
| `IdxFormat.DecodeRefuses` | plumbing/format/idxfile/decoder.go:58-83 | Malformed are exactly the files that do not start with ff 74 4f 63, unsupported those with a version above 2. |
| `IdxFormat.RoundTrip` | plumbing/format/idxfile/encoder.go:26-148 | Decoding an encoded index gives back every table, whatever bytes follow. |
| `IdxFormat.DecodeSound` | plumbing/format/idxfile/decoder.go:35-178 | Whatever decodes is well formed, and encoding it gives the bytes that were read. |
| `IdxFormat.DecodeRest` | plumbing/format/idxfile/decoder.go:99-178 | The tables after the fanout as a function of the bytes. |
| `IdxLookup.FindHashIndex` | plumbing/format/idxfile/idxfile.go:74-110 | Binary search in a bucket finds a hash exactly if the index has it anywhere. |
| `IdxLookup.GetOffset` | plumbing/format/idxfile/idxfile.go:148-159 | The 31-bit offset or the 64-bit one it points to. |
| `IdxLookup.OffsetIs` | plumbing/format/idxfile/idxfile.go:148-159 | A word below 2^31 is the offset; any other one points to the 64-bit word of that number. |
| `IdxLookup.MemoryIndex.FindOffset` | plumbing/format/idxfile/idxfile.go:119-144 | Finds exactly the hashes of the index with their offsets, and remembers them. |
| `IdxLookup.MemoryIndex.FindCRC32` | plumbing/format/idxfile/idxfile.go:162-175 | Finds exactly the hashes of the index with their checksums. |
| `IdxLookup.MemoryIndex.GenOffsetHash` | plumbing/format/idxfile/idxfile.go:208-233 | Fills the reverse map with every entry, each under what the reused buffer holds for it. |
| `IdxLookup.MemoryIndex.FindHash` | plumbing/format/idxfile/idxfile.go:178-205 | A hash with the given offset exactly if there is one, however much of the reverse map is filled; with distinct offsets it is what the map remembers for the entry. |
| `IdxLookup.MemoryIndex.ThereAndBack` | plumbing/format/idxfile/idxfile.go:119-205 | With distinct offsets, looking up a hash and then its offset leads back to the hash; it leads back to the same id exactly if the map was not full before or nothing was left behind in the buffer. |
| `IdxLookup.StoredExactly` | plumbing/format/idxfile/idxfile.go:208-233 | What is remembered for an entry is the id of its name if and only if no bucket up to its own but the first has two names, and the first one leaves zeros behind. |
| `IdxLookup.ThreeTails` | plumbing/format/idxfile/idxfile.go:208-233 | An index of three names of which none is remembered under its id. |
| `IdxLookup.TailExample` | plumbing/format/idxfile/idxfile.go:178-205 | Looking up the offset of one of them gives its name, but not its id. |
| `IdxLookup.MemoryIndex.constructor` | plumbing/format/idxfile/idxfile.go:70-72 | Nothing is remembered yet. |
| `CommitGraphFile.SignatureRead` | plumbing/format/commitgraph/chunk.go:34-49 | The signature of each chunk is read back as that chunk. |
| `CommitGraphFile.ReadChunkHeaders` | plumbing/format/commitgraph/file.go:141-169 | The offsets of the chunks, or an error when a needed one is missing. |
| `CommitGraphFile.OpenFileIndex` | plumbing/format/commitgraph/file.go:65-97 | Opening as a function of the bytes. |
| `CommitGraphFile.GetIndexByHash` | plumbing/format/commitgraph/file.go:189-225 | In a sorted file, binary search finds a hash exactly if it is there. |
| `CommitGraphFile.GetHashesFromIndexes` | plumbing/format/commitgraph/file.go:358-387 | The hashes at the given positions. |
| `CommitGraphFile.GetCommitDataByIndex` | plumbing/format/commitgraph/file.go:228-335 | The row of a commit with its spilled parents and its corrected date. |
| `CommitGraphFile.ReadFanout` | plumbing/format/commitgraph/file.go:171-186 | The fanout as a function of the bytes. |
| `CommitGraphFile.ReadEdges` | plumbing/format/commitgraph/file.go:271-286 | The spilled parents up to the marked one. |
| `CommitGraphEncoder.MemoryIndex.Add` | plumbing/format/commitgraph/memory.go:83-94 | Appends the commit and points its hash at it. |
| `CommitGraphEncoder.MemoryIndex.GetIndexByHash` | plumbing/format/commitgraph/memory.go:31-38 | Finds exactly the hashes that were added, each where it was added last. |
| `CommitGraphEncoder.MemoryIndex.GetCommitDataByIndex` | plumbing/format/commitgraph/memory.go:51-71 | The commit, or an error exactly when it or one of its parents is not there. |
| `CommitGraphEncoder.MemoryIndex.Hashes` | plumbing/format/commitgraph/memory.go:74-80 | Every hash once. |
| `CommitGraphEncoder.SortHashes` | plumbing/hash.go:72-82 | The same hashes in strictly increasing order. |
| `CommitGraphEncoder.EncodeChunkHeaders` | plumbing/format/commitgraph/encoder.go:125-141 | The chunk table with running offsets and its closing row. |
| `CommitGraphEncoder.EncodeParents` | plumbing/format/commitgraph/encoder.go:172-189 | The two parent words of a commit, spilling all but the first parent of an octopus. |
| `CommitGraphEncoder.EncodeGenerationV2Data` | plumbing/format/commitgraph/encoder.go:219-237 | Compacting large offsets to the front of the array being read loses none and keeps their order. |
| `CommitGraphWriter.Prepare` | plumbing/format/commitgraph/encoder.go:83-96 | The position of every hash and the cumulative fanout. |
| `CommitGraphWriter.CountExtras` | plumbing/format/commitgraph/encoder.go:98-109 | The numbers of extra edges and of large offsets of the first commits added, as many as there are hashes. |
| `CommitGraphWriter.CountsAgree` | plumbing/format/commitgraph/encoder.go:98-109 | Counting in the order of addition agrees with counting in the order of hashes. |
| `CommitGraphWriter.CountsTell` | plumbing/format/commitgraph/encoder.go:98-109 | Two chunk tables are the same if and only if their counts are. |
| `CommitGraphWriter.AddedTwice` | plumbing/format/commitgraph/memory.go:83-94 | A merge of three parents that is replaced under its hash: the counts do not match. |
| `CommitGraphWriter.OnceEachWritable` | plumbing/format/commitgraph/encoder.go:98-109 | The counts match whenever no hash was added twice. |
| `CommitGraphWriter.EncodeCommitData` | plumbing/format/commitgraph/encoder.go:161-208 | All rows, edges and corrected dates, in the order of hashes. |
| `CommitGraphWriter.Encode` | plumbing/format/commitgraph/encoder.go:28-81 | The file is the sections of the commits last added under each hash, sorted, followed by their checksum, when the counts match. |
| `CommitGraphWriter.EncodeOidLookup` | plumbing/format/commitgraph/encoder.go:152-159 | The hashes one after another. |
| `CommitGraphWriter.EncodeGenerations` | plumbing/format/commitgraph/encoder.go:70-78 | The corrected dates and the large ones. |
| `CommitGraphWriter.EncodeBody` | plumbing/format/commitgraph/encoder.go:50-78 | All sections of the file in order. |
| `CommitGraphWriter.ChunkNames` | plumbing/format/commitgraph/chunk.go:10-42 | The signatures of the fanout and of the hashes, byte by byte. |
| `CommitGraphWriter.DataChunkNames` | plumbing/format/commitgraph/chunk.go:10-42 | The signatures of the commits and of their corrected dates. |
| `CommitGraphWriter.LastChunkNames` | plumbing/format/commitgraph/chunk.go:10-42 | The signature of the further parents, and the zeros that close the table. |
| `CommitGraphWriter.FileBegins` | plumbing/format/commitgraph/encoder.go:113-141 | A file starts with CGPH, version one, hash one, the number of its chunks and a zero, and the first chunk named is the fanout. |
| `CommitGraphWriter.RootRow` | plumbing/format/commitgraph/encoder.go:161-208 | The row of a commit without parents: its tree, twice 0x70000000, and its generation above its time in eight bytes. |
| `CommitGraphRoundTrip.Opens` | plumbing/format/commitgraph/file.go:71-97 | A written file opens, with every chunk where it was put. |
| `CommitGraphRoundTrip.FileSorted` | plumbing/format/commitgraph/file.go:189-225 | A written file is sorted as the search needs it. |
| `CommitGraphRoundTrip.ParentsRead` | plumbing/format/commitgraph/file.go:267-291 | Parents are read back in order, including octopus spill lists. |
| `CommitGraphRoundTrip.DatesRead` | plumbing/format/commitgraph/file.go:298-325 | Corrected dates are read back, small and large. |
| `CommitGraphRoundTrip.RowReadsBack` | plumbing/format/commitgraph/file.go:228-335 | Tree, parents, generation and time are always read back. |
| `CommitGraphRoundTrip.ReadsBack` | plumbing/format/commitgraph/encoder.go:28-246 | A written file gives back every commit when the two tests for large offsets agree. |
| `CommitGraphRoundTrip.FirstLargeMisread` | plumbing/format/commitgraph/encoder.go:219-237 | When they do not agree, the first commit with a large offset is not given back. |
| `CommitGraphRoundTrip.ReadsBackExactly` | plumbing/format/commitgraph/encoder.go:98-109 | All commits are given back exactly when no offset reaches 2^31 or some offset exceeds 2^32-1. |
| `CommitGraphRoundTrip.LargeExample` | plumbing/format/commitgraph/encoder.go:98-109 | One commit with an offset of 2^31 is written and comes back with another date or none. |
| `CommitGraphRoundTrip.WriteAndFind` | plumbing/format/commitgraph/encoder.go:28-81 | Writing an index, opening the file and searching finds a hash exactly if it was added, with what was last added under it. |
| `TreeLayout.SortEntries` | worktree_commit.go:341-354 | The same entries in tree order: each comes before the next by its name, or by its name with a slash if it is a directory. |
| `TreeLayout.OrderIs` | worktree_commit.go:343-350 | The order in which entries are sorted is tree order: that of the names, with a slash after those of directories. |
| `TreeLayout.DotBeforeSlash` | worktree_commit.go:343-350 | In a tree in order, the file a.b comes before the directory a, whatever a is. |
| `TreeLayout.LaysOut` | worktree_commit.go:305-339 | For a clean index, every tree has one entry for each of its members and nothing else, at every step. |
| `TreeLayout.NotRight` | worktree_commit.go:319-339 | A path that comes twice or is a directory of another spoils the layout. |
| `TreeLayout.RightExactly` | worktree_commit.go:305-339 | The layout is right exactly for indices with distinct paths, none a directory of another. |
| `BuildTree.EncodeTree` | plumbing/object/tree.go:299-330 | Refused as unsorted if and only if the entries are not in tree order; if they are, refused if and only if a name has a zero byte. |
| `BuildTree.BuildTreeHelper.DoBuildTree` | worktree_commit.go:319-339 | Adds one component of a path to the tree above it. |
| `BuildTree.BuildTreeHelper.CommitIndexEntry` | worktree_commit.go:305-317 | Adds all components of a path. |
| `BuildTree.BuildTreeHelper.CopyTreeToStorageRecursive` | worktree_commit.go:353-381 | Stores a directory and everything below it; no tree is refused for its order, and one is refused exactly for a bad name. |
| `BuildTree.LookupIs` | worktree_commit.go:353-381 | Going down from a stored directory finds exactly the files of the index. |
| `BuildTree.TreesInOrder` | worktree_commit.go:353-381 | Every stored tree below a directory, at any depth, is in tree order. |
| `BuildTree.BuildTreeHelper.BuildTreeOf` | worktree_commit.go:291-303 | Looking up any path from the root tree gives exactly what the index has there, and every tree below the root is in tree order. |
| `BuildTree.SlashExample` | worktree_commit.go:343-350 | The index of a/x and a.b gives a root with a.b before a. |
| `BuildTree.BuildTreeHelper.constructor` | worktree_commit.go:291-294 | The helper starts with a store and an empty root tree. |
| `BuildTree.BuildTreeHelper.WriteTree` | worktree_commit.go:371-380 | A sorted tree is stored under its hash unless it is there, and refused exactly for a bad name. |

## Left out

- MergeBase.MergeBaseOf: for commits of the same date, which of the two is walked second is not stated, so with missing commits only the common part of the contract applies.
- RevList.ObjectsWithStorageForIgnores: requires both stores to agree on the objects they share, and states exact sets for loadable trees.
- Blame.BlameFile: requires an acyclic history and a line diff whose hunks spell out both texts; the preference between parents is stated for histories that keep it, because whether another one does depends on the dates that order the queue.
- Blame.Blamer.Best: the heap is modelled by a choice of any item that none precedes.
- BlameNeeds.AskParent: an empty needs map is asked of empty files only, as in a run of blame.
- DiffTree.DiffTries: requires that equal hashes mean equal files and that siblings have different names; no node asks to be skipped.
- Hunks.PatchApplies: is about tidy diffs, whose chunks are not empty and in which no two additions or two deletions follow each other.
- Hunks.HunksAreStretches: is about diffs without empty chunks.
- Hunks.HunksGenerator.ProcessHunk: the heading of a hunk, a line before its context, is not modelled.
- NameSimilarity.NameSimilarityScore: requires that one of the two paths has a file name, because the code would divide by zero otherwise.
- SimilarityScore.Score: the products are not bounded by 64 bits.
- RenameDetector.DetectRenames: a change is a value, so lists without repetitions stand for lists of different pointers; the files and their indices are given.
- Lru.Cache.PutEntry: one class for both caches; the lock and the lazily made map are not modelled.
- IdxLookup.MemoryIndex.FindOffset: requires an index whose buckets are sorted and whose large offsets exist.
- CommitGraphFile.GetIndexByHash: chains of commit-graph files are not modelled, and hashes are SHA-1.
- CommitGraphWriter.Encode: requires that the counts match, that parents were added, generations below 2^30 and times below 2^34.
- CommitGraphRoundTrip.WriteAndFind: requires that the two tests for large offsets agree; ReadsBackExactly says what happens otherwise.
- BuildTree.BuildTreeHelper.BuildTreeOf: requires a clean index of files with non-zero hashes, and that equal digests mean equal trees; a path is the list of its names, so joining and cleaning strings is not modelled.
- Transports, pkt-lines, contexts, goroutines and locks: input and output rather than logic.
- File systems, worktrees, checkouts, submodules and filesystem storage: the object store is a map.
- SHA-1, SHA-256, zlib, OpenPGP and the line diff itself: digests and diffs are parameters.
- Renames followed by blame, sparse indices in tree differences, and shallow fetches.
- The iterators for logs, paths and limits, and the iterators over index entries: filters without a set to compare with.
- Text codecs of commits and tags, configuration, URLs, ignore patterns and revision strings.
- Sorting by the standard library: modelled as insertion, with the result the library promises.
- The iteration order of maps: any order, so nothing depends on it.
- Overflow of machine integers, except where a format stores them.
