# Verified models of the Ovvio core

This project models the algorithmic core of the Ovvio repository in Dafny and proves what that core promises. It has six
parts, each in a few files.

**The text diff engine** (`Texts`, `Diffs`, `CommonAffix`, `HalfMatch`, `Bisect`, `BisectOverlap`, `BisectProgress`,
`BisectPaths`, `BisectSearch`, `LineMode`, `CleanupMerge`, `CleanupSemantic`, `DiffMain`, `Uri`, `Delta`). Texts are sequences of 16-bit code units, `substring`
clamps as in JavaScript. The clean-up passes work on a `DiffList` that they splice in place; the path arrays of the
bisection are arrays, and every access is in bounds. The clock is arbitrary at every reading.

**The commit graph** (`Commits`, `MergeBase`, `LowestBase`, `RepoStorage`, `AdjacencyList`, `Repository`, `Records`,
`DeltaCompression`, `RepositoryIndex`). Merge-base search over a graph that may be incomplete or cyclic, the append-only
store, its caches, delta-compressed contents, and a live index.

**The sync protocol** (`Bloom`, `Sync`). Bloom filters down to the byte masks, the scan that builds a message, and the two
peers as a state machine with adversarial false positives and lost messages.

**The linked ordered map and the LRU cache** (`OrderedMap`, `LruCache`). Heap-allocated links, their assertions, and the
eviction policy compared with the history of touches.

**The JSON log** (`JsonLog`). The framing writer with short writes, and the chunked scanner.

**Schedulers** (`SortedQueue`, `Timers`, `ParallelExecutor`). The shared timer queue with its ticker, and the executor.

`Wrappers` and `Sequences` hold small shared definitions. `dafny verify dfyconfig.toml` checks everything.

## What the code does that its comments or names do not say

- Line mode throws a TypeError when the first text ends in a line that is exactly `hasOwnProperty` without a newline: that
  entry hides the method the lookups call (`external/diff-match-patch.ts:532-548`). `LineMode.LinesToChars` states when line
  mode throws, `DiffMain.DiffMain` when a diff does: 100 units "a", a newline and the word against 101 units "b" is such a
  pair. A line `__proto__` is never found in the table again.
- The stepping loop of `diff_cleanupSemanticLossless` does not end on a blank edit before a blank equality
  (`external/diff-match-patch.ts:1037`). The pass does not end when it comes to such a pair between equalities; moving the
  edit before can dissolve the pair first (`CleanupSemantic.EndsExactly`, `CleanupSemantic.PairSwallowed`). The engine itself
  never passes such a list.
- In the same pass the edit is first shifted left by no more than its own length, which is not always "as far left as
  possible" (`external/diff-match-patch.ts:1021`); `CleanupSemantic.FarthestLeft` tells when it is.
- The counter of the equality stack in `diff_cleanupSemantic` can drop below zero (`CleanupSemantic.CounterBelowZero`); later
  entries then land at negative indices, which a JavaScript array keeps (`external/diff-match-patch.ts:868-873`).
- `diff_toDelta` throws on an insertion that holds half of a surrogate pair; diffs by code units can contain one
  (`external/diff-match-patch.ts:1454`).
- `_findLCAMergeBase` is not always a lowest common ancestor: the search starts at the parents, so it misses a commit that
  lies above the other by more than one step (`repo/repo.ts:492-493`); a commit without parents ends it before anything is
  compared, so a root is not the base of itself and its child (`repo/repo.ts:477-479`); and it stops in the first round, so
  after merges it can miss a lower common ancestor that takes longer to reach (`repo/repo.ts:496-510`). `LowestBase` has the
  three inputs and the exact condition for histories without merges. Equal checksums make the first commit the base, whatever the graph says (`repo/repo.ts:483-485`).
- `findMergeBase` skips commits whose ancestry is whole: once the running base is a root, every later commit is dropped
  (`repo/repo.ts:423-435`). Of three commits on one root the third is not merged (`MergeBase.ThirdSiblingSkipped`).
- `SyncMessage.build` without a peer filter sends an empty filter, so a first exchange transfers everything
  (`net/message.ts:299`).
- `scan` looks at the byte behind a short read, which is left over from an earlier one (`base/json-log.ts:157`). At the end
  of a file that stops inside a record it can pass for the missing delimiter, so that a torn record that parses is delivered
  and stays in the file (`JsonLog.LostNewline`).
- `scan` counts two delimiters per record when it truncates, where a batch of several records writes fewer and an empty one
  more (`base/json-log.ts:165`). `JsonLog.TornTail` tells when exactly the torn tail is removed.
- A delta-compressed commit does not keep its record when the scheme changed since its base (`repo/repo.ts:1191-1196`).
- A second `await` on `ParallelExecutor` replaces the first, which is never resolved (`base/parallel-executor.ts:38-40`).

## Model

| member | source | states |
|---|---|---|
| `DiffMain.DiffMain` | external/diff-match-patch.ts:106-164 | For all texts, either line-mode flag and any clock, a diff whose source text is the old text and whose destination text is the new one, with all clean-up of the merge pass done; it ends by the measure (line mode, total length). It throws if and only if, in line mode, what is left after trimming throws. Nothing trimmed is edited; when one of the trimmed texts is within the other, the edits are exactly as many as the lengths differ by; around a half-match the match is kept; and with an unlimited timeout the edits are fewer than all units if and only if some unit of one text occurs in the other. |
| `Diffs.EditBounds` | external/diff-match-patch.ts:1384-1407 | No diff of two texts has fewer edits than their lengths differ by, or more than both have units. |
| `DiffMain.EqualityShares` | external/diff-match-patch.ts:106-164 | A diff with fewer edits than units holds a unit that is in both texts. |
| `DiffMain.DiffCompute` | external/diff-match-patch.ts:178-243 | Whichever speed-up applies (containment, single character, half-match, line mode, bisect), the result describes exactly this pair of texts, and with the few edits that DiffMain promises. It throws if and only if neither text is within the other and either line mode, reached without a half-match by texts over 100 units, throws, or the diff of one of the two sides of the half-match does. |
| `DiffMain.DiffHalves` | external/diff-match-patch.ts:222-236 | Both sides of a half-match, diffed apart and joined around the common middle, describe the whole pair, and the middle is not edited; it throws if and only if one of the sides does. |
| `DiffMain.ThrowsInLineMode` | external/diff-match-patch.ts:138-240 | With an unlimited timeout, or when no half is shared, a diff in line mode throws if and only if the trimmed texts are over 100 units each, neither is within the other, and the old one ends in the bare word while the line table has room. |
| `DiffMain.HarmlessNeverThrows` | external/diff-match-patch.ts:238-240 | No diff throws without line mode, or when one of the texts is at most 100 units long or the old one does not contain the word. |
| `DiffMain.WordAfterLineThrows` | external/diff-match-patch.ts:532-536 | A pair of texts on which the diff throws, with any timeout. |
| `DiffMain.DiffBisect` | external/diff-match-patch.ts:336-454 | Always answers with a diff of the two texts, also when the deadline passes. Texts without a common unit are deleted and inserted whole; with an unlimited timeout, other texts are not. |
| `DiffMain.DiffBisectSplit` | external/diff-match-patch.ts:467-484 | The diffs of the two smaller problems, appended, describe the whole pair; with an unlimited timeout they have fewer edits than units when one of the two pairs shares a unit. |
| `DiffMain.DiffLineMode` | external/diff-match-patch.ts:255-324 | A diff of the line codes, the lines put back, cleaned up, and each replacement diffed again by characters: the result comes about in just these steps and describes the two texts. With an unlimited timeout it has fewer edits than units if the texts share one. It throws if and only if the old text ends in a bare line hasOwnProperty that the line table still stores. |
| `DiffMain.Rediff` | external/diff-match-patch.ts:273-321 | Edits of both kinds between two equalities give way to a diff of their own, all else stays, and both texts are kept, although the list changes under the cursor; there are never more edits than before. |
| `BisectSearch.FindSplit` | external/diff-match-patch.ts:336-454 | Both path arrays are indexed inside their bounds in every round, and any point handed on splits the problem into two strictly smaller ones, one of which shares a unit. Whatever the clock does, a point is handed on only if some unit of one text occurs in the other; with an unlimited timeout, if and only if. |
| `Bisect.WalkFront` | external/diff-match-patch.ts:369-405 | One round of the forward paths: every diagonal of the round is extended as far as the texts agree, run-offs trim the ranges, and a meeting with a reverse path is reported at once. |
| `Bisect.WalkReverse` | external/diff-match-patch.ts:407-446 | The same for the reverse paths. |
| `Bisect.SideStep` | external/diff-match-patch.ts:363-447 | A round leaves one side sound for the next: fresh diagonals hold -1, entries stay within the grid and the bounds of the arrays. |
| `BisectSearch.SearchStep` | external/diff-match-patch.ts:363-447 | A round without a meeting keeps the invariant of both sides together, for even and for odd total length. |
| `BisectSearch.FrontSplit` | external/diff-match-patch.ts:394-404 | A meeting found by a forward path leaves two strictly smaller problems. |
| `BisectSearch.ReverseSplit` | external/diff-match-patch.ts:433-445 | So does a meeting found by a reverse path. |
| `BisectSearch.FrontShares` | external/diff-match-patch.ts:369-405 | Where a forward path meets a reverse one, one of the two parts shares a unit. |
| `BisectSearch.ReverseShares` | external/diff-match-patch.ts:407-446 | The same where a reverse path meets a forward one. |
| `BisectPaths.FollowedStep` | external/diff-match-patch.ts:363-447 | Every recorded point is reached by a path with no more edits than there were rounds: the other units before it are in common, in order. |
| `BisectPaths.MeetingShares` | external/diff-match-patch.ts:394-445 | Paths from both corners that meet before their edits have used up all units have a common unit before or behind the meeting. |
| `BisectSearch.TrackedStep` | external/diff-match-patch.ts:363-447 | A round takes each diagonal one unit further; a side that comes by a place where the texts agree is ahead from then on, on a diagonal that trimming does not reach, and every point is reached by one edit a round. |
| `BisectSearch.GainsMeet` | external/diff-match-patch.ts:363-447 | When the rounds of both sides have counted all units without a meeting, neither side is ahead anywhere. |
| `BisectSearch.SearchEnds` | external/diff-match-patch.ts:363-453 | A search that runs through all its rounds without a meeting: the texts share no unit. |
| `BisectProgress.WideKeeps` | external/diff-match-patch.ts:387-393 | When the first text is at least as long as the second, a gain is not lost to trimming: its diagonal goes on, or the one that cut it off is ahead itself. |
| `BisectProgress.TallKeeps` | external/diff-match-patch.ts:387-393 | The same when the first text is the shorter one. |
| `CommonAffix.CommonPrefix` | external/diff-match-patch.ts:586-610 | The length of the longest common prefix, by binary search. |
| `CommonAffix.CommonSuffix` | external/diff-match-patch.ts:618-646 | The length of the longest common suffix, by binary search. |
| `CommonAffix.CommonOverlap` | external/diff-match-patch.ts:656-696 | The length of the longest suffix of the one text that is a prefix of the other. |
| `HalfMatch.HalfMatchI` | external/diff-match-patch.ts:733-776 | Of the shared substrings that cover the seed the longest is found, the first of several; nothing is returned if and only if it is shorter than half the longer text. |
| `HalfMatch.DiffHalfMatch` | external/diff-match-patch.ts:709-817 | With a timeout and at least four characters, a match is returned if and only if the texts share a substring of at least half the length of the longer; the five parts reassemble both texts, and which match is taken is exact. |
| `HalfMatch.QuartersSuffice` | external/diff-match-patch.ts:778-789 | Trying the second and the third quarter as seeds is enough: every substring of half the length covers one of them. |
| `CleanupMerge.DiffCleanupMerge` | external/diff-match-patch.ts:1168-1305 | Keeps both texts; afterwards no two edits that could be merged are neighbours and no edit can be shifted over an equality. Each repetition lowers (characters inside edits, number of entries): there are never more edits than before. No entry becomes empty. |
| `CleanupMerge.MergeRuns` | external/diff-match-patch.ts:1169-1257 | The first pass keeps both texts, leaves no delete/delete, insert/insert or insert/delete neighbours and no shared ends between a deletion and the insertion after it, and never raises the measure (characters inside edits, number of entries). |
| `CleanupMerge.MergeRun` | external/diff-match-patch.ts:1189-1252 | The run and the equality after it are replaced, nothing else touched, by at most one deletion and one insertion with distinct ends, their common ends moved into the equalities around the run; the cursor ends just after them. |
| `CleanupMerge.FactorEnds` | external/diff-match-patch.ts:1192-1228 | The common prefix and suffix of a deletion and an insertion are split off completely. |
| `CleanupMerge.TryShift` | external/diff-match-patch.ts:1266-1298 | A shift of an edit over an equality keeps both texts and removes one entry; it is refused only where none is possible. |
| `CleanupMerge.ShiftEdits` | external/diff-match-patch.ts:1259-1300 | When the second pass reports no change the list is untouched and no edit can be shifted; otherwise the list has become shorter. Texts and edit size are kept. |
| `CleanupSemantic.DiffCleanupSemantic` | external/diff-match-patch.ts:823-949 | Keeps both texts through elimination, merging, shifting and overlap extraction; it ends if and only if there was something to eliminate or the shifting pass ends on the list as given. What each step makes of the list is exact but for the merging: only equalities trivial at their turn are eliminated and none is left, a list without any is not merged, every edit is moved as in the pass, and every deletion before an insertion has the longer of its longest overlaps with it taken out if it is half of either. |
| `CleanupSemantic.EliminateEqualities` | external/diff-match-patch.ts:823-883 | Keeps both texts, although the cursor rewinds over a list that grows; the stack points at live equalities throughout, only equalities no larger than the edits on both sides of them are eliminated, one after the other, and at the end none is left. Changes are reported if and only if there was such an equality. |
| `CleanupSemantic.CounterBelowZero` | external/diff-match-patch.ts:868-873 | An insertion, an equality and an insertion of one unit each: the counter of the stack is -1 after the elimination. |
| `CleanupSemantic.ScanBack` | external/diff-match-patch.ts:868-882 | After an elimination nothing before the rewound cursor needs to be looked at again. |
| `CleanupSemantic.StackPop` | external/diff-match-patch.ts:868-873 | Popping two entries and rewinding leaves a stack of live equalities. |
| `CleanupSemantic.ExtractOverlap` | external/diff-match-patch.ts:899-946 | The longer of the two overlaps of a deletion and an insertion is taken out as an equality exactly when it is half as long as either; both texts are kept. |
| `CleanupSemantic.OverlapLeavesTrivial` | external/diff-match-patch.ts:894-924 | An overlap taken out of edits that stand alone is itself no larger than what is left on both sides if and only if it is half of the shorter: the extraction can leave a trivial equality again. |
| `CleanupSemantic.DiffCleanupSemanticLossless` | external/diff-match-patch.ts:957-1072 | Keeps both texts, for every list; ends if and only if it never comes to a blank edit before a blank equality, between equalities, and leaves exactly what placing one edit after the other gives. Without such a pair it ends and creates none. |
| `CleanupSemantic.OneEditPlaced` | external/diff-match-patch.ts:1008-1071 | An edit that alone stands between equalities ends at its best place, blank equalities dropped, and nothing else changes. |
| `CleanupSemantic.BestPlace` | external/diff-match-patch.ts:1017-1051 | Of all places where the edit could stand without changing either text, from its own length to the left of where it is, the one with the best score is found; ties go to the right. |
| `CleanupSemantic.PlaceEdit` | external/diff-match-patch.ts:1012-1069 | Writes the best place of one edit back into the list, dropping equalities that became blank, and moves the cursor along. |
| `CleanupSemantic.ShiftedKeeps` | external/diff-match-patch.ts:1012-1069 | Moving an edit to its best place keeps both texts and creates no blank pair. |
| `CleanupSemantic.EndsExactly` | external/diff-match-patch.ts:1008-1071 | Where no blank pair can be reached by moving an earlier edit, two edits or the beginning of the list standing before it, the pass ends if and only if there is no blank pair. |
| `CleanupSemantic.PairSwallowed` | external/diff-match-patch.ts:1008-1071 | A list that begins with a blank pair and on which the pass ends: an earlier edit swallows the pair. |
| `CleanupSemantic.BlankPairNeverEnds` | external/diff-match-patch.ts:1037-1040 | A blank edit before a blank equality passes the guard of the stepping loop, and a step leaves both blank: that loop does not end. |
| `CleanupSemantic.MergedHasNoBlankPair` | external/diff-match-patch.ts:1259-1300 | After the merge clean-up there is no blank pair, so the pass ends whenever the engine itself calls it. |
| `CleanupSemantic.FarthestLeft` | external/diff-match-patch.ts:1021-1028 | The first shift goes as far left as possible if and only if it is not the case that the common suffix is the whole edit and the equality continues before it with the last unit of the edit. |
| `CleanupSemantic.NotFarthestLeft` | external/diff-match-patch.ts:1021-1028 | With "aa" before the edit "a" it does not. |
| `LineMode.LinesToChars` | external/diff-match-patch.ts:497-559 | Decoding the two strings of line codes over the shared table gives back the two texts, code for line, the last code of a full table standing for the rest; no line has two codes unless it is the name __proto__, which is never found again. It throws if and only if the second text is looked up after the first has stored the word that hides the lookup. |
| `LineMode.LineTable.Munge` | external/diff-match-patch.ts:516-552 | One text becomes codes, one for each of its lines, the table staying within the given number of lines; the last code takes the rest when the table is full. |
| `LineMode.LineTable.LookUpOrAdd` | external/diff-match-patch.ts:532-548 | A known line gets its code, a new one is appended; the name __proto__ is never found again because assigning it stores nothing. |
| `LineMode.CharsToLines` | external/diff-match-patch.ts:568-577 | Every entry of a diff of codes is replaced by the lines its codes stand for. |
| `LineMode.RehydratedTexts` | external/diff-match-patch.ts:568-577 | A diff of the codes, with lines put back, is a diff of the decoded texts. |
| `Diffs.DiffText1` | external/diff-match-patch.ts:1384-1392 | All equalities and deletions, joined. |
| `Diffs.DiffText2` | external/diff-match-patch.ts:1399-1407 | All equalities and insertions, joined. |
| `Diffs.SpliceKeeps` | external/diff-match-patch.ts:1168-1305 | Splicing entries that describe the same pair of texts in place of others changes neither text of the list. |
| `Delta.DiffToDelta` | external/diff-match-patch.ts:1449-1465 | Computes the delta text, or throws. |
| `Delta.DeltaForm` | external/diff-match-patch.ts:1441-1465 | Keep three, delete two, insert "ing" is written as "=3", "-2" and "+ing" with tabs between. |
| `Delta.DiffFromDelta` | external/diff-match-patch.ts:1475-1527 | Reads a delta against a source text, or throws. |
| `Delta.DeltaRoundTrip` | external/diff-match-patch.ts:1442-1527 | Whatever list can be written is read back unchanged against its source text, the empty list and empty entries included. |
| `Delta.ToDeltaThrows` | external/diff-match-patch.ts:1453-1455 | Writing throws if and only if some insertion holds half of a surrogate pair. |
| `Delta.CutPairThrows` | external/diff-match-patch.ts:1453-1455 | Such a list arises from replacing one emoji by its neighbour. |
| `Delta.AcceptedDelta` | external/diff-match-patch.ts:1475-1527 | Every delta that is accepted describes an edit of exactly the given source text. |
| `Delta.JoinSpaces` | external/diff-match-patch.ts:1464 | Restoring spaces over the joined text is the same as encoding every token with its spaces kept. |
| `Uri.RoundTrip` | external/diff-match-patch.ts:1454-1490 | What encodeURI writes, with spaces restored, decodeURI reads back. |
| `Uri.EncodeThrows` | external/diff-match-patch.ts:1454 | encodeURI throws exactly on a lone surrogate. |
| `MergeBase.FindLCAMergeBase` | repo/repo.ts:473-547 | The shortcuts in their order; otherwise the newest readable commit that both sides reach in the first round that finds one, or nothing if no round ever does; and whether a root was passed on the way. |
| `MergeBase.Search` | repo/repo.ts:492-546 | The search ends on every finite graph, with missing commits and with cycles. |
| `MergeBase.Grow` | repo/repo.ts:511-541 | One round adds exactly the parents of the known commits in the set; it reports whether the set grew and whether a commit without parents was seen. |
| `MergeBase.PickBase` | repo/repo.ts:499-510 | The newest known and readable commit among the candidates, if there is one: no other has a later timestamp. |
| `MergeBase.WithinIsPaths` | repo/repo.ts:492-541 | The sets that grow hold exactly the ends of parent chains of bounded length. |
| `MergeBase.BaseIsCommon` | repo/repo.ts:473-547 | The base is known, readable and reached from both sides, the longer chain being as long as the number of rounds. |
| `MergeBase.BaseIsNearest` | repo/repo.ts:473-547 | No readable common ancestor has a shorter longer chain; among equals none has a later timestamp, and of the latest the base has the largest id. |
| `MergeBase.NoBaseNoPaths` | repo/repo.ts:473-547 | Nothing is returned if and only if parent chains from the two sides never meet in a known, readable commit. |
| `MergeBase.NeverEitherSide` | repo/repo.ts:473-491 | Without cycles the search returns an ancestor of both commits and never one of the two, even where one is an ancestor of the other; only a direct parent is its own base. |
| `LowestBase.LowestExactly` | repo/repo.ts:473-547 | In a history without cycles and merges, for two different readable commits of one key and with different contents, the answer is right (their lowest common ancestor, or nothing where there is no common ancestor) if and only if neither lies more than one step above the other and neither is a direct parent of the other without parents of its own. |
| `LowestBase.RootMissed` | repo/repo.ts:477-479 | A root and its child: the root is their lowest common ancestor, and the answer is nothing. |
| `LowestBase.TooHigh` | repo/repo.ts:492-493 | In any history without cycles, a searched base is not the lowest common ancestor when one of the two commits lies above the other. |
| `LowestBase.LowestOnChains` | repo/repo.ts:492-547 | In a history without merges it is the lowest when neither lies above the other. |
| `LowestBase.AncestorMissed` | repo/repo.ts:492-493 | A line of four commits: of the first and the third the base is the fourth. |
| `LowestBase.MergeHidesLower` | repo/repo.ts:496-510 | Six commits, one of them a merge: neither of the two is above the other, and the base is the parent of another common ancestor. |
| `MergeBase.FindMergeBase` | repo/repo.ts:403-448 | A readable commit is skipped if and only if, at its turn, there is a running base and it or the commit has no parents, or their keys differ, or their contents differ, neither is a parent of the other and their ancestors never meet in a readable commit; else the next running base is what the search answers for the two. The included commits, the base and the flag follow exactly. The base exists if and only if one commit is readable; it lies above the first, and above every other that is included or a stored commit with the same contents. |
| `MergeBase.NothingAfterRoot` | repo/repo.ts:423-435 | Once the running base has no parents no further commit is included, whatever its ancestry. |
| `MergeBase.ThirdSiblingSkipped` | repo/repo.ts:412-435 | Three readable commits whose only parent is one root: the root is the base of the first two, and the third is skipped. |
| `Commits.NewerTotal` | repo/repo.ts:1631-1639 | Commits with different ids are never tied: the order by timestamp, then id, is strict. |
| `Commits.NewerMeans` | repo/repo.ts:1631-1639 | The later commit comes first; at one time, the one whose id has the larger unit where the two first differ, or goes on where the other ends. |
| `Commits.NewerTransitive` | repo/repo.ts:1631-1639 | That order is transitive. |
| `Commits.Prioritize` | repo/repo.ts:500-504 | The known commits among the ids, each once, the latest first. |
| `RepoStorage.MemRepoStorage.PersistCommits` | repo/repo.ts:1701-1719 | The store becomes its union with what arrives, the per-key lists partition it, and exactly the new commits are reported, each once and in order; the assertion that known copies are equal cannot fail. |
| `RepoStorage.MemRepoStorage.CommitsForKey` | repo/repo.ts:1685-1691 | Exactly the stored commits of a key. |
| `RepoStorage.ArrivalOrder` | repo/repo.ts:1701-1719 | Order, batching and repetitions of arrivals do not matter to the store, and so not to its childless set either. |
| `RepoStorage.ArrivedTwice` | repo/repo.ts:1339-1346 | Two batches in a row are one batch, for the store and for what is reported as new. |
| `AdjacencyList.SimpleAdjacencyList.AddEdge` | cfds/client/graph/adj-list.ts:48-73 | Adds the edge at both ends; the assertion that both ends agree cannot fail. |
| `AdjacencyList.SimpleAdjacencyList.HasInEdges` | cfds/client/graph/adj-list.ts:43-46 | Holds if and only if some edge leads to the vertex. |
| `Repository.Repository.HasInEdges` | repo/repo.ts:361-369 | Holds if and only if a stored commit names the id as parent. |
| `Repository.Repository.PersistVerifiedCommits` | repo/repo.ts:1330-1385 | Everything but the commits of other organisations arrives in the store in batches of 50; edges, cached heads and cached values stay in agreement with it. |
| `Repository.OursAre` | repo/repo.ts:1335-1338 | Exactly the commits without an organisation or of this one are taken, in order. |
| `Repository.Repository.PersistBatch` | repo/repo.ts:1346-1356 | The same for one batch: what is dropped from the caches is enough. |
| `Repository.Repository.HeadForKey` | repo/repo.ts:794-817 | If the key has leaves (readable commits that no stored commit names as parent), the head is one of them, preferred to the latest leaf of every connection; else it is the preferred one of all readable commits, and there is none only if none can be read. Cached or not, it is the same. |
| `Repository.HeadIsBest` | repo/repo.ts:803-816 | That is what choosing among the latest leaves, and then among all commits, comes to. |
| `Repository.Repository.ValueForKey` | repo/repo.ts:1046-1062 | The record of the current head, cached or not; the null record without a head. |
| `Repository.Repository.LeavesForKey` | repo/repo.ts:361-370 | Of the readable commits of a key without children one for every connection, and none of that connection is later. |
| `Repository.PickBestCommitForCurrentClient` | repo/repo.ts:758-780 | A readable commit if there is one. None is closer to the client (its connection, then its session, then all others), and none that is as close is later. |
| `Repository.FilterLatestCommitsByConnection` | repo/repo.ts:852-861 | Exactly one commit of every connection, in the order in which the connections first appear; none of that connection has a later timestamp, and of equally late ones it is the first. |
| `Repository.HeadReadable` | repo/repo.ts:794-817 | A key has a head if and only if one of its commits can be read, and the head is such a commit. |
| `Repository.RecordKept` | repo/repo.ts:670-730 | Commits for other keys never change the record of a commit. |
| `Repository.HeadKept` | repo/repo.ts:794-817 | Commits for other keys never move the head of a key. |
| `Repository.CachesKept` | repo/repo.ts:1351-1355 | Keys of which nothing new arrived keep head and value, so their cache entries may stay. |
| `Repository.LinkedArrived` | repo/repo.ts:1347-1350 | The adjacency list keeps listing exactly the parent links of the stored commits. |
| `Records.DiffData` | cfds/base/object.ts:200-249 | The changes of every field whose values differ, and of no other. |
| `Records.PatchData` | cfds/base/object.ts:251-271 | Every changed field gets its patched value or disappears; a field unknown to the scheme throws. |
| `Records.DiffPatch` | cfds/base/object.ts:200-271 | Under the laws of the field types, patching with a diff gives the record that was compared with. |
| `Records.DiffNames` | cfds/base/object.ts:200-249 | Where equal values have no changes, a diff names exactly the fields that differ. |
| `Records.ConcatChanges` | cfds/base/object.ts:402-418 | Per field the changes of the first list, then those of the second. |
| `Records.ConcatPatch` | cfds/base/object.ts:251-418 | Patching with concatenated changes is patching twice. |
| `DeltaCompression.DeltaCompressIfNeeded` | repo/repo.ts:1175-1227 | An edit on top of the newest commit of the key that holds a whole record if there is one, the edit is small enough, it is no session, and chance does not decide for a whole record; the commit itself in every other case. |
| `DeltaCompression.LastRecordCommit` | repo/repo.ts:1229-1240 | The newest commit with a whole record; none only if there is none. |
| `DeltaCompression.DecodeEdit` | repo/repo.ts:670-730 | An edit decodes to the record it was made for if and only if both records have the same scheme. |
| `DeltaCompression.CompressionKeepsRecord` | repo/repo.ts:1175-1227 | The compressed commit has the record of the full one if and only if the scheme has not changed since its base. |
| `RepositoryIndex.RepositoryIndex.OnNewCommit` | repo/index.ts:47-70 | Brings the entry of one key up to date and leaves all others alone; nothing is touched when its record equals the one the index has, and else the cached rows are dropped. |
| `RepositoryIndex.RepositoryIndex.Values` | repo/index.ts:105-121 | A cached result is always what sorting the current rows afresh would give. |
| `RepositoryIndex.RepositoryIndex.RecordForKey` | repo/index.ts:93-103 | For a key that is up to date, the record of its head. |
| `RepositoryIndex.RepositoryIndex.Activate` | repo/index.ts:32-35 | One scan of all keys brings every entry up to date. |
| `RepositoryIndex.RepositoryIndex.Run` | repo/index.ts:47-70 | Over any interleaving of changes and delivered events, a key is out of date only while an event for it waits. |
| `RepositoryIndex.DrainedRows` | repo/index.ts:105-121 | Once its events have drained, a key with a non-null head record is listed, with that record, if and only if the record passes. |
| `RepositoryIndex.PersistMovesOn` | repo/repo.ts:1330-1385 | Persisting commits moves the heads of their keys only, keeps every record and never loses a head: what the index relies on. |
| `Sync.Build` | net/message.ts:261-315 | With a peer filter and missing values asked for, exactly the entries the peer filter does not report are sent, in order, and the bits of the filter are exactly those that its hashes assign to the ids of the collection; otherwise the filter goes out empty and nothing is sent. |
| `Sync.Scan` | net/message.ts:298-308 | The scan itself: the bits of every id are set and no others, and the peer filter answers as before. |
| `Sync.StepSafe` | net/message.ts:80-94 | One event (a cycle with arbitrary false positives and losses, or a new entry) conserves the union, changes no stored copy, and adds nothing to the difference but the new entry. |
| `Sync.RunSafe` | net/message.ts:80-94 | The same over any run: the union is the initial one and what was stored since, both sides only grow. |
| `Sync.RecordedNotSent` | net/message.ts:85-90 | No value recorded in the received filter is sent; to a first message, whose filter is empty, everything is. |
| `Sync.ScanIsSent` | net/message.ts:298-308 | What the scan collects is what the protocol model sends. |
| `Sync.Converges` | net/message.ts:92-94 | If every id that one side still lacks gets through in the end, both collections become equal to the initial union and stay so. |
| `Bloom.BitField.Set` | base/bloom.ts:53-62 | Writes one bit and leaves every other bit alone. |
| `Bloom.BitField.Get` | base/bloom.ts:47-51 | Reads that bit. |
| `Bloom.WithBitAt` | base/bloom.ts:47-62 | A bit reads back as written; all others are unchanged. |
| `Bloom.BloomFilter.Add` | base/bloom.ts:152-166 | Everything added, and everything reported before, is reported; the hashes are back at their seeds. |
| `Bloom.BloomFilter.Has` | base/bloom.ts:171-183 | Answers whether all bits of the value are set, and leaves the hashes at their seeds. |
| `Bloom.NoFalseNegatives` | base/bloom.ts:152-183 | Whatever was ever added is still reported, after any further additions. |
| `Bloom.AddBitsAt` | base/bloom.ts:158-164 | Adding sets exactly the bits that the hashes assign to the value. |
| `Bloom.Transfer` | base/bloom.ts:193-212 | A serialised and restored filter answers identically for every string. |
| `OrderedMap.Link.Detach` | base/collections/orderedmap.ts:212-222 | Takes a link out of a consistent chain and leaves a consistent chain; its assertions hold. |
| `OrderedMap.Link.InsertBefore` | base/collections/orderedmap.ts:247-259 | Moves a link, from wherever it is, before another one; the chain stays consistent and all assertions hold. |
| `OrderedMap.Link.InsertAfter` | base/collections/orderedmap.ts:233-245 | The same behind another one. |
| `OrderedMap.OrderedMap.Length` | base/collections/orderedmap.ts:261-267 | Following the links from the head meets two links more than there are keys: what every operation asserts. |
| `OrderedMap.OrderedMap.AddImpl` | base/collections/orderedmap.ts:69-81 | A new key goes to the end without a value; a known one keeps place and value. |
| `OrderedMap.OrderedMap.Set` | base/collections/orderedmap.ts:65-67 | As before, and the key has the value. |
| `OrderedMap.OrderedMap.MoveToEnd` | base/collections/orderedmap.ts:86-94 | A known key becomes the last one; nothing else changes. |
| `OrderedMap.OrderedMap.MoveToStart` | base/collections/orderedmap.ts:99-107 | A known key becomes the first one; nothing else changes. |
| `OrderedMap.OrderedMap.Delete` | base/collections/orderedmap.ts:144-154 | The key and its value are gone, the order of the others is kept. |
| `OrderedMap.OrderedMap.Clear` | base/collections/orderedmap.ts:164-168 | No keys are left. |
| `OrderedMap.OrderedMap.Next` | base/collections/orderedmap.ts:109-118 | The key after the given one in the sequence, if any. |
| `OrderedMap.OrderedMap.Prev` | base/collections/orderedmap.ts:120-129 | The key before it, if any. |
| `OrderedMap.OrderedMap.StartKey` | base/collections/orderedmap.ts:44-46 | The first key, if any. |
| `OrderedMap.OrderedMap.Entries` | base/collections/orderedmap.ts:194-196 | An uninterrupted iteration lists every key once, in order, with its value. |
| `LruCache.LRUCache.Get` | base/collections/lru-cache.ts:30-33 | The value, and the step of the recency list. |
| `LruCache.LRUCache.Has` | base/collections/lru-cache.ts:35-38 | Membership; testing counts as touching. |
| `LruCache.LRUCache.Set` | base/collections/lru-cache.ts:56-65 | The step of the recency list for a write, eviction included. |
| `LruCache.LRUCache.Delete` | base/collections/lru-cache.ts:67-69 | The step of the recency list for a removal. |
| `LruCache.LRUCache.SetLimit` | base/collections/lru-cache.ts:25-28 | The step of the recency list for a new limit. |
| `LruCache.LRUCache.EvictValuesIfNeeded` | base/collections/lru-cache.ts:75-85 | The loop drops exactly the oldest entries over the limit and tells the handler each once, in order. |
| `LruCache.RunByRecency` | base/collections/lru-cache.ts:25-86 | After any run a positive limit is respected and the keys stand in the order of their last touch, read off the history alone. |
| `LruCache.OldestEvicted` | base/collections/lru-cache.ts:75-85 | What leaves was touched before everything that stays, and is reported with the value it had. |
| `LruCache.JustSet` | base/collections/lru-cache.ts:56-65 | The key just set is present, newest of all, with its new value. |
| `JsonLog.JSONLogFile.Append` | base/json-log.ts:61-82 | Whatever part of the buffer each write takes, the file grows by exactly the framed batch. |
| `JsonLog.JSONLogFile.Scan` | base/json-log.ts:109-184 | Yields the records the scanner sees until one does not parse, and truncates only then or when the file ends inside a record. |
| `JsonLog.ScanRead` | base/json-log.ts:131-174 | One read: records that end in it are parsed, the rest waits in the growing buffer. |
| `JsonLog.AppendBytes` | base/json-log.ts:202-219 | The buffer holds what it held and the new bytes behind, grown to whole pages if need be. |
| `JsonLog.LogLines` | base/json-log.ts:72-81 | The records of a log are those of its batches, in order, whatever their sizes. |
| `JsonLog.ScanFindsRecords` | base/json-log.ts:120-174 | For reads of any sizes the scanner sees the records of the file if and only if no read stops inside a record with a delimiter left behind it in the buffer. |
| `JsonLog.CutsCount` | base/json-log.ts:157-160 | Every such read makes exactly one record too many. |
| `JsonLog.FullReadsCutNothing` | base/json-log.ts:120-126 | When every read but the last fills the buffer there is no such read. |
| `JsonLog.AppendedComesBack` | base/json-log.ts:61-184 | What was appended is read back, every record once and in order, and nothing is truncated. |
| `JsonLog.FullReadsComeBack` | base/json-log.ts:120-126 | In particular with full reads, wherever they divide the records. |
| `JsonLog.TornTail` | base/json-log.ts:120-182 | When no read cuts a record, unless the one that takes the last byte of the file, a scan removes a torn tail exactly if and only if the log holds two delimiters per record and the torn text does not both parse and find a left-over delimiter behind it; in that case nothing is truncated and the torn record is delivered. |
| `JsonLog.TornTailFullReads` | base/json-log.ts:120-182 | With full reads and without empty batches: if and only if every batch held one record and not (the file ends in a short read behind a full one, a delimiter stands one buffer before its end, and the torn text parses). |
| `JsonLog.LostNewline` | base/json-log.ts:156-163 | A record of 8190 bytes, appended twice, the last newline lost: both copies are delivered and nothing is truncated. |
| `JsonLog.TwoPerRecord` | base/json-log.ts:72-81 | A log without empty batches holds at most two delimiters per record, and exactly two if and only if every batch held one record. |
| `SortedQueue.BSearch` | base/algorithms.ts:18-44 | The place of a value in a sorted array: everything before is below it, everything behind above. |
| `SortedQueue.SortedQueue.Push` | base/collections/queue.ts:33-39 | Inserts at the place that keeps the order, unless present. |
| `SortedQueue.SortedQueue.Pop` | base/collections/queue.ts:41-43 | Takes the last element, if any. |
| `SortedQueue.SortedQueue.Delete` | base/collections/queue.ts:45-53 | Removes the value if and only if it is there, and nothing else. |
| `SortedQueue.SortedQueue.Has` | base/collections/queue.ts:55-59 | Finds the value if and only if it is there. |
| `Timers.Scheduler.Schedule` | base/timer.ts:93-104 | The timer waits afterwards, a waiting one with its old deadline; no assertion fails, and the ticker runs. |
| `Timers.Scheduler.Unschedule` | base/timer.ts:106-112 | The timer does not wait afterwards; the ticker stops with the last one. |
| `Timers.Scheduler.Reset` | base/timer.ts:235-244 | A waiting timer gets a new deadline, another one is left alone. |
| `Timers.Scheduler.Fire` | base/timer.ts:114-122 | The commands of the callback are performed in order, then the timer is scheduled again if it asks for it; whatever they do, the scheduler is settled afterwards and no assertion fails. |
| `Timers.Scheduler.PopDue` | base/timer.ts:25-32 | The timer taken is due and has the earliest deadline of all, the newest of several; nothing is taken only if nothing is due. |
| `Timers.Scheduler.Tick` | base/timer.ts:13-37 | At every reading within the time limit the due timer with the earliest deadline fires, and no other; the tick ends only because a reading is past the limit, because nothing is due, or because the readings end. The scheduler is settled afterwards. |
| `Timers.DueFires` | base/timer.ts:18-35 | A timer that waits, due by the reading at which a tick runs out of work, and that no callback touches, has fired in that tick. |
| `Timers.Scheduler.Run` | base/timer.ts:13-126 | After every event of any interleaving a timer is marked exactly while it is queued, the queue is strictly sorted, and the ticker runs exactly while it is not empty; every call is performed, and every tick fires what Tick promises. |
| `Timers.SortedAround` | base/timer.ts:85-91 | Lookups are well defined for every timer, queued or not. |
| `Timers.LastIsEarliest` | base/timer.ts:85-91 | The end of the queue has the earliest deadline, and of several the newest timer. |
| `ParallelExecutor.ParallelExecutor.Push` | base/parallel-executor.ts:27-32 | The action joins the end of the queue and starts if the limit allows. |
| `ParallelExecutor.ParallelExecutor.Activate` | base/parallel-executor.ts:43-63 | Starts the first action that waits, and only that. |
| `ParallelExecutor.ParallelExecutor.Settle` | base/parallel-executor.ts:52-59 | A finished action leaves; exactly the next in line starts in its place, or the waiter is told when nothing is left. |
| `ParallelExecutor.ParallelExecutor.Await` | base/parallel-executor.ts:34-41 | Resolves at once on an empty queue, else replaces the previous waiter. |
| `ParallelExecutor.ParallelExecutor.NotifyIfNeeded` | base/parallel-executor.ts:65-74 | Tells the waiter once, and only when nothing is left. |
| `ParallelExecutor.ParallelExecutor.Drain` | base/parallel-executor.ts:27-74 | In whatever order actions finish, all run, in push order and each once, and one waiter is resolved at the very end. |
| `ParallelExecutor.ParallelExecutor.Run` | base/parallel-executor.ts:27-74 | Over any interleaving, the first min(concurrency, length) entries of the queue run, nothing starts twice, and no more waiters are resolved than waited; how long the queue is and who has been told is exact. |

## Left out

- BisectSearch.FindSplit: that a split lies on a shortest edit path is not stated; with a limited timeout the clock may end the search in any round.
- CleanupSemantic.DiffCleanupSemantic: that no trivial equality remains is stated for the elimination pass; extraction can leave one again (CleanupSemantic.OverlapLeavesTrivial), and what merging does to the equalities is stated only as far as both texts and the number of edited characters go.
- CleanupSemantic.BestPlace: the boundary score, which is built from regular expressions, is an arbitrary function.
- JsonLog.JSONLogFile.Append: the call order that the serial scheduler enforces is not modelled; a write is assumed to take at least one byte. JSON encoding and UTF-8 are not modelled, records are byte strings without newline.
- Timers.Scheduler.Run: callbacks are sequences of calls on timers and do not throw; deadlines are real numbers, so NaN and infinite intervals are not covered.
- SortedQueue.SortedQueue.Push: the comparator, a field in the source, is passed to every call, since Dafny does not store functions that read the heap.
- ParallelExecutor.ParallelExecutor.Push: actions neither throw nor push synchronously while they start.
- Repository.Repository.PersistVerifiedCommits: equal ids mean equal commits, and parents and delta bases belong to the key of their commit; the signature check, the authoriser, session discovery and the emitting of events are not modelled. Which commits count as probable leaves is arbitrary.
- Repository.Repository.ValueForKey: records are values, so copying and locking them is not modelled. A recent cached head written by the merge path is not covered.
- RepositoryIndex.RepositoryIndex.OnNewCommit: the deletion marker is part of the predicate; temporary records, which a scan never produces, are not modelled. Sorting is an arbitrary function of the rows.
- Repository.RecordKept: the memoised verdict on corrupted commits and the fallback to the last good commit are not modelled; a corrupted commit is unreadable, and a cycle of delta bases counts as unreadable where the source would not end.
- MergeBase.FindMergeBase: the choice of the scheme is not modelled. Whether a commit is readable is an arbitrary predicate there.
- LruCache.LRUCache.EvictValuesIfNeeded: the eviction handler does not touch the cache; limits are integers.
- OrderedMap.OrderedMap.Entries: an iteration that is interrupted by a mutation is not modelled.
- Bloom.BloomFilter.Add: the hash is an arbitrary function of its seed and of the strings fed since its reset; size and number of hashes are arbitrary, since their formulas use floating point. Base64 is taken as lossless.
- Sync.Build: the number of times a client submits one commit is not limited; sizes and accuracy of filters are arbitrary.
- The fuzzy matcher, patches, `diff_cleanupEfficiency`, `diff_xIndex`, HTML output and the Levenshtein distance of the diff engine.
- Updating a diff tuple that two lists share: entries are values, only the list is updated in place.
- Three-way merging of records, `commitsWithUniqueRecords`, rebasing, and everything that signs or verifies commits.
- Network, storage back ends other than memory, user interface and server control.
