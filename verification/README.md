# Verified models of mcp-lsp-bridge

Dafny models of the algorithmic parts of mcp-lsp-bridge, a Go server that puts
language servers behind MCP tools, with proofs of what these parts are for.
`dafny verify dfyconfig.toml` checks everything.

| file | what it models |
|---|---|
| `TextLines.dfy` | documents as lines; split and join; line/character positions as flat offsets |
| `TextEdits.dfy` | the simultaneous edit of LSP 3.17, and why splicing lines achieves it |
| `ExchangeSort.dfy` | the sort of the edits, and where it takes each of them |
| `EditConformance.dfy` | what the code computes for edits that share a start, and when that meets LSP |
| `Overhang.dfy` | edits with a character beyond the end of a line: when skipping them meets LSP |
| `ApplyEdits.dfy` | applying a list of text edits: the sort in place and the loop that splices lines |
| `RangeContent.dfy` | reading a range of a document |
| `DependencyGraph.dfy` | breadth-first depth and depth-first "circularity" on symbol graphs |
| `DependencyPatterns.dfy` | building the symbol graph and reporting its edges |
| `ConfigMerge.dfy` | merging configurations; what a fold of merges contains |
| `ConfigImports.dfy` | the recursive import loader |
| `ImportOrder.dfy` | in which order the loader reads files, and what its errors mean |
| `Subscriptions.dfy` | the subscription tracker with its two mirrored maps |
| `AnalysisCache.dfy` | the cache with expiry and least-recently-used eviction |
| `CacheKeys.dfy` | the keys under which the analyzer caches |
| `FanOut.dfy` | concurrent fan-out and collection over a buffered channel |
| `Flatten.dfy` | flattening the collected results |
| `SemanticTokens.dfy` | decoding relative semantic tokens |
| `Deduplication.dfy` | deduplicating locations and symbol forests by printed keys |
| `Collections.dfy` | notions about sequences, sets and multisets that the others share |

Code that updates variables or fields is modelled by methods and classes, each
proved against a function or a relation on values; the laws are lemmas about
those. Nondeterminism of the original (the order in which Go visits a map, the
interleaving of goroutines) is left open, so every result holds for all orders.

## What the proofs found

Where a law fails of the code, the model keeps the code, a lemma gives a failing
input, and the exact condition under which the law holds is proved.

* **Which edits are skipped.** The code decides this on the partly edited lines. For
  every list without overlap that is the decision on the original document, but for
  an edit that ends beyond its line and is overtaken: insertions sorted before it, at
  its own start, have made the line long enough
  (`TextEdits.SkippedExactlyWhen`, an if and only if;
  `EditConformance.OvertakenCounterexample`).
* **Edits that share a start.** LSP permits any number of insertions, then one
  replacement or deletion, at one position, and orders their texts by the list.
  The code applies the sorted edits last to first, and its sort is not stable: in
  each pass the edits that start later than all before them move one place on, past
  edits with equal starts (`ExchangeSort.PassObeysLaw`). So insertions come out in the
  reverse of the sorted order (two that stand alone are swapped, two in front of one
  later edit are right, `EditConformance.TwoInsertionsBeforeALaterEdit`), and a replacement that is applied after an
  insertion at its start takes the inserted text for old text. What the code
  computes is known for every list without overlap
  (`EditConformance.CodeIsOneEdit`). As long as no edit of existing lines is
  skipped, it is the LSP meaning if and only if at each position the texts that the
  code leaves are those of the list, in list order
  (`EditConformance.MeetsLspExactlyWhen`). For two edits: the texts of two
  insertions must commute; with an insertion T in front of a replacement within a
  line, the last |T| characters of T followed by the replaced text (fewer, if the
  replacement ends beyond the line), put behind the new text, must read like T put
  in front of it; in front of a replacement that spans lines, T must be empty.
  Failing inputs: `EditConformance.TwoInsertionsCounterexample` and
  `EditConformance.InsertionBeforeReplacementCounterexample`. The lemmas also hold
  of an insertion listed behind a replacement at its start; LSP does not say how
  those two texts are ordered, and list order is taken there as well.
* **Characters beyond the end of a line.** LSP moves such a character to the end
  of the line; the code skips the edit. A single edit still comes out right if and
  only if it is applicable, or names lines that do not exist, or replaces a text by
  itself (`Overhang.OneEditMeetsLspExactlyWhen`). A list with distinct starts and
  one such edit comes out right if and only if, where LSP puts the edit, the texts
  of the list are those that the code leaves there followed by the old text; if no
  other edit starts there, that again means replacing a text by itself
  (`Overhang.OneOverhangMeetsLspExactlyWhen`,
  `Overhang.MovedOntoAnotherCounterexample`). Any number of edits that replace a
  text by itself, not moved onto other starts, do no harm
  (`Overhang.OverhangsThatChangeNothing`). Two that change something may cancel out
  (`Overhang.TwoOverhangsMayCancel`), so for more than one no condition on each edit
  is exact. Failing input: `Overhang.OverhangCounterexample`.
* **Ranges over several lines** lose their last character when read, although the
  comment in the code calls the end exclusive: exactly one character is missing if
  the range ends on a character of its last line, none if it ends at the start of
  that line or beyond its end (`RangeContent.SelectedFallsShort`,
  `RangeContent.LostCharacterCounterexample`). Writing back what was read is the
  identity if and only if the range is in one line, ends at the start of a line,
  or is one the editor skips (`RangeContent.WritingBackWhatWasRead`). The error
  for inverted character positions cannot occur.
* **Circularity.** `isCircularDependency` answers false on every graph, and every
  edge that is reported lies on a cycle. So every circularity flag of every report
  is wrong (`DependencyPatterns.DetectAdvancedDependencyPatterns`).
* **Diamond imports** are refused like cycles: the walk over the imports succeeds
  exactly when every file below the root loads and they form a tree
  (`ConfigImports.DiamondCounterexample` is free of cycles and refused). While every
  file is there, "circular import" means that a file is imported twice or the root
  at all (`ImportOrder.CircularMeansImportedAgain`). A load succeeds exactly when,
  besides, some reached file has a server, some an extension and some a language
  list, and the root has a proper log output (`ConfigImports.RootLoadsExactlyWhen`).
* **"Avoiding duplicates"** when languages are merged: a language that the
  imported list itself repeats is added twice
  (`ConfigMerge.MergedListDuplicates` gives the exact condition,
  `ConfigMerge.RepeatedLanguageCounterexample` an input).
* **Eviction** uses the empty key as the mark for "nothing chosen". It removes the
  least recently used item if and only if the key of that item is not empty
  (`AnalysisCache.EvictLRU`), and nothing at all if and only if the empty key is the
  oldest and happens to be visited last. So a cache that holds the empty key can
  outgrow its bound: with room for one, setting the empty key and another leaves two
  entries (`AnalysisCache.EmptyKeyCounterexample`). The analyzer never builds an empty
  key, and every history that never sets it stays within the bound, whatever the
  clock resolution (`AnalysisCache.PerformAll`).
* **Cache keys** are meant to be unique to a request. A key is, if and only if none
  of the four parts of the request holds a colon
  (`CacheKeys.CacheKeyUniqueExactlyWhen`); file URIs do.
* **Overwriting a key in a full cache** evicts an entry although no room is needed.
  It spares the other entries if and only if the cache is not full or the key is
  itself the next to go (`AnalysisCache.OverwritingSparesExactlyWhen`). So a key is
  safe from maxSize - 2 other keys, one fewer than expected, and for every size
  there is a run that touches maxSize - 1 others and loses it
  (`AnalysisCache.RecentKeySurvives`, `AnalysisCache.OverwritingEvicts`).
* **Token positions.** The bridge hands the start of the requested range to the
  decoder as its base, while LSP encodes the first token relative to the start of
  the document. Every token then moves by that position. What is returned is right
  if and only if the base is on the first line and, unless it is the very start of
  the document, no wanted token is on that line; or no token is wanted
  (`SemanticTokens.DocumentTokensFoundFromBase`, `SemanticTokens.BaseCounterexample`).
* **Token data** whose length leaves a remainder of 1, 2 or 3 modulo 5 makes the
  decoder index out of bounds; a remainder of 4 is decoded, since the fifth
  number of a token is never read.

## Model

| member | source | states |
|---|---|---|
| TextLines.JoinUndoesSplit | bridge/bridge.go:1753-1816 | joining the lines of a text gives the text back; no line of a split text holds a newline |
| TextLines.SplitUndoesJoin | bridge/bridge.go:1753-1816 | splitting joined newline-free lines gives the lines back |
| TextLines.OffsetOrder | bridge/bridge.go:1757-1769 | comparing positions by line and character is comparing their flat offsets, in both directions |
| TextEdits.OneEditIsOneSplice | bridge/bridge.go:1783-1812 | one applied edit, within a line or across lines, is one splice of the flat text, even when lines already hold newlines |
| TextEdits.SkippedExactlyWhen | bridge/bridge.go:1772-1802 | for every sorted list without overlap: an edit is applied on the partly edited lines if and only if it is applicable to the original document, or it ends beyond its line by no more than the insertions sorted before it at its start have added |
| TextEdits.SkippingIgnoresEarlierSplices | bridge/bridge.go:1772-1802 | in a list in which each edit ends where, or before, all edits ahead of it begin, the skip test on the partly edited lines is decided as on the original document |
| TextEdits.SplicingLinesIsOneEdit | bridge/bridge.go:1771-1816 | splicing lines one edit at a time, last to first, equals one simultaneous edit of the original flat text by the applicable edits, for every content and every chain of edits, shared insertion points included |
| TextEdits.ApplicableOrderIndependent | bridge/bridge.go:1755-1769 | with distinct starts the simultaneous edit by the applicable edits is the same for every order of the list |
| TextEdits.LspResultOrderIndependent | bridge/bridge.go:1755-1769 | if starts are distinct once characters are moved onto their lines, the LSP meaning is the same for every order of the list |
| TextEdits.SortedSplicingIsLspEdit | bridge/bridge.go:1747-1817 | any descending arrangement of a well-formed, non-overlapping list with distinct starts gives the simultaneous edit by its applicable edits; if no character is beyond its line, that is the LSP meaning of the list as it was passed in |
| ExchangeSort.SortIsDescendingPermutation | bridge/bridge.go:1757-1769 | the exchange sort gives a permutation in descending start order |
| ExchangeSort.DescendingStaysAsItIs | bridge/bridge.go:1757-1769 | the exchange sort leaves a descending list alone, equal starts in list order |
| ExchangeSort.PassObeysLaw | bridge/bridge.go:1757-1769 | the law of one pass: of the edits from its position on, the one that starts latest, first of its equals, comes to that position, every other edit that starts later than all before it moves to the place of the next such edit, and nothing else moves; equal starts included |
| ExchangeSort.PassLawDetermines | bridge/bridge.go:1757-1769 | the law leaves one outcome of a pass only |
| ExchangeSort.SortIsPasses | bridge/bridge.go:1757-1769 | the sort is such a pass at every position but the last, from front to back |
| ExchangeSort.CarriedPast | bridge/bridge.go:1757-1769 | two edits with one start in front of a later one end up in reverse order behind it |
| EditConformance.SwallowIsBoth | bridge/bridge.go:1783-1812 | an insertion and then an edit at the same start, perhaps one that ends beyond the line as it was, is one edit of the original range, with what is left of the inserted text behind the new text |
| EditConformance.EffectiveApplies | bridge/bridge.go:1772-1813 | working through a sorted list without overlap equals working through the list in which such pairs are drawn together and skipped edits are left out, also on partly edited lines |
| EditConformance.CodeIsOneEdit | bridge/bridge.go:1757-1816 | what the code computes for every list without overlap, shared starts and characters beyond lines included: one simultaneous edit |
| EditConformance.EffectiveNoLonger | bridge/bridge.go:1772-1813 | if no edit of existing lines is skipped, the code deletes exactly what LSP deletes and nowhere inserts more |
| EditConformance.MeetsLspExactlyWhen | bridge/bridge.go:1757-1816 | for every list without overlap of which no edit of existing lines is skipped: the result is the LSP meaning if and only if at every position the texts that the code leaves are those of the list in list order |
| EditConformance.NoOverhangNoneSkipped | bridge/bridge.go:1778-1802 | no edit of existing lines is skipped if no character is beyond its line |
| EditConformance.OvertakenCounterexample | bridge/bridge.go:1783-1797 | an insertion and a deletion at its place that ends beyond the line: the deletion is skipped on its own, applied after the insertion, and the result is not the LSP meaning |
| EditConformance.InsertionBeforeEdit | bridge/bridge.go:1757-1813 | an insertion listed in front of an edit at the same start that is applied comes out right if and only if the new text followed by what is left of the insertion reads like the insertion followed by the new text |
| EditConformance.InsertionBeforeLongReplacement | bridge/bridge.go:1799-1812 | in front of a replacement that spans lines only an empty insertion comes out right |
| EditConformance.TwoInsertionsSwapped | bridge/bridge.go:1757-1813 | two insertions at one position come out right if and only if their texts commute |
| EditConformance.TwoInsertionsBeforeALaterEdit | bridge/bridge.go:1757-1816 | two insertions at one position listed in front of a later edit come out right, in list order |
| EditConformance.TwoInsertionsCounterexample | bridge/bridge.go:1757-1813 | two insertions for which the result is not the LSP meaning |
| EditConformance.InsertionBeforeReplacementCounterexample | bridge/bridge.go:1757-1797 | an insertion and a replacement, as LSP permits them, for which the result is not the LSP meaning |
| Overhang.ApplicableEditsMeanTheirResult | bridge/bridge.go:1778-1802 | the simultaneous edit by the applicable edits is the LSP meaning of the list without the others |
| Overhang.OneEditMeetsLspExactlyWhen | bridge/bridge.go:1778-1802 | a single edit has its LSP meaning if and only if it is applicable, names missing lines, or replaces a text by itself |
| Overhang.OneSpliceMore | bridge/bridge.go:1772-1816 | one splice more makes no difference to a simultaneous edit if and only if the texts inserted at its place are those inserted there without it, followed by the text it replaces |
| Overhang.OneOverhangMeetsLspExactlyWhen | bridge/bridge.go:1757-1816 | a list with distinct starts and one edit beyond the end of a line has its LSP meaning if and only if, where LSP puts that edit, the texts of the list are those of its applicable edits followed by the old text; if starts stay distinct, if and only if the edit replaces a text by itself |
| Overhang.MovedOntoAnotherCounterexample | bridge/bridge.go:1778-1802 | an edit beyond the end of a line that replaces a text by itself and is moved onto the start of an insertion: the result is not the LSP meaning |
| Overhang.OverhangsThatChangeNothing | bridge/bridge.go:1757-1816 | any number of edits beyond the end of a line leave the result right, if each replaces a text by itself and starts stay distinct |
| Overhang.OverhangCounterexample | bridge/bridge.go:1786-1789 | an insertion beyond the end of a line that the code drops and LSP does not |
| Overhang.TwoOverhangsMayCancel | bridge/bridge.go:1786-1789 | two edits beyond the end of a line, each of which changes the text, that come out right together |
| ApplyEdits.SortDescending | bridge/bridge.go:1757-1769 | the sort in place computes the sorted list; a permutation in descending start order that leaves a descending array alone |
| ApplyEdits.SpliceLines | bridge/bridge.go:1772-1812 | one iteration of the loop over the edits, with all its skip checks and branches |
| ApplyEdits.ApplyTextEditsToContent | bridge/bridge.go:1747-1817 | the whole function, the in-place sort of the caller's array included: the LSP meaning of a legal list without characters beyond lines; one simultaneous edit, known for every list without overlap; if no edit of existing lines is skipped, the LSP meaning exactly when the texts at every position are those of the list in list order |
| RangeContent.SliceWithinLine | mcpserver/tools/utils.go:743-768 | a slice of one line is the contiguous slice of the content between the flat offsets |
| RangeContent.SliceAcrossLines | mcpserver/tools/utils.go:769-811 | end of the first line, middle lines and start of the last line, joined, are one contiguous slice of the content |
| RangeContent.ReadWithinLine | mcpserver/tools/utils.go:743-768 | the single-line branch, with its error cases; the inverted-characters error cannot occur |
| RangeContent.ReadAcrossLines | mcpserver/tools/utils.go:769-811 | the multi-line branch, with its error cases and the end one character early |
| RangeContent.SelectedFallsShort | mcpserver/tools/utils.go:738-814 | for every range in order on existing lines: what is read, followed by what is missing, is the content between the two positions, each moved back onto its line; missing is one character if the lines differ and the end is on a character of its line, and nothing otherwise |
| RangeContent.GetRangeContent | mcpserver/tools/utils.go:704-814 | succeeds exactly for existing lines in order that fit uint32 and, when strict, existing characters; then returns the one contiguous slice; which error stands for which obstacle; non-strict reading never fails on a character |
| RangeContent.WritingBackWhatWasRead | mcpserver/tools/utils.go:738-814 | replacing a range by what was read from it is the identity if and only if the range is in one line, ends at the start of a line, or is skipped |
| RangeContent.LostCharacterCounterexample | mcpserver/tools/utils.go:769-811 | a range over two lines, existing to its end, of which the last character is not returned |
| DependencyGraph.PathMeetsQueue | analysis/engine.go:337-355 | every path to an unmarked node meets a queue entry no deeper than the path is long |
| DependencyGraph.SearchStep | analysis/engine.go:337-355 | one iteration keeps the search invariant, also when a marked node is expanded again |
| DependencyGraph.RevisitProgress | analysis/engine.go:337-355 | expanding a marked node again moves the first unmarked queue entry forward: the second part of the termination measure |
| DependencyGraph.CalculateDependencyDepth | analysis/engine.go:330-358 | terminates on every graph and returns the exact length of a shortest path, -1 exactly when there is none |
| DependencyGraph.DepthFirstSearch.Visit | analysis/engine.go:310-325 | answers false, enters each node at most once, and leaves the newly marked nodes reachable and closed under neighbours |
| DependencyGraph.IsCircularDependency | analysis/engine.go:307-327 | answers false on every graph, after entering exactly the nodes reachable from start, each once |
| DependencyPatterns.WhichPairs | analysis/engine.go:294-304 | two list positions depend on each other if and only if the kinds are equal or one name is the other followed by some text |
| DependencyPatterns.OneKindAllPairs | analysis/engine.go:263-304 | n symbols of one kind have n (n - 1) / 2 dependent pairs, so n (n - 1) patterns |
| DependencyPatterns.EdgeExactlyWhen | analysis/engine.go:263-304 | the graph has an edge between two names if and only if two positions with these names hold symbols of one kind or of names that extend each other |
| DependencyPatterns.AddPair | analysis/engine.go:263-275 | adding a dependent pair to the graph adds its two edges and nothing else, equal names included |
| DependencyPatterns.BuildSymbolGraph | analysis/engine.go:258-275 | the graph holds every dependent pair of list positions in both directions, with multiplicity, and nothing else; so it is symmetric as a multigraph; with distinct names, each list of neighbours is in the order of the symbols |
| DependencyPatterns.DetectAdvancedDependencyPatterns | analysis/engine.go:258-292 | twice as many patterns as dependent pairs, one per edge; frequency is the out-degree; depth 1 between different names and 0 otherwise; in any order of the map; per source, targets in the order of its neighbours; every reported edge lies on a cycle and every circularity flag is false |
| DependencyPatterns.EveryEdgeIsOnCycle | analysis/engine.go:258-275 | every edge of the graph of dependent pairs lies on a cycle |
| ConfigMerge.MergeAssociative | lsp/config.go:183-254 | merging is associative, language lists and nil maps included |
| ConfigMerge.MergeOfFold | lsp/config.go:104-127 | merging an import that is itself a fold equals folding its files one by one |
| ConfigMerge.FirstFileWins | lsp/config.go:188-253 | in a fold, every server, extension, workspace and formatter key has the value of the first file that defines it; global settings are the first file's |
| ConfigMerge.NilStaysNil | lsp/config.go:228-250 | in a fold, workspace settings and formatters are nil exactly if they are nil in all files |
| ConfigMerge.LanguagesAreInOrderUnion | lsp/config.go:195-214 | in a fold, a server's language list is the in-order union of the lists of all files that name it |
| ConfigMerge.MergedListDuplicates | lsp/config.go:200-210 | a merged list is free of duplicates if and only if the base list is, and so are the new languages of the imported list |
| ConfigMerge.RepeatedLanguageCounterexample | lsp/config.go:200-210 | a language that the imported list repeats ends up twice in the merged list |
| ConfigMerge.AppendNew | lsp/config.go:200-210 | the loops that merge one language list |
| ConfigMerge.AddLanguages | lsp/config.go:199-214 | the loop over the language map, in any order of its keys |
| ConfigMerge.ServerConfig.MergeFrom | lsp/config.go:183-254 | the in-place merge is the merge of the two values, whatever order maps are visited in |
| ConfigImports.WalkFile | lsp/config.go:64-127 | the walk over imports terminates on every finite file system; the files it visits are loadable, distinct and new, the path itself first |
| ConfigImports.WalkIsTree | lsp/config.go:64-68 | the files that a successful walk visits form a tree |
| ConfigImports.TreeWalks | lsp/config.go:64-127 | inside a tree the walk never meets a visited file and cannot fail |
| ConfigImports.WalkSucceedsExactlyOnTrees | lsp/config.go:64-127 | loading terminates on every finite file system, cycles included, and succeeds if and only if every reached file loads and none is imported twice; it then visits exactly the reached files |
| ConfigImports.DiamondCounterexample | lsp/config.go:64-68 | two files that import a third: no cycle, every file loads, and the load fails as circular |
| ConfigImports.RootLoadsExactlyWhen | lsp/config.go:48-180 | a root passes walk and validation if and only if its imports form a tree, some reached file has a server, some an extension, some a language list, and its own log output is empty, file, stderr or both |
| ImportOrder.WalkIsPreorder | lsp/config.go:104-127 | every visited file comes in front of what its imports lead to, and what an earlier import leads to in front of what a later one leads to |
| ImportOrder.UnloadableIsMissing | lsp/config.go:70-127 | a load that fails on a file has reached one that cannot be loaded |
| ImportOrder.CircularMeansImportedAgain | lsp/config.go:64-68 | a load fails as circular only if a reached file is imported twice or the root is imported; if every reached file can be loaded, exactly then |
| ConfigImports.Loader.Load | lsp/config.go:48-143 | the nested load returns one left fold of the merge over the files in import preorder, or fails as the walk does or as the root validation does; for a root, success is said of the files |
| Subscriptions.SubscribeRefines | mcpserver/resources/subscriptions.go:29-46 | Subscribe adds one pair and keeps the two maps inverse views |
| Subscriptions.UnsubscribeRefines | mcpserver/resources/subscriptions.go:49-80 | Unsubscribe removes one pair and keeps the two maps inverse views, without empty lists |
| Subscriptions.DisconnectIsUnsubscribingAll | mcpserver/resources/subscriptions.go:95-120 | UnsubscribeAll equals Unsubscribe for each URI of the client, list orders included |
| Subscriptions.DisconnectRefines | mcpserver/resources/subscriptions.go:95-120 | UnsubscribeAll removes exactly the pairs of the client |
| Subscriptions.EveryRunIsInverse | mcpserver/resources/subscriptions.go:29-120 | after every sequence of operations the two maps are inverse views of the set of pairs that the same history leaves |
| Subscriptions.EveryRunKeepsJoinOrder | mcpserver/resources/subscriptions.go:29-120 | after every history the clients of a URI, and the URIs of a client, are listed in the order of their last Subscribe that was not a repetition |
| Subscriptions.BothTotalsCountTheRelation | mcpserver/resources/subscriptions.go:135-147 | list lengths summed over URIs and over clients both equal the size of the relation; the key counts are the sizes of its projections |
| Subscriptions.SubscriptionTracker.Subscribe | mcpserver/resources/subscriptions.go:29-46 | the method has that effect on both maps |
| Subscriptions.SubscriptionTracker.Unsubscribe | mcpserver/resources/subscriptions.go:49-80 | the method has that effect on both maps |
| Subscriptions.SubscriptionTracker.UnsubscribeAll | mcpserver/resources/subscriptions.go:95-120 | the method has that effect on both maps |
| Subscriptions.SubscriptionTracker.GetSubscribers | mcpserver/resources/subscriptions.go:83-92 | returns each subscriber of the URI once, in list order |
| Subscriptions.SubscriptionTracker.GetClientSubscriptions | mcpserver/resources/subscriptions.go:123-132 | returns each URI of the client once, in list order |
| Subscriptions.SubscriptionTracker.GetStats | mcpserver/resources/subscriptions.go:135-147 | the statistics are the sizes of the relation and of its two projections |
| AnalysisCache.EveryRun | analysis/cache.go:57-123 | in every run of the recency list: at most maxSize entries (one if maxSize is below one), no key twice, each entry the one last Set for its key and not deleted, cleared or found expired since, every Get counted as hit or miss |
| AnalysisCache.PerformAll | analysis/cache.go:57-165 | every history of calls on the cache that never sets the empty key stays within that bound, equal access times included; if access times are distinct it ends in the state of the recency list and gave the same answers |
| AnalysisCache.EmptyKeyCounterexample | analysis/cache.go:85-148 | a cache with room for one that holds two entries, the empty key among them |
| AnalysisCache.HitReturnsLastSet | analysis/cache.go:57-82 | an answer is the value last Set for the key, not ended since and unexpired; a hit makes it the most recent |
| AnalysisCache.SetThenGet | analysis/cache.go:57-105 | what is set is answered, and counted as a hit, up to and including now + ttl (or now + the default for a zero ttl), after every history that leaves the key alone and accesses fewer than maxSize - 1 others |
| AnalysisCache.SetThenLateGet | analysis/cache.go:57-105 | after that moment, and unless the key is set again, it is not answered, the miss is counted and the entry is gone |
| AnalysisCache.RecentKeySurvives | analysis/cache.go:85-105 | a key just used stays through every run that touches fewer than maxSize - 1 other keys and does not delete or expire it |
| AnalysisCache.NotInRun | analysis/cache.go:57-123 | a key that no Set of a run names is in the cache at no time |
| AnalysisCache.OverwritingEvicts | analysis/cache.go:85-105 | the bound is tight for every size: filling a cache with maxSize keys and writing the last one again touches maxSize - 1 keys besides the first and leaves exactly the others, the first gone |
| AnalysisCache.OverwritingSparesExactlyWhen | analysis/cache.go:93-97 | setting a key that is present spares every other entry if and only if the cache is not full or that key is the least recently used |
| AnalysisCache.EvictLRU | analysis/cache.go:134-148 | the scan removes the one least recently used item if and only if its key is not empty, in any order of the map; it removes nothing if and only if there is nothing or the empty key is the oldest and visited last; without an empty key it removes one of the least recently used, equal access times included |
| CacheKeys.CacheKey | analysis/engine.go:146-149 | keys built by the analyzer are never empty |
| CacheKeys.CacheKeyUniqueExactlyWhen | analysis/engine.go:145-149 | no other request has the key of a request if and only if none of its four parts holds a colon |
| AnalysisCache.InMemoryCache.NeverSetNeverHeld | analysis/cache.go:57-123 | a cache whose history never sets a key does not hold it, the empty key in particular |
| AnalysisCache.InMemoryCache.Get | analysis/cache.go:57-82 | refines the recency list for every clock that does not run backwards: miss, expiry or move to the most recent end; the size stays the entry count |
| AnalysisCache.InMemoryCache.EvictIfFull | analysis/cache.go:93-97 | a full cache loses exactly the head of the recency list, if access times are distinct and the head has not the empty key; one of the least recently used entries, if no key is empty; some entry or none in any case |
| AnalysisCache.InMemoryCache.Set | analysis/cache.go:85-105 | refines the recency list, also when a key is overwritten in a full cache; for equal access times and for the empty key it says which lists may result |
| AnalysisCache.InMemoryCache.Delete | analysis/cache.go:108-114 | refines the recency list |
| AnalysisCache.InMemoryCache.Clear | analysis/cache.go:117-123 | refines the recency list |
| AnalysisCache.InMemoryCache.CleanupTick | analysis/cache.go:155-165 | one cleanup tick removes exactly the expired entries and keeps the order of the others |
| FanOut.EveryRunKeepsInv | async/async.go:21-43 | in every interleaving what was received, then what waits in the channel, is what was sent, in order |
| FanOut.NoSendBlocks | async/async.go:21-28 | no send ever blocks, cancelled or not |
| FanOut.CompletedRunReturnsEverything | async/async.go:33-43 | a run that returns without error returns a permutation of all results |
| FanOut.ErrorMeansCancelled | async/async.go:33-41 | in every run the collector returns an error only after a cancellation, and only while results are missing |
| FanOut.UncancelledRunReturns | async/async.go:33-43 | a run without cancellation that cannot go on has returned one result of every operation |
| FanOut.CancelledMayReturnError | async/async.go:36-38 | after a cancellation a collector that is short of results can return the error |
| FanOut.CancelIsPossible | async/async.go:36-38 | the context can be cancelled at any point of a run |
| FanOut.WaitingIsReceived | async/async.go:38-41 | a collector that is not done can receive what waits, cancelled or not, oldest first |
| FanOut.WorkersFinish | async/async.go:21-28 | no goroutine is left behind: from every point of every run all workers can finish on their own, whatever the collector has done |
| FanOut.NoDeadlock | async/async.go:33-41 | until the collector returns, a step other than cancelling is possible |
| FanOut.RunsAreShort | async/async.go:17-44 | every run ends, after at most 3n + 2 steps for n operations |
| Flatten.FlattenResults | utils/flatten.go:13-26 | values of successful and errors of failed results, in order, as multisets conserved |
| Flatten.FlattenKeyedResults | utils/flatten.go:28-41 | the same for keyed results, errors paired with their keys |
| Flatten.OneResult | utils/flatten.go:17-25 | wherever a result stands, it adds its values there if it has no error, and its error alone otherwise |
| Flatten.OneKeyedResult | utils/flatten.go:32-40 | the same for keyed results, the error under the key of the result |
| Flatten.BagOfPermutation | utils/flatten.go:17-25 | flattening a permutation gives the same values and errors as multisets |
| Flatten.FlatteningIgnoresInterleaving | async/async.go:47-74 | whatever is read off the results of a completed run and summed is what the operations would give in any order |
| Flatten.FlattenedRun | utils/flatten.go:13-26 | the values and errors flattened from a completed fan-out are those of all operations, as multisets |
| Flatten.FlattenedKeyedRun | utils/flatten.go:28-41 | the same for keyed results, errors paired with their keys |
| Flatten.CompletedRunHasEachKeyOnce | async/async.go:51-73 | a completed keyed run holds every key exactly once, with the result of its operation |
| SemanticTokens.DecodeUndoesEncode | lsp/semantic_tokens.go:64-77 | decoding the relative encoding of a position-sorted token list gives the list back |
| SemanticTokens.EncodeUndoesDecode | lsp/semantic_tokens.go:64-77 | encoding what was decoded gives the data back, if no addition wrapped; the tokens are sorted |
| SemanticTokens.DecodedCount | lsp/semantic_tokens.go:64-77 | one token for every five numbers, and one more for a tail of four |
| SemanticTokens.TailOfFour | lsp/semantic_tokens.go:64-69 | a tail of four is the token that the missing fifth number would complete |
| SemanticTokens.FindTokensByType | lsp/semantic_tokens.go:45-105 | yields the tokens of known and wanted type in order with wrapped end positions; unknown types still advance the position; fails exactly for lengths with remainder 1, 2 or 3 modulo 5 |
| SemanticTokens.SelectionReportsWanted | lsp/semantic_tokens.go:79-101 | the results report tokens at increasing places, each with its type name and its range, and no wanted token is missing |
| SemanticTokens.FindingInEncodedTokens | lsp/semantic_tokens.go:57-102 | on tokens encoded relative to the base that the search is given, it yields exactly the wanted tokens at their absolute ranges |
| SemanticTokens.DocumentTokensFoundFromBase | bridge/bridge.go:2084-2096 | tokens encoded from the start of the document are moved by the base, and the search returns the right positions if and only if every wanted token stays in place: the base is on the first line and is its start or has the token on a later line |
| SemanticTokens.BaseCounterexample | bridge/bridge.go:2084-2096 | a function of line 10 that is reported on line 17 when the range begins on line 7 |
| Deduplication.PrintedKeyInjective | bridge/bridge.go:723-728 | two printed keys are equal only for the same name and range, colons in names notwithstanding |
| Deduplication.KeepFirstKeepsAll | bridge/bridge.go:712-744 | deduplication keeps each location, once |
| Deduplication.KeepFirstIdempotent | bridge/bridge.go:712-744 | deduplicating twice is deduplicating once |
| Deduplication.KeepFirstOfPrefix | bridge/bridge.go:722-736 | a longer list only appends to the result: it is the first of equal locations that stays, in order |
| Deduplication.DeduplicateLocations | bridge/bridge.go:712-744 | the loop over printed keys keeps exactly the first of equal locations, in order |
| Deduplication.ForestKeepsNames | bridge/bridge.go:748-784 | a list of symbols keeps exactly the names and ranges it had |
| Deduplication.ForestKeepsFirsts | bridge/bridge.go:748-784 | at every level that remains: the same names and ranges, each symbol the first of its equals in the input, with its details and with the children of that one treated likewise |
| Deduplication.ForestIsDistinct | bridge/bridge.go:748-784 | after deduplication no two siblings are equal, anywhere in the forest |
| Deduplication.DistinctForestIsKept | bridge/bridge.go:748-784 | a forest without equal siblings is left as it is, children included |
| Deduplication.ForestOfPrefix | bridge/bridge.go:758-777 | a longer list only appends to the result, so the first of equal symbols and its children stay |
| Deduplication.ForestIdempotent | bridge/bridge.go:748-784 | deduplicating a forest twice is deduplicating it once |
| Deduplication.DeduplicateDocumentSymbols | bridge/bridge.go:748-784 | the recursive loop over printed keys keeps the first of equal symbols at every level, with its own children |

## Left out

- Files, paths, JSON, templates: the editor starts from the content string, the import loader from a finite map of resolved paths to parsed files; everything that stops a file from loading is one error.
- Line endings and encodings: a line is indexed by bytes and only `\n` ends it, as in the code; UTF-16 positions and `\r\n` are not modelled.
- EditConformance.MeetsLspExactlyWhen: requires that no edit of existing lines is skipped; of a list that has both a skipped edit and a shared start it is proved what the code computes (EditConformance.CodeIsOneEdit), not when that is the LSP meaning.
- Overhang.OneOverhangMeetsLspExactlyWhen: covers one edit beyond the end of a line; for several it is proved what the code computes, and one sufficient condition (Overhang.OverhangsThatChangeNothing), not when exactly that is the LSP meaning.
- AnalysisCache.InMemoryCache.Set: in a full cache that holds the empty key, and for equal access times, the outcome depends on the order in which the map is visited; the contract says which lists may result, not which one does.
- AnalysisCache.InMemoryCache.Get: assumes a clock that does not run backwards, as Go's monotonic readings do not.
- FanOut.NoDeadlock: operations have no inner life; that one returns is a step that is always possible, so this and FanOut.RunsAreShort rest on every operation returning.
- The hit rate of the cache: a floating-point quotient of the two counters that are modelled.
- Slices that share memory: lists are values, so a caller that keeps an alias to a list is not modelled, apart from the array of edits that is sorted in place.
- `deduplicateDefinitions` and the other deduplications: easy variants, or keyed by joins that are not injective.
- Scores, health metrics, complexity levels, path security, tool handlers, processes, JSON-RPC and logging.
