# Language model, prefix search and index structures

A model of the algorithmic core of FinalCAT, a workbench for interactive machine translation, and proofs of what that core is
for. Three groups of code are modelled, each against a simple specification of its own.

**The n-gram engine** (`FinalCAT/lm`). An n-gram is written newest word first, as the code walks it, so that left extension
appends and a suffix of the text is a prefix of the sequence. The specification is the textbook back-off recursion over the
whole history (`NGrams.Lm.Textbook`).
- `NGrams`, `Model`: scoring from minimised right states, from raw histories, and left extension.
- `Fragments`, `LeftState`, `Partial`: chart states of sentence fragments and the two ways of joining them.
- `HashedBuild`, `Loading`: the probing builder, which fills in missing suffixes as it reads, and the whole way from the lines of
  a file to the score of a text.
- `ExternalSort`, `TrieMerge`, `TrieMessages`, `TrieSearch`, `TrieLayout`, `TrieBuild`, `TrieLookup`, `TrieLoading`,
  `TrieModel`: the trie builder from unsorted lines to lookups, and what its lookups present to the scoring code.
- `Bhiksha`: the compressed array of pointers between two orders of the trie.

**The prefix search** (`FinalCAT/CAT`). What the user has typed is matched against all paths through the decoder's graph.
- `PrefixMatch`: edit distance of one phrase; the specification is the cheapest edit script.
- `SearchPaths`, `SearchTable`, `SearchResults`, `PrefixSearch`: the search by error level, with or without skipped
  transitions, and the one-pass branch and bound; the specification is the best of all paths.
- `EditRows`: edit-distance rows continued along the graph. `WindowDistance`: the memoised distance with a window of words.

**Index and metric structures.** `PhraseTrie`: the phrase table on disk. `SuffixArray`: sorting and counting.
`Cder`: the CDER error.

Log-probabilities and scores are exact reals. A back-off is a value with its extension flag (`NGrams.Backoff`), for which the
code uses the sign of zero. Hash keys are the n-grams themselves. Files, buffers and records are sequences, maps and arrays.

## Findings

Where a promised property does not hold of the code, the code is modelled as it is, with the exact condition and an input.
- Left-extension flags share the sign bit of the probability. Filling in missing suffixes therefore preserves meaning exactly
  when no suffix gets a positive probability by backing off: `HashedBuild.BlanksPreserveMeaning`,
  `HashedBuild.PositiveBlankIsMisread` (FinalCAT/lm/search_hashed.cc:81-136).
- For the same reason a unigram of log-probability zero never counts as independent of the words to its left:
  `HashedBuild.FinishedFlagsAreExact`, `HashedBuild.ZeroUnigramLooksExtended`
  (FinalCAT/lm/read_arpa.hh:44-58).
- The probing builder accepts some files that do not list every context: `HashedBuild.HashedSearch.InitializeFromARPA`,
  `HashedBuild.BlankSuppliesContext` (FinalCAT/lm/search_hashed.cc:24-42). The trie builder accepts none: `TrieLoading.LoadTrie`.
- Messages left over when the records of an order end are dropped, so a missing suffix loses its extension flag exactly when no
  n-gram of its order follows: `TrieBuild.BlankFlags`, `TrieModel.WellFormedIffNoFlagLost`, `TrieModel.LostFlag`
  (FinalCAT/lm/search_trie.cc:106-132). Probabilities are not affected: `TrieModel.TriePredicts`.
- The closing pointer of an order is written with one more than the number of records. `DontBhiksha` ignores the index; with
  `ArrayBhiksha` the children of the last record come back exactly when its two pointers have the same high part:
  `Bhiksha.ArrayBhiksha.ReadNext`, `Bhiksha.ClosingIndexMatters` (FinalCAT/lm/trie.cc:101-106).
- The cost table of the prefix search stops growing at twice the prefix length and two; distances from there on are too small,
  exactly for phrases longer than that, and no error level searched is affected: `SearchPaths.Task.CostExactIff`,
  `PrefixMatch.Prefix.CapIsHarmless` (FinalCAT/CAT/ModifiedCaitra.cpp:497-560).
- When the level search finds nothing the tables are not cleared: `PrefixSearch.Searcher.CompleteByLevel`
  (FinalCAT/CAT/ModifiedCaitra.cpp:97-368).
- Branch and bound starts from the value -1000000; below it nothing is chosen: `PrefixSearch.Searcher.CompleteByValue`
  (FinalCAT/CAT/CaitraSearchGraph.cpp:385-410).
- A phrase in whose middle the corpus ends is counted there: `SuffixArray.FoundAreOccurrencesIff`,
  `SuffixArray.RunningOutIsCounted` (FinalCAT/biconcor/SuffixArray.cpp:251-261).

## Model

| member | source | states |
|---|---|---|
| `NGrams.Backoff.SetExtension` | FinalCAT/lm/blank.hh:12-39 | Setting the extension flag never changes the weight: zero becomes the zero that extends, any other weight extends already. |
| `NGrams.Lm.TextbookClosedForm` | FinalCAT/lm/model.cc:114-120 | The recursive back-off definition equals the probability of the longest stored n-gram plus the back-offs of all longer contexts; the form every scoring loop computes. |
| `NGrams.Lm.TextbookNeedsOnlyState` | FinalCAT/lm/model.cc:114-120 | State minimisation loses nothing for the next word: its back-off probability after a whole history equals the one after the minimised state of that history. |
| `NGrams.Lm.NextStateNeedsOnlyState` | FinalCAT/lm/model.cc:225-250 | ... nor for the state after it: minimising after one more word gives the same from the whole history and from its minimised state. |
| `NGrams.Lm.MatchNeedsOnlyState` | FinalCAT/lm/model.cc:225-276 | The longest stored match of a word with its history lies within any state that represents the history, so what is reported of it is what the whole history would give. |
| `Model.GenericModel.ResumeScore` | FinalCAT/lm/model.cc:252-276 | The walk stops at the longest stored left extension, reports that n-gram's weights, and leaves the back-offs of everything still useful to the right. |
| `Model.GenericModel.ScoreExceptBackoff` | FinalCAT/lm/model.cc:225-250 | The longest match of a word with its context and the minimised state of both, in the caller's buffers. |
| `Model.GenericModel.FullScore` | FinalCAT/lm/model.cc:114-120 | From any state representing h: the textbook probability after all of h, the length and rest cost of the longest match with h, whether and how words further left still matter, and the minimised next state in the output buffer. |
| `Model.GenericModel.FullScoreForgotState` | FinalCAT/lm/model.cc:122-148 | From a raw history of any length the same probability, match and next state as from a state. |
| `NGrams.Lm.LastWordsMatch` | FinalCAT/lm/model.cc:122-124 | Cutting a history to its last N-1 words loses no match. |
| `Model.GenericModel.GetState` | FinalCAT/lm/model.cc:150-173 | A state rebuilt from a raw history is the minimised one, hence predicts as the history does. |
| `Model.GenericModel.ExtendLeft` | FinalCAT/lm/model.cc:175-207 | Extending a scored n-gram by words on its left gives the change in score and in rest cost, the length matched, the words still in use, and their back-offs after it. |
| `Model.GenericModel.UnRest` | FinalCAT/lm/model.cc:278-298 | Sum of probability minus rest cost over a range of pointers. |
| `Fragments.Grammar.TerminalStep` | FinalCAT/lm/left.hh:65-79 | One more word on a fragment: its new left pointers, right state, completeness flag and score are those of the longer fragment, for the branch the code takes. |
| `Fragments.Grammar.ExtendStep` | FinalCAT/lm/left.hh:170-188 | One pointer of the right fragment re-scored with what is left of the history moves the join on by exactly one word. |
| `Fragments.Grammar.EarlyExit` | FinalCAT/lm/left.hh:170-188 | When nothing to the left matters after j words, exchanging the remaining rest costs for probabilities completes the join. |
| `Fragments.Grammar.LoopEnd` | FinalCAT/lm/left.hh:125-149 | Where the pointer loop leaves off, both endings (full part, open part) give the joined fragment's state and score. |
| `Fragments.Grammar.CostIsTextbook` | FinalCAT/lm/left.hh:52-156 | Behind a sentence start, or where rest costs equal probabilities, the score of a fragment is the sum of textbook probabilities of its words. |
| `LeftState.RuleScore.Terminal` | FinalCAT/lm/left.hh:65-79 | Keeps the chart state that of the words added, and charges what the new word costs. |
| `LeftState.RuleScore.BeginNonTerminal` | FinalCAT/lm/left.hh:81-85 | Starts from a finished part: chart state and score are the part's. |
| `LeftState.RuleScore.NonTerminal` | FinalCAT/lm/left.hh:87-150 | Joining a finished part leaves chart state and score as if its words had been added one by one. |
| `LeftState.RuleScore.ExtendLeft` | FinalCAT/lm/left.hh:170-188 | One pointer of the part joined in place; true only if the whole part has been settled. |
| `LeftState.RuleScore.ProcessRet` | FinalCAT/lm/left.hh:190-202 | Rest cost and a pointer while the left is open, probability afterwards; the flag is set by the first independent word. |
| `LeftState.RuleScore.Finish` | FinalCAT/lm/left.hh:152-156 | The finished chart state describes the words added. |
| `LeftState.ScoreDerivation` | FinalCAT/lm/left.hh:52-211 | Bracketing independence: for every nesting of terminals and parts, chart state and score are functions of the derived words alone. |
| `LeftState.DerivesText` | FinalCAT/lm/left.hh:52-211 | Whatever the nesting, the words derived are those of the text, so that building it from parts and feeding it word by word score the same words. |
| `LeftState.ScoreText` | FinalCAT/lm/model.cc:114-120 | Feeding a text word by word from the start or from nothing gives the sum of textbook probabilities and the right state that the fragments have, too. |
| `Partial.ExtendLoop` | FinalCAT/lm/partial.hh:20-82 | The two loops over the pointers extend all of them, or settle the rest by rest-cost exchange, for every left state. |
| `Partial.Subsume` | FinalCAT/lm/partial.hh:136-162 | With nothing in between, joining two chart states in place gives the pointers, flag and right state of the joined words and the same change in score that NonTerminal books. |
| `HashedBuild.HashedSearch.FindLower` | FinalCAT/lm/search_hashed.cc:58-78 | Finds the longest suffix present and inserts blanks for exactly the missing longer ones, touching nothing else. |
| `HashedBuild.HashedSearch.PriceBlank` | FinalCAT/lm/search_hashed.cc:81-136 | A blank gets the next shorter probability plus its context's back-off, which is its textbook probability. |
| `HashedBuild.HashedSearch.AdjustLower` | FinalCAT/lm/search_hashed.cc:81-136 | After an n-gram and its blanks: every suffix has its probability, every context its flag, every longer suffix knows that it extends left. |
| `HashedBuild.HashedSearch.MarkLower` | FinalCAT/lm/search_hashed.cc:138-157 | Stopping at the first entry that is not raised is enough: all rest costs are the greatest probabilities again. |
| `HashedBuild.HashedSearch.MarkExtends` | FinalCAT/lm/value_build.hh:26-62 | Clears the sign and raises the rest cost to the greater of the two; tells whether it had to. |
| `HashedBuild.HashedSearch.AddNGram` | FinalCAT/lm/search_hashed.cc:180-198 | One more line keeps the table invariant, with the left flag on exactly the n-grams that nothing extends; fails exactly when the context is no suffix of anything read so far. |
| `HashedBuild.HashedSearch.ReadNGrams` | FinalCAT/lm/search_hashed.cc:159-201 | One order read: invariant for all n-grams up to it; fails exactly when some line's context has not been met by then. |
| `HashedBuild.HashedSearch.InitializeFromARPA` | FinalCAT/lm/search_hashed.cc:221-278 | The whole file: every entry has the file's weights, every blank its back-off probability, every rest cost is the greatest probability among the n-grams ending in it, both extension flags are exact; fails exactly when FileLoads does not hold. |
| `HashedBuild.ListedContextsLoad` | FinalCAT/lm/search_hashed.cc:24-42 | A file that lists the context of every n-gram loads. |
| `HashedBuild.BlankSuppliesContext` | FinalCAT/lm/search_hashed.cc:24-42 | Listing them is not necessary: here a context is missing from the file and supplied by a blank of the n-gram itself. |
| `HashedBuild.FinishedIsWellFormed` | FinalCAT/lm/search_hashed.cc:159-201 | The finished table is closed as the scoring code needs it. |
| `HashedBuild.FinishedFlagsAreExact` | FinalCAT/lm/search_hashed.cc:180-198 | What the model sees of an entry: independent to the left if and only if nothing extends it (for a unigram also only if its log-probability is below zero); kept as state if and only if it has a back-off to charge or is a context. |
| `HashedBuild.ZeroUnigramLooksExtended` | FinalCAT/lm/read_arpa.hh:44-58 | A file in which a unigram of log-probability zero is taken for one that longer n-grams extend. |
| `HashedBuild.FinishedRestIsGreatest` | FinalCAT/lm/value_build.hh:42-62 | The rest cost the model sees is the greatest probability among the n-grams that end in the n-gram, and one of them has it; without separate rest costs it is the probability. |
| `HashedBuild.FinishedFlagsClosed` | FinalCAT/lm/search_hashed.cc:159-201 | If the file gives back-offs only to contexts, the flags are closed as fragment scoring needs them. |
| `HashedBuild.BlanksPreserveMeaning` | FinalCAT/lm/search_hashed.cc:81-136 | Inserting blanks preserves every back-off probability if and only if no suffix of an n-gram of the file has a positive one by backing off. |
| `HashedBuild.PositiveBlankIsMisread` | FinalCAT/lm/search_hashed.cc:81-136 | A file for which it fails: the blank's log-probability 3 is read as -3, the sign bit being the left-extension flag. |
| `Loading.LoadAndScore` | FinalCAT/lm/search_hashed.cc:221-278 | From the lines of a file to the score of a text: the total is the textbook log-probability under the n-grams of the file itself. |
| `TrieMerge.BlankManager.Visit` | FinalCAT/lm/search_trie.cc:337-382 | Visiting the next n-gram calls for exactly the missing prefixes not shared with the previous one, each with the longest real prefix below it and that one's probability. |
| `TrieMerge.RecursiveInsert` | FinalCAT/lm/search_trie.cc:384-419 | For any sorted streams the calls are ascending, cover the prefix closure and nothing else, and call each n-gram real or blank as the file has it (Finished). |
| `TrieMerge.EmittedIffClosure` | FinalCAT/lm/search_trie.cc:384-419 | A finished merge has called an n-gram if and only if it is a prefix of an n-gram of the file (or the end marker). |
| `TrieMerge.FinishedAscends` | FinalCAT/lm/search_trie.cc:384-419 | The calls are in lexicographic order. |
| `TrieMerge.FinishedIsPreOrder` | FinalCAT/lm/search_trie.cc:337-382 | Every prefix is called before what extends it. |
| `TrieMerge.FinishedUnique` | FinalCAT/lm/search_trie.cc:472-552 | Any two complete runs over one file make the same calls, so the counting pass and the writing pass agree. |
| `TrieLayout.ChildrenAreRange` | FinalCAT/lm/trie.cc:74-106 | In any such sequence of calls the children of a record are exactly the places between its next pointer and its successor's. |
| `TrieSearch.WriteEntries.Insert` | FinalCAT/lm/search_trie.cc:274-324 | One call writes one record of its order with the right word, weights and pointer, and moves no other order. |
| `TrieSearch.WriteEntries.Write` | FinalCAT/lm/search_trie.cc:472-552 | All records of all orders as the calls demand; fails if and only if some context is no n-gram of the file. |
| `TrieMessages.SRISucks.Send` | FinalCAT/lm/search_trie.cc:187-196 | A blank records its basis and asks the contexts from its basis on for their back-offs, at its own place. |
| `TrieMessages.SRISucks.Apply` | FinalCAT/lm/search_trie.cc:99-134 | Every value that asked a stored n-gram gets its back-off, records asked are flagged, and n-grams asked in vain are noted as long as records follow; the rest is dropped. |
| `TrieMessages.DeliveredValues` | FinalCAT/lm/search_trie.cc:77-134 | Delivering one order's messages takes every blank one step of backing off further. |
| `TrieMessages.SRISucks.ObtainBackoffs` | FinalCAT/lm/search_trie.cc:198-216 | After all orders each blank has its textbook probability. |
| `TrieLookup.Trie.LookupUnigram` | FinalCAT/lm/search_trie.hh:73-78 | Weights and child range of a word; independent exactly if no stored n-gram extends it. |
| `TrieLookup.Trie.LookupMiddle` | FinalCAT/lm/search_trie.hh:84-88 | From the range of g: found if and only if g and the word is in the closure, with its weights, range and left flag. |
| `TrieLookup.Trie.LookupLongest` | FinalCAT/lm/search_trie.hh:90-92 | The same for the longest order. |
| `TrieLookup.Trie.FastMakeNode` | FinalCAT/lm/search_trie.hh:94-106 | The chained lookups reach the range of an n-gram if and only if it is in the closure. |
| `TrieLookup.Trie.Unpack` | FinalCAT/lm/search_trie.hh:80-82 | A pointer kept in a left state leads back to the weights and range of its n-gram. |
| `TrieLookup.WeightsAreTextbook` | FinalCAT/lm/search_trie.cc:187-216 | What is stored for an n-gram of the closure, blank or not, is its textbook probability and the file's back-off. |
| `TrieBuild.BuildTrie` | FinalCAT/lm/search_trie.cc:472-552 | From sorted n-grams to the trie, in two passes; fails if and only if the file does not list the context of some n-gram. |
| `TrieBuild.RealFlags` | FinalCAT/lm/search_trie.cc:106-132 | An n-gram of the file carries the extension flag if and only if it has a back-off to charge or is the context of a stored n-gram. |
| `TrieBuild.BlankFlags` | FinalCAT/lm/search_trie.cc:106-132 | A blank carries it if and only if it is such a context and the file has a later n-gram of its order: messages left when the reader ends are dropped. |
| `ExternalSort.MergeSortedFiles` | FinalCAT/lm/trie_sort.cc:117-140 | Two sorted files merge to a sorted file with the records of both; fails if and only if they share an n-gram. |
| `ExternalSort.MergeContexts` | FinalCAT/lm/trie_sort.cc:110-140 | Sorted context lists merge to the strictly sorted list of both. |
| `ExternalSort.WriteContextFile` | FinalCAT/lm/trie_sort.cc:74-102 | Exactly the contexts of a batch, strictly sorted. |
| `ExternalSort.Sorter.MergeAll` | FinalCAT/lm/trie_sort.cc:268-287 | The queue of pairwise merges ends with at most one file and reports a duplicate if and only if two batches share an n-gram. |
| `ExternalSort.BatchesAreFull` | FinalCAT/lm/trie_sort.cc:240-266 | All batches have the size of the buffer, except that the last one may be shorter. |
| `ExternalSort.ConvertToSorted` | FinalCAT/lm/trie_sort.cc:229-287 | For any batch size of at least one record the result is a sorted rearrangement of the lines with the strictly sorted set of their contexts; fails if and only if two batches share an n-gram. |
| `TrieLoading.NoDuplicates` | FinalCAT/lm/trie_sort.cc:104-108 | Lines that list every n-gram once never fail. |
| `TrieLoading.LoadTrie` | FinalCAT/lm/search_trie.cc:590-603 | From the lines of a file, with any buffer, to a trie whose lookups are right; succeeds if and only if every context is listed. |
| `TrieModel.SameFromBothBuilders` | FinalCAT/lm/search_trie.cc:187-216 | From one file the probing and the trie builder hold the same n-grams with the same probabilities and back-offs. |
| `TrieModel.TriePredicts` | FinalCAT/lm/search_trie.cc:337-382 | Every back-off probability computed from what the trie's lookups return is the file's. |
| `TrieModel.TrieFlags` | FinalCAT/lm/search_trie.cc:106-132 | Exactly which n-grams carry the extension flag in the trie. |
| `TrieModel.WellFormedIffNoFlagLost` | FinalCAT/lm/search_trie.cc:106-132 | What the lookups return is closed as the scoring code needs it if and only if no missing suffix that is a context comes after all n-grams of its order. |
| `TrieModel.TrieModelIsFile` | FinalCAT/lm/search_trie.hh:73-106 | Then scoring with the trie is scoring with the file, for every word after every history. |
| `TrieModel.LostFlag` | FinalCAT/lm/search_trie.cc:106-132 | A file of five n-grams for which a flag is lost: loading it and looking the context up returns it without the flag. |
| `Bhiksha.ArrayBhiksha.WriteNext` | FinalCAT/lm/bhiksha.hh:88-92 | The array gets the index for every high part first reached, the record the low part. |
| `Bhiksha.ArrayBhiksha.ReadNext` | FinalCAT/lm/bhiksha.hh:76-86 | Reading at i returns v[i]; the end is v[i+1] if and only if i is not the last record, or the closing pointer was written with the number of records, or it has the same high part as the one before. |
| `Bhiksha.ArrayBhiksha.FinishedLoading` | FinalCAT/lm/bhiksha.cc:77-86 | The array is filled exactly to its end if and only if the last value has the high part of the largest. |
| `Bhiksha.WriteLevel` | FinalCAT/lm/trie.cc:74-106 | Writing non-decreasing pointers that end at the largest fills the array exactly, whatever the closing index. |
| `Bhiksha.ChopBits` | FinalCAT/lm/bhiksha.cc:33-49 | The number of bits moved is the smallest of those for which table and records together are smallest. |
| `Bhiksha.ClosingIndexMatters` | FinalCAT/lm/trie.cc:101-106 | With the closing index the trie passes, one more than the number of records: of 65 records whose last has the only child, that child is lost. |
| `PrefixMatch.Prefix.DistanceIsLeast` | FinalCAT/CAT/ModifiedCaitra.cpp:497-585 | No way of editing costs less than the distance the table is made of ... |
| `PrefixMatch.Prefix.DistanceIsAttained` | FinalCAT/CAT/ModifiedCaitra.cpp:497-585 | ... and one costs as much. |
| `PrefixMatch.Prefix.CostTable` | FinalCAT/CAT/ModifiedCaitra.cpp:497-560 | Every cell of the table, with its cap on phrase words. |
| `PrefixMatch.Prefix.TableExactIff` | FinalCAT/CAT/ModifiedCaitra.cpp:497-560 | The table holds the true distances if and only if the phrase has no more words than the cap. |
| `SearchPaths.Task.CostExactIff` | FinalCAT/CAT/ModifiedCaitra.cpp:510-520 | In the search the table is right if and only if the phrase has at most twice the words of the prefix and two. |
| `PrefixMatch.Prefix.CapIsHarmless` | FinalCAT/CAT/ModifiedCaitra.cpp:497-560 | The cap spoils only distances that reach it, so no error level that is searched. |
| `PrefixMatch.Prefix.StringEditDistance` | FinalCAT/CAT/ModifiedCaitra.cpp:497-585 | The matches are exactly those that use up the phrase and advance in the prefix, and those that use up the prefix: one at every completion while the last word is partial, otherwise one at every word. |
| `PrefixMatch.Prefix.DistanceAdds` | FinalCAT/CAT/ModifiedCaitra.cpp:497-585 | Matching two phrases one after the other costs no less than matching them together. |
| `SearchPaths.Task.PathIffOneBlock` | FinalCAT/CAT/CaitraWithJump.cpp:631-734 | The back pointers with their three phases allow exactly the ways through the graph with at most one contiguous block of skipped transitions. |
| `SearchPaths.Task.SkipCostsOne` | FinalCAT/CAT/CaitraWithJump.cpp:631-666 | The error of a path is the sum of its match errors, plus one if anything was skipped. |
| `SearchPaths.Task.WordsAreTranscript` | FinalCAT/CAT/CaitraWithJump.cpp:239-262 | The matched words of a path are the phrases of its matched transitions in order and nothing else; likewise the skipped ones. |
| `SearchPaths.Task.ScoreIsSum` | FinalCAT/CAT/ModifiedCaitra.cpp:591-593 | The score of a path is the sum of the scores of its transitions. |
| `SearchPaths.Task.CompleteIsClose` | FinalCAT/CAT/ModifiedCaitra.cpp:377-447 | The words that a complete path matches are within its error, less one if it skips, of what was typed, in edit distance. |
| `SearchTable.Search.OfferMove` | FinalCAT/CAT/ModifiedCaitra.cpp:591-651 | Recording one move covers it and keeps every table invariant. |
| `SearchTable.Search.OfferEnding` | FinalCAT/CAT/ModifiedCaitra.cpp:591-651 | Recording one completion covers it and keeps every table invariant. |
| `SearchResults.TraceIsPath` | FinalCAT/CAT/ModifiedCaitra.cpp:241-258 | Following the back pointers ends at the start and reproduces the recorded error and score. |
| `SearchResults.LevelReached` | FinalCAT/CAT/ModifiedCaitra.cpp:377-447 | The first level with a completion is the least error of all complete paths, and its score the greatest among those with that error. |
| `SearchResults.NothingBetter` | FinalCAT/CAT/CaitraSearchGraph.cpp:319-410 | What was pruned or recombined cannot be worth more than the best completion found. |
| `PrefixSearch.Searcher.ProcessJump` | FinalCAT/CAT/CaitraWithJump.cpp:631-666 | The skip recorded in place, with the error the automaton charges. |
| `PrefixSearch.Searcher.ProcessMatch` | FinalCAT/CAT/ModifiedCaitra.cpp:591-651 | The match or the completion recorded in place; the error level is reported if and only if it replaced the best one. |
| `PrefixSearch.Searcher.SearchByLevel` | FinalCAT/CAT/ModifiedCaitra.cpp:377-447 | The level returned is the least error over all complete paths with true edit distances; 20000 if and only if none is within the prefix length. |
| `PrefixSearch.Searcher.SearchWeighted` | FinalCAT/CAT/CaitraSearchGraph.cpp:319-410 | Pruning and recombination lose nothing: the chosen entry attains the greatest value of all complete paths, if any is above the starting floor. |
| `PrefixSearch.Searcher.SelectError` | FinalCAT/CAT/CaitraSearchGraph.cpp:385-410 | The error whose entry is worth the recorded best value. |
| `PrefixSearch.Searcher.WalkBack` | FinalCAT/CAT/CaitraWithJump.cpp:210-260 | The words collected are those of the path traced back, last first, matched and skipped ones apart, place by place. |
| `PrefixSearch.Searcher.PredictFrom` | FinalCAT/CAT/ModifiedCaitra.cpp:222-240 | The words to the end of the sentence are those of a continuation with the score the state promises. |
| `PrefixSearch.Searcher.CompleteByLevel` | FinalCAT/CAT/ModifiedCaitra.cpp:97-368 | The completion returned is that of a path of least error and, among those, greatest score; its matched words are within that edit distance of what was typed; the tables are cleared unless none was found. |
| `PrefixSearch.Searcher.CompleteByValue` | FinalCAT/CAT/CaitraSearchGraph.cpp:108-310 | The completion returned is that of a path of greatest value; what happens when no completion is above the floor is stated, too. |
| `PrefixSearch.PredictedScore` | FinalCAT/CAT/ModifiedCaitra.cpp:222-240 | The score of a completion is that of a whole sentence: its path, its last transition, and the transitions that give the predicted words. |
| `EditRows.LevStep` | FinalCAT/CAT/editdistance.h:15-56 | The row of a text with one more character follows from the row before it. |
| `EditRows.BestStringIsSpaced` | FinalCAT/CAT/ECModelSearchGraph.cpp:350-376 | The text of a state is the phrases along its back pointers, in order, with one space between them. |
| `EditRows.GetEditDistanceCharLevel` | FinalCAT/CAT/editdistance.h:15-56 | From the row of u the call yields the row of u + s, and the distance of every intermediate text to all that was typed. |
| `EditRows.EditSearch.ProcessState` | FinalCAT/CAT/ECModelSearchGraph.cpp:350-376 | A state's rows continue those of the state before it, over a space and its own words. |
| `EditRows.EditSearch.ComputeEditDistances` | FinalCAT/CAT/ECModelSearchGraph.cpp:300-347 | After the breadth-first pass exactly the reachable states have rows, and each row is the edit distance between the whole text of its best path and every beginning of what was typed. |
| `WindowDistance.Table.EditDistance` | FinalCAT/CAT/CaitraWithWindow.cpp:490-535 | The memoised recursion terminates and returns the value of the memo-free definition, leaving filled cells right and others untouched. |
| `WindowDistance.Phrase.CostIsLeast` | FinalCAT/CAT/CaitraWithWindow.cpp:490-535 | No way of passing, dropping, adding and pairing words within the window costs less than the cell ... |
| `WindowDistance.Phrase.CostIsAttained` | FinalCAT/CAT/CaitraWithWindow.cpp:490-535 | ... and one costs as much, if there is a way at all. |
| `WindowDistance.Phrase.NoWay` | FinalCAT/CAT/CaitraWithWindow.cpp:490-501 | Where there is none the cell holds the maximal error, which no way reaches. |
| `WindowDistance.Phrase.NoMoreThanPlain` | FinalCAT/CAT/CaitraWithWindow.cpp:490-535 | Starting from nothing matched, the windowed distance never exceeds the plain word edit distance. |
| `PhraseTrie.OnDiskWrapper.Save` | FinalCAT/OnDiskPt/PhraseNode.cpp:95-158 | A branch is appended children first and is from then on represented in the file; nothing written before changes. |
| `PhraseTrie.OnDiskWrapper.AddTargetPhrase` | FinalCAT/OnDiskPt/PhraseNode.cpp:160-195 | One more phrase: the node holds all rules so far, branches left are saved, nothing written before changes. |
| `PhraseTrie.RepresentsLater` | FinalCAT/OnDiskPt/PhraseNode.cpp:95-158 | A node once saved keeps representing its rules, whatever is appended later. |
| `PhraseTrie.GetChild` | FinalCAT/OnDiskPt/PhraseNode.cpp:197-223 | The bisection finds a child with the word if and only if there is one. |
| `PhraseTrie.Query` | FinalCAT/OnDiskPt/OnDiskQuery.cpp:68-81 | Finds a node if and only if the phrase begins some phrase added, and with it as many of its translations as the limit allows, best first, none worse than one left out. |
| `PhraseTrie.TranslationsArePlaces` | FinalCAT/OnDiskPt/PhraseNode.cpp:167-195 | The translations of a phrase are those of exactly the places where it was added, in that order. |
| `PhraseTrie.CutKeepsBest` | FinalCAT/OnDiskPt/TargetPhraseCollection.cpp:57-68 | Sorting and cutting at the limit keeps the best. |
| `PhraseTrie.BuildTable` | FinalCAT/OnDiskPt/PhraseNode.cpp:160-195 | Adding phrases with equal beginnings together and saving represents them all. |
| `PhraseTrie.SortedBestFirst` | FinalCAT/OnDiskPt/TargetPhraseCollection.cpp:57-68 | Sorting puts the best translations first and loses none. |
| `PhraseTrie.ContiguousCanAdd` | FinalCAT/OnDiskPt/PhraseNode.cpp:167-195 | Equal beginnings standing together is all that adding needs. |
| `SuffixArray.CompareIndex` | FinalCAT/biconcor/SuffixArray.cpp:148-161 | Negative if and only if what follows a comes before what follows b, the end of the corpus first. |
| `SuffixArray.Index.Sort` | FinalCAT/biconcor/SuffixArray.cpp:118-146 | In place through the buffer: the positions rearranged, none lost, in suffix order. |
| `SuffixArray.Index.FindFirst` | FinalCAT/biconcor/SuffixArray.cpp:234-249 | A place that matches, or the size if none does; every match stays between the narrowed ends. |
| `SuffixArray.Index.FindLast` | FinalCAT/biconcor/SuffixArray.cpp:215-232 | The outermost match in one direction; it terminates although it probes one place outside. |
| `SuffixArray.Index.LimitedCount` | FinalCAT/biconcor/SuffixArray.cpp:192-213 | The number of positions at which the comparison finds no difference, and their range; with limit 1 only whether there is one. |
| `SuffixArray.FoundAreOccurrencesIff` | FinalCAT/biconcor/SuffixArray.cpp:251-261 | These are as many as the occurrences if and only if the corpus never ends in the middle of the phrase. |
| `SuffixArray.MarkKeepsApart` | FinalCAT/biconcor/SuffixArray.cpp:251-261 | It never does when the phrase does not contain the mark at the end of the corpus. |
| `SuffixArray.RunningOutIsCounted` | FinalCAT/biconcor/SuffixArray.cpp:251-261 | A corpus and a phrase for which it does: the count is 1 although the phrase occurs nowhere. |
| `SuffixArray.CountInCorpus` | FinalCAT/biconcor/SuffixArray.cpp:169-173 | Sorting and counting together return the exact number of occurrences. |
| `Cder.Pair.RowIsLeast` | FinalCAT/mert/CderScorer.cpp:91-140 | No way through the alignment grid, with deletions, insertions, substitutions and jumps of cost one, is cheaper than its place in the row ... |
| `Cder.Pair.RowIsAttained` | FinalCAT/mert/CderScorer.cpp:91-140 | ... and one is as cheap. |
| `Cder.Pair.ComputeCD` | FinalCAT/mert/CderScorer.cpp:91-140 | The rolling row ends as the row of the whole reference. |
| `Cder.Pair.WithoutJumpsIsEditDistance` | FinalCAT/mert/CderScorer.cpp:91-140 | Without jumps the rows are those of the edit distance. |
| `Cder.Pair.JumpsOnlyHelp` | FinalCAT/mert/CderScorer.cpp:91-140 | With jumps no place is dearer than without. |

## Left out

In the n-gram engine:
- Hash collisions, float rounding and quantisation: keys are injective and numbers exact.
- Bit packing, memory layout, preallocated sizes, counts and the binary file format; `DontBhiksha` is what the trie's levels are
  written with.
- LowerRestBuild, which reads other models from disk; NoRestBuild and MaxRestBuild are modelled.
- RevealBefore, RevealAfter and a positive `between_length`: incremental revealing of words is not modelled.
- HashedSearch's own FastMakeNode, Unpack and the vocabulary.
- Positive log-probabilities in a file, a zero written with a minus sign, and the warnings about them; a file has a unigram for every word.
- LeftState.RuleScore.NonTerminal: needs extension flags that are closed under dropping the oldest word. For the probing builder this
  holds when the file gives back-offs only to contexts (HashedBuild.FinishedFlagsClosed).
- TrieModel.TrieModelIsFile: for a file that loses a flag, only the back-off probabilities are claimed, not the states that the
  scoring code would minimise with that flag missing.
- TrieMessages.SRISucks.Apply: the unigram file is treated like the readers of the other orders.
- Bhiksha.WriteLevel: stands alone; the trie of TrieSearch keeps its pointers plain.

In the prefix search:
- Time-outs, the threshold and its retry, case-insensitive, approximate and suffix matching, letter edit distance, and the
  display of the completion.
- Language-model rescoring inside getPrefix, and Moses types behind createGraph: the graph is given, ordered, with any scores.
- PrefixSearch.Searcher.PredictFrom: the graph has to promise scores that its continuations have, as createGraph computes them.
- PrefixSearch.Searcher.CompleteByValue: when an error is chosen whose entry was never set, the code follows an unset pointer; the
  model returns without a completion there.
- WeightedCaitraWithJump, MainCaitra and CaitraWordVec, close variants of what is modelled.
- The outer level search and process_match of CaitraWithWindow, and the repair of its last word.
- Choosing a state and an alignment in ECModelSearchGraph after the rows have been computed.

In the other structures:
- PhraseTrie.OnDiskWrapper.Save: nodes under construction are values; the files they are appended to are the state. Counts,
  alignments, scores beyond the one sorted by, and the byte layout of words and nodes are not modelled.
- PhraseTrie.BuildTable: asks for phrases with equal beginnings next to each other, as the tool's sorted input has them.
- SuffixArray.Index.LimitedCount: searches the whole array; a probe outside it does not match. If the corpus ends in the middle of
  the phrase the bisection needs that matches still stand together; otherwise no result is claimed.
- Reading the corpus, unknown words, sentence numbers and display.
- Choosing among several references and the ratio that CDER reports.
- The heap of the merge in TrieMerge.RecursiveInsert is a search for the least head; std::sort is an insertion sort of records.
- Online learning, BLEU, word vectors, stemming, tokenising, sockets and command lines: input, output or foreign code.
