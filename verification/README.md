# Verified model of the debugger search, diff, remote protocol and breakpoint code

This project models four parts of the IDA SDK and its debugger servers in Dafny,
in the order of their difficulty, and proves what they promise.

* **Paged memory search** (`src/dbg/bin_search.cpp`). Two matchers scan the memory of a
  process one page at a time and carry partial matches over page boundaries. The page size
  is a parameter. `BinPattern.dfy` says what it means for a pattern to *occur*;
  `ForwardSearch.dfy` and `BackwardSearch.dfy` give the searches as functions and prove them
  sound and complete against that meaning; `ForwardMatcher.dfy` and `BackwardMatcher.dfy`
  are the objects with their page buffer and their list of partial matches, proved to compute
  those functions. `ReferenceSearch.dfy` has the naive search and the comparison that the
  source's own test program makes, and proves that the comparison never fails.
  The walks over memory ranges: which pieces they search (`WalkPlans.dfy`), when they miss
  nothing (`WalkRuns.dfy`, `MissedMatches.dfy`), exactly when what they report is there
  (`WalkSoundness.dfy`, with the failing inputs in `StaleMatches.dfy`), and the loops themselves
  (`WalkRanges.dfy`).
* **Differences of vectors** (`src/include/diff3.hpp`): the table of longest common
  subsequences, filled in place, and the shortest edit script read off it (`LcsTable.dfy`,
  `LcsDiff.dfy`).
* **Remote debugging**: how one debug event travels between server and client, as a state
  machine over two channels with every interleaving (`EventProtocol.dfy`,
  `RpcEndpoints.dfy`), that it never gets stuck (`EventDelivery.dfy`), and which reply a request
  of the server gets (`NestedRequests.dfy`); names with shared prefixes and address differences
  (`DebugNames.dfy`); breakpoint updates with skipped entries (`UpdateBpts.dfy`).
* **State of the debugger module**: the stack image of application calls
  (`AppcallStack.dfy`), the stacks of contexts they save (`Appcalls.dfy`,
  `AppcallModule.dfy`), the index of page breakpoints (`PageBpts.dfy`), the probing of file
  sizes (`ProbeFile.dfy`) and the hardware breakpoint register (`HwBpts.dfy`), which is
  modelled as the set of its bits.

Where the source loops and assigns, the model does too: there is a class or a method with
loops, and its contract ties the new state to a function about which the theorems are proved.
`PageScan.dfy` and `Arith.dfy` hold what both search directions share, `Words.dfy` the 64-bit
words of all parts.

## What the code does not promise

These properties do not hold of the source. Each is stated here with the exact condition
under which it does, or with the lemma that shows the case.

* Partial matches are kept from one memory range to the next, and the search goes on with them
  at the border of the page in which the next range lies. What a walk reports occurs in the
  pieces it searches, for all memories and patterns, if and only if each of them begins, at a
  page boundary, where the one before it ends (`WalkSoundness.ForwardWalkSoundExactly`, and
  downwards `WalkSoundness.BackwardWalkSoundExactly`). `WalkSoundness.StaleMatch` and
  `WalkSoundness.BackwardStaleMatch` have a failing input for every other pair of ranges.
* For the same reason two ranges that meet inside a page are searched without finding an
  occurrence across them: searching both misses nothing exactly when they meet at a page boundary
  (`MissedMatches.NothingMissedExactly`, `MissedMatches.NothingMissedBackwardExactly`). Carried
  matches hide nothing else (`WalkRuns.ForwardWalkComplete`, `WalkRuns.BackwardWalkComplete`).
* The forward walk stops at the first later range that the end of the search falls into; the
  backward walk may search a range outside the request when no range meets it
  (`WalkPlans.ForwardPlanExact`, `WalkPlans.BackwardPlanExact`).
* A backward search of a range that ends in the last page of the address space does not look
  at it (`BackwardSearch.RightExactlyBelowTopPage`). A forward search that ends there starts
  again at address 0; for an undisturbed memory it ends with the right verdict exactly when
  the range ends at or below that page or a pattern occurs in it
  (`ForwardMatcher.ForwardRightExactly`). `ForwardSearch.FreshFind` and the theorems on walks
  speak of the search function, which the source computes below that page, and in it as far as
  the first pass over the range does not fail.
* More than 255 original bytes of one deletion make the server misread the update request
  (`UpdateBpts.RequestTransparent`). More than 255 original bytes in one answer make the client
  misread the reply; the answers to the additions land on the entries that were sent exactly
  when they fit (`UpdateBpts.ScatterAddsExactly`).
* For a 32-bit application the client changes addresses that do not fit 32 bits, and
  0xFFFFFFFF (`DebugNames.StoredAsSent`).
* When the process or the thread exits during an application call, the call reports BADADDR
  without an error and its context stays on the stack (`AppcallModule.DebuggerModule.Appcall`).
* A page breakpoint is not found when the range asked for ends at the top of the address space
  (`PageBpts.FindExactlyBelowTop`). So an addition takes its place among the others exactly when
  its range ends below the top (`PageBpts.TakesPlaceExactly`). At the top it overwrites an entry
  that begins at its first page, and overlaps those that begin above it
  (`PageBpts.AddAtTop`, `PageBpts.AddKeepsExactly`). A breakpoint at the last address is never
  found for deletion (`PageBpts.PageBptMap.Delete`). An entry that could not be enabled stays in
  the map although the addition is reported as failed (`PageBpts.PageBptMap.Add`).
* The middle of the file size search is an `int`: sizes are found exactly while the upper bound
  is at most 2^31 (`ProbeFile.ExactUpToIntTop`, and for the whole of the probing
  `ProbeFile.ProbeExactUpToIntTop`). With a first step of zero the answer is zero
  (`ProbeFile.ProbeFileSize`).
* While an activity of the server waits for a reply, a request of the client may be performed
  that asks something itself. The innermost activity then takes the oldest reply. Every activity
  gets the reply to its own request exactly when, whenever a reply is taken, no other activity is
  under way (`NestedRequests.OwnRepliesExactly`, `NestedRequests.RepliesExchanged`).
* DR7 stays the encoding of the slot table exactly when the new breakpoint is not at BADADDR,
  which passes the check of type, length and alignment for a length of one
  (`HwBpts.AddKeepsEncodingExactly`). A deletion right after it still restores DR7
  (`HwBpts.HwBreakpoints.AddThenDelete`).

## Model

| member | source | states |
|---|---|---|
| BinPattern.SplitPatterns | src/dbg/bin_search.cpp:89-98 | the two lists hold, in increasing order, exactly the non-empty patterns that can be compared byte by byte and the other non-empty ones |
| BinPattern.IndicesSound | src/dbg/bin_search.cpp:69-98 | each non-empty pattern is in exactly one of the two lists, and no empty pattern is |
| BinPattern.OccursMeans | src/include/bytes.hpp:2520-2545 | a pattern occurs exactly where every byte fits the memory: under a zero mask byte always; with a mask of bits when the bits under it are the same; otherwise when the bytes are equal or, without case sensitivity, the two cases of one letter |
| BinPattern.MatchesMeans | src/include/bytes.hpp:2520-2545 | the same for one byte |
| BinPattern.MaskBytes | src/include/bytes.hpp:2530-2545 | under a zero mask byte every byte of memory matches; under 0xFF, with a mask of bits or not, those that match without a mask |
| BinPattern.MatchPattern | src/dbg/bin_search.cpp:160-172 | true exactly when every compared byte of the page agrees with the pattern under mask and case folding |
| BinPattern.CompareBytes | src/dbg/bin_search.cpp:331-372 | the plain comparison of a simple pattern is the masked and folded one |
| PageScan.ScanResult | src/dbg/bin_search.cpp:256-288 | trying candidates in order gives the first success, or exactly the candidates that partly succeed, still ordered for each pattern |
| PageScan.AttemptsOrder | src/dbg/bin_search.cpp:275-288 | pattern-by-pattern for the simple ones and position-by-position for the others tries every non-empty pattern at every position once, in the search direction for each pattern |
| ForwardSearch.FinalizedMeans | src/dbg/bin_search.cpp:378-396 | a carried match succeeds on this page exactly when its pattern occurs up to the page part's end, and is carried on exactly when the page is searched to its end and the match straddles the next boundary |
| ForwardSearch.TriedMeans | src/dbg/bin_search.cpp:299-326 | an attempt succeeds exactly when the pattern occurs there, and is remembered exactly when it straddles the end of the page part |
| ForwardSearch.CarriedUpwards | src/dbg/bin_search.cpp:256-288 | the entries of one pattern are in increasing address order |
| ForwardSearch.PageHit | src/dbg/bin_search.cpp:256-288 | a hit on a page is the first occurrence of one of the patterns, counted from the begin of the search |
| ForwardSearch.PageCarry | src/dbg/bin_search.cpp:256-291 | after a page without a hit nothing occurs up to its end, and the partial matches are exactly the (pattern, start) pairs that match up to the boundary and go beyond it |
| ForwardSearch.FreshFind | src/dbg/bin_search.cpp:242-292 | a fresh search that ends without error reports a match exactly when a non-empty pattern occurs wholly inside the range, and then the first occurrence of one of the patterns |
| ForwardSearch.ContinuedFind | src/dbg/bin_search.cpp:242-292 | the same for the whole range when a matcher goes on at a page boundary after a search without success |
| ForwardSearch.SplitFind | src/dbg/bin_search.cpp:242-292 | cutting a search at any page boundary changes neither its result nor the matches it carries |
| ForwardSearch.NoFailure | src/dbg/bin_search.cpp:247-255 | with readable pages and no break from the user there is no error |
| ForwardSearch.FailureIsComplete | src/dbg/bin_search.cpp:242-292 | whatever partial matches a matcher brings along, a search without success means that no pattern occurs in the range |
| ForwardMatcher.Memchr | src/dbg/bin_search.cpp:331-372 | finds the first byte with the wanted value, or none exists |
| ForwardMatcher.ForwardMatcher.constructor | src/dbg/bin_search.cpp:75-101 | a new matcher carries nothing and has found nothing |
| ForwardMatcher.ForwardMatcher.FinalizePartialMatch | src/dbg/bin_search.cpp:378-396 | finishes, drops or advances one carried match as the specification says, and reports its begin on success |
| ForwardMatcher.ForwardMatcher.HandlePartialMatches | src/dbg/bin_search.cpp:259-274 | erasing and updating entries in place leaves exactly the matches that go on, in order |
| ForwardMatcher.ForwardMatcher.MatchAt | src/dbg/bin_search.cpp:299-326 | all complex patterns at one position: the first hit, or the new partial matches appended |
| ForwardMatcher.ForwardMatcher.MatchSimplePattern | src/dbg/bin_search.cpp:331-372 | jumping from one possible first byte to the next gives what trying every position gives |
| ForwardMatcher.ForwardMatcher.MatchSimplePatterns | src/dbg/bin_search.cpp:331-372 | the same for all simple patterns, one after the other |
| ForwardMatcher.ForwardMatcher.MatchComplexPatterns | src/dbg/bin_search.cpp:278-286 | the position loop covers the rest of the page |
| ForwardMatcher.ForwardMatcher.SearchPage | src/dbg/bin_search.cpp:256-288 | one page: carried matches, then simple, then complex patterns, stopping at the first hit |
| ForwardMatcher.ForwardMatcher.Find | src/dbg/bin_search.cpp:242-292 | the page loop with its 64-bit addresses computes the search function: code, found address, failed address and carried matches, whenever it ends before it has gone through the last page of the address space |
| ForwardMatcher.BinarySearch | src/dbg/bin_search.cpp:656-672 | a search on a new matcher finds the first occurrence of one of the patterns exactly when one occurs, also in the last page of the address space if one occurs |
| ForwardMatcher.ForwardRightExactly | src/dbg/bin_search.cpp:242-292 | for every undisturbed memory the search with 64-bit addresses ends with the right verdict if and only if the range ends at or below the last page of the address space or a pattern occurs in it |
| ForwardMatcher.LoopEnds | src/dbg/bin_search.cpp:247-291 | the page loop with 64-bit addresses ends with what the search function says, unless that is a failure and the range reaches into the last page |
| ForwardMatcher.LoopNeverFails | src/dbg/bin_search.cpp:247-291 | over a range that reaches into the last page the loop never ends without a match |
| BackwardSearch.FinalizedMeans | src/dbg/bin_search.cpp:581-599 | a carried suffix completes exactly when its pattern occurs above the scanned begin of the page, and is carried on exactly when the page is searched down to its begin and the suffix straddles it |
| BackwardSearch.TriedMeans | src/dbg/bin_search.cpp:504-530 | an attempt that ends at a position succeeds exactly when the pattern occurs, and is remembered exactly when it straddles the scanned begin |
| BackwardSearch.PageHit | src/dbg/bin_search.cpp:463-493 | a hit on a page is the last occurrence of one of the patterns |
| BackwardSearch.PageCarry | src/dbg/bin_search.cpp:463-496 | after a page without a hit nothing occurs above its scanned begin, and exactly the straddling suffixes are carried |
| BackwardSearch.FreshFind | src/dbg/bin_search.cpp:449-497 | a fresh backward search reports a match exactly when a pattern occurs wholly inside the range, and then the last occurrence of one of them, also down to address 0 |
| BackwardSearch.ContinuedFind | src/dbg/bin_search.cpp:449-497 | the same when a matcher goes on below a page boundary |
| BackwardSearch.SplitFind | src/dbg/bin_search.cpp:449-497 | a backward search can be cut at any page boundary without a change of result |
| BackwardSearch.NoFailure | src/dbg/bin_search.cpp:449-497 | with readable pages and no break from the user there is no error |
| BackwardSearch.RightExactlyBelowTopPage | src/dbg/bin_search.cpp:449-454 | the verdict is right for all memories exactly when the range ends at or below the last page of the address space |
| BackwardSearch.FailureIsComplete | src/dbg/bin_search.cpp:449-497 | carried suffixes, right or wrong, never hide an occurrence |
| BackwardMatcher.LocalMemrchr | src/dbg/bin_search.cpp:28-39 | finds the last byte with the wanted value, or none exists |
| BackwardMatcher.BackwardMatcher.FinalizePartialMatch | src/dbg/bin_search.cpp:581-599 | finishes, drops or advances one carried suffix as the specification says |
| BackwardMatcher.BackwardMatcher.HandlePartialMatches | src/dbg/bin_search.cpp:464-479 | erasing and updating in place leaves exactly the suffixes that go on |
| BackwardMatcher.BackwardMatcher.MatchBefore | src/dbg/bin_search.cpp:504-530 | all complex patterns that end at one position |
| BackwardMatcher.BackwardMatcher.MatchSimplePattern | src/dbg/bin_search.cpp:535-575 | jumping from one possible last byte to the one before gives what trying every end position gives |
| BackwardMatcher.BackwardMatcher.MatchSimplePatterns | src/dbg/bin_search.cpp:535-575 | the same for all simple patterns |
| BackwardMatcher.BackwardMatcher.SearchPage | src/dbg/bin_search.cpp:463-493 | one page, downwards, stopping at the first hit |
| BackwardMatcher.BackwardMatcher.Find | src/dbg/bin_search.cpp:449-497 | the page loop with its 64-bit test computes the search function, stops below address 0 and skips ranges in the last page |
| BackwardMatcher.BinarySearch | src/dbg/bin_search.cpp:656-672 | a backward search on a new matcher finds the last occurrence of one of the patterns exactly when one occurs, and finds nothing when the range ends in the last page of the address space |
| ReferenceSearch.CmpBytes | src/dbg/bin_search.cpp:675-693 | byte comparison, case folded on demand |
| ReferenceSearch.MemMem | src/dbg/bin_search.cpp:696-717 | the first occurrence of one pattern, or none exists |
| ReferenceSearch.MemMemR | src/dbg/bin_search.cpp:720-741 | the last occurrence of one pattern, or none exists |
| ReferenceSearch.SimpleBinarySearch | src/dbg/bin_search.cpp:744-775 | the reference answers are exactly the first (last) occurrences of the patterns that occur |
| ReferenceSearch.Check | src/dbg/bin_search.cpp:778-792 | the answer agrees with the reference |
| ReferenceSearch.TestRound | src/dbg/bin_search.cpp:818-880 | for every memory, pattern set, range, page size and direction, the matcher passes the comparison with the reference |
| ReferenceSearch.AgreementIsComplete | src/dbg/bin_search.cpp:744-775 | the reference has an answer exactly when a pattern occurs |
| WalkPlans.ForwardPlanExact | src/dbg/bin_search.cpp:203-238 | the forward walk searches exactly the mapped addresses of the request if and only if its end does not fall into a later range |
| WalkPlans.BackwardPlanExact | src/dbg/bin_search.cpp:416-446 | the backward walk does so if and only if some range meets the request or none begins below its end |
| WalkPlans.ForwardPlanAt | src/dbg/bin_search.cpp:203-238 | every range that meets the request and does not stop the walk is one piece of it, in its place, clipped to the request |
| WalkPlans.BackwardPlanAt | src/dbg/bin_search.cpp:416-446 | every range that meets the request is one piece, in its place from above |
| WalkPlans.ForwardPieceOf | src/dbg/bin_search.cpp:203-238 | every piece of the forward walk is a range that meets the request, clipped to it |
| WalkPlans.BackwardPieceOf | src/dbg/bin_search.cpp:416-446 | every piece of the backward walk but the first is a range that meets the request; the first is the last range that begins below its end |
| WalkRuns.ForwardWalkComplete | src/dbg/bin_search.cpp:203-238 | a forward walk without success has missed no occurrence in any block of readable ranges that follow one another without a gap and do not stop it, also none that spans several of them, whatever the matcher carried before |
| WalkRuns.BackwardWalkComplete | src/dbg/bin_search.cpp:416-446 | the same for a backward walk and any block of readable ranges of the request that ends at or below the last page of the address space |
| WalkRuns.FreshChainUp | src/dbg/bin_search.cpp:225-238 | searching pieces that follow one another at page boundaries does what one search of the whole stretch does |
| WalkRuns.FreshChainDown | src/dbg/bin_search.cpp:434-446 | the same downwards |
| WalkSoundness.SoundExactlyWhenAdjacent | src/dbg/bin_search.cpp:203-238 | carrying partial matches into a second range is sound for all memories and patterns if and only if the ranges meet, and do so at a page boundary |
| WalkSoundness.StaleMatch | src/dbg/bin_search.cpp:228-235 | between any other two ranges a match can be reported that occurs in neither nor across them |
| WalkSoundness.BackwardSoundExactlyWhenAdjacent | src/dbg/bin_search.cpp:434-446 | the same if and only if for the backward matcher, or the first range searched ends in the last page and is not looked at |
| WalkSoundness.BackwardStaleMatch | src/dbg/bin_search.cpp:435-444 | the backward matcher, too, can report a match between any other two ranges that occurs in neither nor across them |
| WalkSoundness.ForwardSoundExactly | src/dbg/bin_search.cpp:225-238 | for a whole sequence of pieces upwards, what is reported occurs in them, for all queries and memories, if and only if each searched piece begins, at a page boundary, where the one before it ends |
| WalkSoundness.BackwardSoundExactly | src/dbg/bin_search.cpp:434-446 | the same downwards for the pieces that are looked at |
| WalkSoundness.ForwardWalkSoundExactly | src/dbg/bin_search.cpp:203-238 | so for the whole forward walk over any sorted ranges |
| WalkSoundness.BackwardWalkSoundExactly | src/dbg/bin_search.cpp:416-446 | so for the whole backward walk over any sorted ranges |
| StaleMatches.UpTakesStale | src/dbg/bin_search.cpp:378-396 | a byte remembered from another range is taken for the begin of a match when the byte at the begin of the page fits |
| StaleMatches.DownTakesStale | src/dbg/bin_search.cpp:581-599 | downwards, for the end of a match when the byte at the end of the page fits |
| MissedMatches.NothingMissedExactly | src/dbg/bin_search.cpp:228-235 | searching two ranges that meet misses nothing in them, for all queries and memories, if and only if they meet at a page boundary |
| MissedMatches.NothingMissedBackwardExactly | src/dbg/bin_search.cpp:435-444 | the same downwards, if and only if the upper one is also looked at |
| WalkRanges.PickForward | src/dbg/bin_search.cpp:203-223 | finds the first piece of the forward walk |
| WalkRanges.WalkForward | src/dbg/bin_search.cpp:203-238 | searches the pieces of the forward walk in order on one matcher until one does not fail, whenever no search fails in the last page of the address space |
| WalkRanges.WalkOnForward | src/dbg/bin_search.cpp:228-237 | the loop over the later ranges |
| WalkRanges.PickBackward | src/dbg/bin_search.cpp:416-433 | finds the first piece of the backward walk |
| WalkRanges.WalkBackward | src/dbg/bin_search.cpp:416-446 | searches the pieces of the backward walk in order on one matcher until one does not fail |
| WalkRanges.WalkOnBackward | src/dbg/bin_search.cpp:435-444 | the loop over the ranges before |
| WalkRanges.SearchForward | src/dbg/bin_search.cpp:145-156 | a range that cannot be read at its begin is skipped |
| WalkRanges.SearchBackward | src/dbg/bin_search.cpp:145-156 | the same for the backward matcher |
| WalkRanges.BelowTopNeverWraps | src/dbg/bin_search.cpp:225-238 | pieces that end at or below the last page satisfy what the forward walk asks |
| LcsTable.LcsUpper | src/include/diff3.hpp:528-548 | no common subsequence is longer than the recurrence says |
| LcsTable.LcsWitness | src/include/diff3.hpp:528-548 | a common subsequence of that length exists |
| LcsTable.LcsIsLongest | src/include/diff3.hpp:528-548 | the recurrence is the length of a longest common subsequence of the two prefixes |
| LcsDiff.ScriptTransforms | src/include/diff3.hpp:554-591 | the script read off the table gives the old vector from what it keeps and removes and the new one from what it keeps and adds, and keeps as much as the table says |
| LcsDiff.ScriptIsMinimal | src/include/diff3.hpp:554-591 | no script between the two vectors adds and removes fewer items |
| LcsDiff.ScriptIsPreferred | src/include/diff3.hpp:554-587 | which of the shortest scripts it is: seen from the end, the one that keeps an item whenever it can, and otherwise adds one whenever it can; every other shortest script first differs by doing less |
| LcsDiff.RemovalsFirst | src/include/diff3.hpp:554-587 | no addition is directly followed by a removal: between two kept items all removals come first |
| LcsDiff.KeptEmbeds | src/include/diff3.hpp:554-591 | what any script keeps is a common subsequence |
| LcsDiff.CostCounts | src/include/diff3.hpp:554-591 | a script costs the items of both sides that it does not keep |
| LcsDiff.MirrorReverses | src/include/diff3.hpp:588-590 | reversing the list of parts and every part reverses the script |
| LcsDiff.MirrorKeepsRuns | src/include/diff3.hpp:588-590 | the reversals keep parts non-empty and as long as possible |
| LcsDiff.RunsAreUnique | src/include/diff3.hpp:488-493 | a script has only one division into such parts |
| LcsDiff.IndexInBounds | src/include/diff3.hpp:594-599 | the table index is always inside the table |
| LcsDiff.IndexInjective | src/include/diff3.hpp:594-599 | different cells have different places |
| LcsDiff.LcsDiff.constructor | src/include/diff3.hpp:516-549 | the nested loops fill every cell with the recurrence |
| LcsDiff.LcsDiff.TableIsLongest | src/include/diff3.hpp:516-549 | every cell is the length of a longest common subsequence of its prefixes |
| LcsDiff.LcsDiff.Table | src/include/diff3.hpp:594-599 | reads a filled cell |
| LcsDiff.LcsDiff.SetTable | src/include/diff3.hpp:531-547 | filling one cell keeps the others |
| LcsDiff.LcsDiff.FillCell | src/include/diff3.hpp:531-547 | the body of the two loops fills the next cell with the recurrence |
| LcsDiff.LcsDiff.SetAction | src/include/diff3.hpp:467-493 | appends one item to the script and keeps the parts maximal |
| LcsDiff.LcsDiff.Diff | src/include/diff3.hpp:554-591 | the result transforms x into y, in maximal parts, with the fewest additions and removals of all scripts; it is the preferred one among those that have as few, and parts that remove come before parts that add |
| LcsDiff.LcsDiff.ReverseParts | src/include/diff3.hpp:588-590 | the double reversal in place reverses the script |
| EventProtocol.StepKeeps | src/dbg/dbg_rpc_engine.cpp:95-153 | every step of client and server keeps the invariant of the event protocol, by which nothing is lost and polling is always resumed |
| EventProtocol.NoEventIsLost | src/dbg/dbg_rpc_handler.cpp:1229-1251 | after every run the events taken from the module are, in order, those returned by the client and then the one on its way: none lost, doubled or reordered |
| EventProtocol.NoProtocolError | src/dbg/rpc_debmod.cpp:534-550 | the client never meets a reply it does not expect, and no stray reply ends the server loop: a reply meets a client that waits for one of its kind, or an activity that waits |
| EventProtocol.PendingEventSafe | src/dbg/dbg_rpc_client.cpp:197-203 | an arriving event never replaces one that is still pending |
| EventProtocol.PollsOnlyWhenExpected | src/dbg/dbg_rpc_handler.cpp:471-475 | the server polls only outside of any request, with no event outstanding, and only while the client polls or is about to be told to |
| EventProtocol.EventArrives | src/dbg/rpc_debmod.cpp:522-571 | an idle client gets the outstanding event with at most one call more than there are packets on the way |
| EventProtocol.PollingGoesOn | src/dbg/dbg_rpc_handler.cpp:1222-1251 | after every run, when an idle client polls and has been given all events, the server can begin a poll or polls already |
| EventProtocol.NewEventArrives | src/dbg/dbg_rpc_handler.cpp:1229-1251 | when nothing is under way, the next event of the module reaches the caller: through a poll of the server if the client polls, and otherwise through the request that it makes |
| EventProtocol.ChannelsAreQueues | src/dbg/dbg_rpc_engine.cpp:95-153 | a step takes the first packet of a channel or none, a receiving step always takes it, and what is sent goes behind all other packets |
| EventDelivery.ComesToRest | src/dbg/dbg_rpc_engine.cpp:95-153 | no deadlock: from every reachable state all activities, packets and calls under way can come to their ends without anything new, and then the caller has all events |
| EventDelivery.NextEventArrives | src/dbg/dbg_rpc_handler.cpp:1222-1251 | after every run there is a way to go on on which the caller gets all events taken so far and then the next one of the module |
| EventProtocol.RequestEndKeeps | src/dbg/dbg_rpc_handler.cpp:1222-1224 | answering a request keeps the invariant, and a server that was to poll before it will poll after it |
| EventProtocol.TakePacketKeeps | src/dbg/dbg_rpc_engine.cpp:116-153 | handling one packet on the client keeps the invariant |
| NestedRequests.OwnRepliesExactly | src/dbg/dbg_rpc_engine.cpp:95-153 | over every run the replies to server requests are taken in the order of asking, and every activity gets the reply to its own request if and only if, whenever a reply is taken, no other activity is under way |
| NestedRequests.AskedAloneSuffices | src/dbg/dbg_rpc_engine.cpp:95-153 | it suffices that no activity asks while another one is under way |
| NestedRequests.RepliesExchanged | src/dbg/dbg_rpc_engine.cpp:95-153 | there is a run from a fresh connection in which a client request that is being performed gets the reply to a request of a poll |
| NestedRequests.NumbersStayAgreed | src/dbg/dbg_rpc_engine.cpp:95-153 | in every step each waiting activity has exactly one request without a reply, and replies come in the order of asking |
| RpcEndpoints.RpcClient.OnSendRequestInterrupt | src/dbg/dbg_rpc_client.cpp:197-203 | stores the event and acknowledges it, as the state machine does |
| RpcEndpoints.RpcClient.BeginGetDebugEvent | src/dbg/rpc_debmod.cpp:522-557 | returns a pending event, drains a packet or sends a request, as the state machine does |
| RpcEndpoints.RpcClient.FinishGetDebugEvent | src/dbg/rpc_debmod.cpp:557-570 | takes the event of the reply or switches to polling |
| RpcEndpoints.RpcServer.BeginRequest | src/dbg/dbg_rpc_handler.cpp:526-531 | saves the poll mode and switches it off |
| RpcEndpoints.RpcServer.FinishRequest | src/dbg/dbg_rpc_handler.cpp:1222-1224 | answers the event request and restores or begins polling, as the state machine does |
| RpcEndpoints.RpcServer.BeginPoll | src/dbg/dbg_rpc_handler.cpp:1229-1236 | polls exactly when the state machine allows it |
| RpcEndpoints.RpcServer.FinishPoll | src/dbg/dbg_rpc_handler.cpp:1236-1248 | sends the event at once or goes on polling |
| DebugNames.DifferenceSurvives | src/dbg/dbg_rpc_handler.cpp:1329-1335 | a 64-bit difference is a signed number from -2^63 up to 2^63 that leads from one address to the other, and its sign and magnitude give the address back, also for -2^63 |
| DebugNames.EntryRoundTrip | src/dbg/dbg_rpc_handler.cpp:1329-1350 | one name and address come back, and the kept prefix is never too long |
| DebugNames.EntryIsShort | src/dbg/dbg_rpc_handler.cpp:1329-1350 | an entry leaves out the longest common prefix of the name and the one before, and has a distance of at most 2^63 with its direction |
| DebugNames.EntryAt | src/dbg/dbg_rpc_handler.cpp:1320-1354 | in a packet each entry is relative to the one before it, and the first to address 0 and an empty name |
| DebugNames.PacketRoundTrip | src/dbg/dbg_rpc_client.cpp:105-118 | a packet decodes to the items put into it |
| DebugNames.RoundTrip | src/dbg/dbg_rpc_handler.cpp:1303-1367 | for every list of 64-bit addresses and names, decoding all packets gives the list |
| DebugNames.PacketsWellSplit | src/dbg/dbg_rpc_handler.cpp:1318-1359 | packets are not empty, only the final entry of a packet takes it past 0x100000, and each but the last gets there |
| DebugNames.FillPacket | src/dbg/dbg_rpc_handler.cpp:1320-1354 | the inner loop builds the next packet |
| DebugNames.SendDebugNames | src/dbg/dbg_rpc_handler.cpp:1303-1367 | sends the packets in order and stops at the first one that is not acknowledged with its number of entries |
| DebugNames.ReceiveDebugNames | src/dbg/dbg_rpc_client.cpp:96-118 | the decoding loop fails its assertion exactly when the packet does not decode, and otherwise stores the items |
| DebugNames.StoredAsSent | src/include/ida.hpp:1225-1226 | the client keeps the addresses as sent exactly for 64-bit applications or addresses that fit |
| UpdateBpts.ReadDelBack | src/dbg/dbg_rpc_handler.cpp:315-327 | a deletion is read as sent if its bytes fit the length byte, and not at all otherwise |
| UpdateBpts.RequestTransparent | src/dbg/rpc_debmod.cpp:223-249 | the server sees exactly the additions that are not skipped and all deletions, in order, if and only if all original bytes fit |
| UpdateBpts.ServerSees | src/dbg/dbg_rpc_handler.cpp:296-327 | field by field, what the server sees of each addition that is sent, in order and no others, and of each deletion |
| UpdateBpts.ScatterAddsBack | src/dbg/rpc_debmod.cpp:260-273 | answers that fit land on the entries that were sent |
| UpdateBpts.ScatterAddsExactly | src/dbg/rpc_debmod.cpp:260-273 | the answers to the additions land on the entries that were sent if and only if the original bytes of each of them fit the length byte |
| UpdateBpts.LongAnswersSpoil | src/dbg/dbg_rpc_handler.cpp:345-353 | with an answer that does not fit, no reading of the reply gives the entries their answers |
| UpdateBpts.ScatterDelsBack | src/dbg/rpc_debmod.cpp:275-277 | the answers to the deletions land on their entries |
| UpdateBpts.MergedKeeps | src/dbg/rpc_debmod.cpp:261-273 | skipped entries are unchanged, and every entry keeps its address, size, type and ids |
| UpdateBpts.MergedEntry | src/dbg/rpc_debmod.cpp:260-273 | an addition that was sent gets the code of its answer and, for code 0 and type 4 (software breakpoints), the original bytes of it; nothing else changes |
| UpdateBpts.MergedDelsEntry | src/dbg/rpc_debmod.cpp:275-277 | each deletion gets the code of its own answer |
| UpdateBpts.Gather | src/dbg/rpc_debmod.cpp:210-249 | the request, or none when there is nothing to do |
| UpdateBpts.CountSkipped | src/dbg/rpc_debmod.cpp:210-215 | counts the entries that are not sent |
| UpdateBpts.PackAdds | src/dbg/rpc_debmod.cpp:226-237 | packs the live additions relative to one another |
| UpdateBpts.PackDels | src/dbg/rpc_debmod.cpp:239-249 | packs the deletions |
| UpdateBpts.UnpackEntries | src/dbg/dbg_rpc_handler.cpp:299-327 | the server's loops read entries relative to one another |
| UpdateBpts.PackReplies | src/dbg/dbg_rpc_handler.cpp:345-362 | packs codes, and original bytes for software breakpoints with code 0 |
| UpdateBpts.RpcUpdateBpts | src/dbg/dbg_rpc_handler.cpp:286-367 | the server asks its module about exactly the entries it has read, and refuses wrong counts |
| UpdateBpts.Scatter | src/dbg/rpc_debmod.cpp:260-277 | writes the answers over the caller's array |
| UpdateBpts.DbgUpdateBpts | src/dbg/rpc_debmod.cpp:203-282 | the whole update through the connection asks the module about exactly the additions in order and all deletions and puts its answers into these entries, if and only if all original bytes of the deletions and of the answers fit; then, entry by entry, which code and which original bytes each one has |
| AppcallStack.LayoutWraps | src/dbg/debmod.cpp:550-579 | the 64-bit layout is the mathematical one up to one wrap-around |
| AppcallStack.TestIsExact | src/dbg/debmod.cpp:579-584 | the underflow test passes exactly when the image does not reach below address zero |
| AppcallStack.ImageFits | src/dbg/debmod.cpp:530-599 | when the test passes the arguments are 16-byte aligned and padded with zeros to the least whole number of stack units, at whose end the control address is; a stack unit above it is below the usable top by less than 16 bytes, the image ends at or below that top, and return address, arguments and stop code are where they belong, for PC and for ARM |
| AppcallStack.BuildImage | src/dbg/debmod.cpp:573-593 | the bytes written and their address, for PC with the code to stop at, for ARM without the return address |
| AppcallStack.RedZoneKept | src/dbg/pc_debmod.cpp:189-197 | on 64-bit PC targets the image misses the 128 bytes below the stack pointer (section 3.2.2 of the System V AMD64 ABI) |
| AppcallStack.ReturnAddressReadsBack | src/dbg/debmod.cpp:573-574 | on PC the slot at the stack pointer reads as the control address, where the code to stop at is, if and only if that address fits the slot, which in 8 bytes it always does |
| AppcallStack.SlotHolds | src/dbg/debmod.cpp:573-574 | a slot of n bytes holds an address up to multiples of 256^n |
| AppcallStack.NestedDescend | src/dbg/debmod.cpp:645-652 | images of nested calls lie below one another without overlap |
| Appcalls.NeverEmpty | src/dbg/debmod.cpp:865-867 | over any run no thread is left with an empty stack |
| Appcalls.OtherThreadsUntouched | src/dbg/debmod.cpp:503 | calls and cleanups of other threads leave a thread's stack alone |
| Appcalls.NestingKeepsContexts | src/dbg/debmod.cpp:841-869 | while calls nest above it a context is neither lost nor changed, up to a trap flag that a failed cleanup clears |
| Appcalls.UnwindRestores | src/dbg/debmod.cpp:841-869 | the cleanup that takes a call's context off, after any run above it, restores the stack as it was and each register to its value at the call, but for bit 8 of the flags register of a PC, which is cleared |
| Appcalls.FailedCallLeavesNoTrace | src/dbg/debmod.cpp:826-832 | a failed call whose cleanup succeeds leaves all stacks as they were and each register with its value, but for bit 8 of the flags register of a PC |
| Appcalls.RestoredRegisters | src/dbg/pc_debmod.cpp:253-264 | preparing the saved registers clears bit 8 of the flags register of a PC and nothing else |
| Appcalls.CleanupRestores | src/dbg/debmod.cpp:841-869 | a cleanup that succeeds takes the newest context off and gives each register of the thread its saved value, but for that bit |
| Appcalls.CleanupFails | src/dbg/debmod.cpp:855-863 | a cleanup that fails leaves the stack as deep as it was and changes only that bit of the newest context |
| AppcallModule.LastArgumentWins | src/dbg/debmod.cpp:604-641 | a register gets the value of the last argument for it, relocated by the argument address on demand |
| AppcallModule.RegistersOfCall | src/dbg/debmod.cpp:604-652 | register by register, what the function is entered with: stack pointer at the image, program counter at the function, the last argument for each register, on ARM the control address in the link register, and all others unchanged |
| AppcallModule.ResultIsArguments | src/dbg/debmod.cpp:676-835 | the address returned is at a 16-byte boundary where the image has the arguments, and all ones after an exit |
| AppcallModule.CallSucceedsExactly | src/dbg/debmod.cpp:503-824 | a call succeeds exactly when no check fails and, if it is not manual, the process goes on and the call returns its results or exits in time |
| AppcallModule.NestedManualCalls | src/dbg/debmod.cpp:645-673 | manual calls nested in one another write images that descend from the first stack pointer and do not overlap |
| AppcallModule.SuccessfulCallFits | src/dbg/debmod.cpp:530-673 | a prepared call is entered with the stack pointer at its image, the arguments aligned and in place below the old top, and the return address in the slot or the link register |
| AppcallModule.DebuggerModule.constructor | src/dbg/debmod.h:481-490 | a new module has saved no context |
| AppcallModule.DebuggerModule.CopyArguments | src/dbg/debmod.cpp:604-643 | collects the argument registers and refuses the stack pointer and the program counter |
| AppcallModule.DebuggerModule.WriteRegisters | src/dbg/debmod.cpp:654-669 | writes registers until one fails; they count as changed exactly when one was written |
| AppcallModule.DebuggerModule.Prepare | src/dbg/debmod.cpp:507-669 | the first failing check decides the error; without one the context and the registers are those of the laid out call |
| AppcallModule.DebuggerModule.Attempt | src/dbg/debmod.cpp:503-824 | a whole call up to its own cleanup |
| AppcallModule.DebuggerModule.Appcall | src/dbg/debmod.cpp:452-835 | every call pushes one context; without an error it has the registers found by the call, the start of the image and the control address, the thread has it on top of its old stack, all other stacks are unchanged, the address returned is at a 16-byte boundary and the image written has the arguments there, and a manual call leaves stack pointer, program counter and relocated arguments in place; a failed call reports BADADDR, and if its context can be restored all stacks are as before and each register has its old value, but for bit 8 of the flags register of a PC; after an exit the context stays |
| AppcallModule.DebuggerModule.CleanupAppcall | src/dbg/debmod.cpp:841-869 | takes the newest context off and gives each register its saved value, but for bit 8 of the flags register of a PC, exactly when the registers can be written; otherwise only that bit of the context changes; a step of the state machine either way |
| AppcallModule.DebuggerModule.TakeOff | src/dbg/debmod.cpp:841-869 | the work of the cleanup is a step of the state machine |
| PageBpts.FindIsSound | src/dbg/debmod.cpp:1173-1189 | what the lookup returns has a byte of the range asked for |
| PageBpts.FindIsComplete | src/dbg/debmod.cpp:1173-1189 | one lower bound and one step back find an entry exactly when a scan of all entries would |
| PageBpts.FindExactlyBelowTop | src/dbg/debmod.cpp:1177-1178 | that holds for all maps exactly when the range does not end at the top of the address space |
| PageBpts.OverlapMeans | src/include/pro.h:1510-1518 | the 64-bit overlap test is true exactly when the intervals share an address |
| PageBpts.InsertKeeps | src/dbg/win32/winbase_debmod.cpp:211-266 | a breakpoint that the lookup lets through keeps the map ordered, whole-paged and free of overlaps |
| PageBpts.NewEntryDescribes | src/dbg/win32/winbase_debmod.cpp:258-265 | the new entry has the address, length and type asked for, and the fewest whole pages that cover the range |
| PageBpts.AddAtTop | src/dbg/win32/winbase_debmod.cpp:211-266 | an addition whose range ends at the top keeps the map well formed if and only if no entry begins above its first page, and overwrites the entry that begins at it, if there is one |
| PageBpts.TakesPlaceExactly | src/dbg/win32/winbase_debmod.cpp:211-266 | an addition that the lookup lets through takes its place among all the others in a well formed map, for all maps, if and only if its range ends below the top |
| PageBpts.AddKeepsExactly | src/dbg/win32/winbase_debmod.cpp:211-266 | it keeps the map well formed, for all maps, if and only if its range ends below the top or begins in the last page |
| PageBpts.EraseKeeps | src/dbg/debmod.cpp:1200-1202 | so does erasing an entry |
| PageBpts.DeleteUndoesAdd | src/dbg/debmod.cpp:1192-1203 | deleting a breakpoint just added gives the map back if and only if it is not at the last address and has overwritten no other |
| PageBpts.PageBptMap.Add | src/dbg/win32/winbase_debmod.cpp:206-276 | adds exactly when the lookup finds nothing and the page can be used, which below the top is exactly when no other breakpoint has a byte of the range; the new entry has the address, length and type asked for, is marked as enabled exactly when that worked, and covers whole pages from the one of the address on; the map stays well formed exactly when the range ends below the top or no entry begins above its first page |
| PageBpts.PageBptMap.Delete | src/dbg/debmod.cpp:1192-1203 | removes exactly the entry that was asked for at this address with this type, if and only if there is one and the address is not the last one |
| PageBpts.AskedForOnce | src/dbg/debmod.cpp:1192-1203 | no two entries are for the same address, so there is only one entry to remove |
| ProbeFile.RoundHalves | src/dbg/debmod.cpp:1304-1311 | while the middle fits an int, a round keeps the size between the bounds and halves their distance |
| ProbeFile.SearchFinds | src/dbg/debmod.cpp:1304-1312 | the search then ends with the size |
| ProbeFile.HalvingsExact | src/dbg/debmod.cpp:1304-1312 | the number of rounds is the base-2 logarithm of the distance of the bounds, rounded up |
| ProbeFile.ExactUpToIntTop | src/dbg/debmod.cpp:1304-1312 | the search finds every size between its bounds exactly when the upper bound is at most 2^31 |
| ProbeFile.StageExactly | src/dbg/debmod.cpp:1294-1303 | the first loop ends after a number of doublings exactly for the sizes between the bounds that it then has |
| ProbeFile.ProbeExactUpToIntTop | src/dbg/debmod.cpp:1292-1313 | all sizes that lead to the same bounds are found if and only if the upper one is at most 2^31 |
| ProbeFile.LowFitsOrStays | src/dbg/debmod.cpp:1306-1308 | whatever the truncation does, the answer is the first lower bound or fits an int |
| ProbeFile.Stage | src/dbg/debmod.cpp:1297-1303 | the final upper bound is the first step or at most twice the size |
| ProbeFile.Widen | src/dbg/debmod.cpp:1294-1303 | the first loop doubles the upper bound until the size is below it |
| ProbeFile.Search | src/dbg/debmod.cpp:1304-1312 | the second loop finds the size in a logarithmic number of reads |
| ProbeFile.ProbeFileSize | src/dbg/debmod.cpp:1292-1313 | the answer is the size of the file whenever the final upper bound fits |
| HwBpts.FillSlot | src/dbg/pc_debmod.cpp:76-78 | setting the bits of a free slot encodes the table with that slot used |
| HwBpts.ClearSlot | src/dbg/pc_debmod.cpp:92-94 | the two masks clear the bits of one slot and no others |
| HwBpts.HwBreakpoints.AddThenDelete | src/dbg/pc_debmod.cpp:60-99 | for every address, BADADDR included, adding a breakpoint and deleting it gives the slot addresses and, if it was in step with the table, DR7 back bit for bit; from any other state if and only if the slot had no bits in it |
| HwBpts.DeleteRestoresExactly | src/dbg/pc_debmod.cpp:76-94 | setting the bits of a slot and masking it out restores a register if and only if the slot had no bits in it |
| HwBpts.FreeSlotHasNoBits | src/dbg/pc_debmod.cpp:70-78 | in step with the table DR7 has no bits of a free slot |
| HwBpts.HwBreakpoints.Clear | src/dbg/pc_debmod.cpp:92-94 | frees an entry and masks its bits out |
| HwBpts.RegisterReadsBack | src/dbg/pc_debmod.cpp:70-78 | bit by bit, DR7 has the enable bit, the type and the length of every slot (section 17.2.4 of volume 3 of the Intel software developer's manual), always bit 8 and no others |
| HwBpts.OwnBits | src/dbg/pc_debmod.cpp:70-78 | the bits of a slot in DR7 depend on this slot alone |
| HwBpts.AddKeepsEncodingExactly | src/dbg/pc_debmod.cpp:60-78 | adding keeps DR7 the encoding of the table exactly when the address is not BADADDR |
| HwBpts.HwBreakpoints.FindSlot | src/dbg/pc_debmod.cpp:47-57 | the first free slot, unless the same breakpoint comes before it, for every address |
| HwBpts.HwBreakpoints.Add | src/dbg/pc_debmod.cpp:60-83 | from any state uses the slot, if there is one, and adds its bits, each named; a register in step stays so exactly when no slot is used or the address is not BADADDR |
| HwBpts.HwBreakpoints.Fill | src/dbg/pc_debmod.cpp:65-78 | table and register change together |
| HwBpts.HwBreakpoints.Delete | src/dbg/pc_debmod.cpp:86-99 | from any state frees the first slot with the breakpoint and masks its bits out, and a register in step stays so |
| HwBpts.HwBreakpoints.Cleanup | src/dbg/pc_debmod.cpp:177-186 | from any state, also one out of step, all slots are free and DR7 has bit 8 only |

## Left out

- Sockets, timeouts, packet framing, logins, logging, heartbeats, wait boxes: input and output. Channels are reliable and ordered.
- Reading a page: a parameter says which pages can be read; a page is read as a whole. The test whether a range can be read at its begin is a parameter of the walks, and so is the user's request to break.
- The state of a matcher after a hit: no later search uses it.
- The mask value `SKIP_FF_MASK` of `bytes_match_for_bin_search`: no pattern has it. Upper case is that of the C locale.
- The choice of matcher and the flag that forbids the search in `dbg_bin_search`.
- The version of the diff parts for strings, whose reversal leaves the last place alone.
- The primitive codecs below the packets: names travel as entries with a size function, breakpoint updates as typed values. The lengths of names are not limited to `int`.
- The error text of a breakpoint update: client and server disagree about when it is sent, and it is taken to be absent. A request or reply that ends early is modelled as one that cannot be read.
- Client calls made from inside the handling of a server request, cancelled requests, and replies that report a remote failure.
- The debug event itself is an opaque value.
- The event loop of an application call: how it ends is a parameter, with the registers it leaves. Floating point and custom register formats, the written argument block, the breakpoint at the control address and the debuggee's memory are not modelled.
- AppcallStack.ImageFits: argument blocks of more than 2^63 bytes, which no memory holds, are excluded.
- AppcallModule.SuccessfulCallFits: the same argument blocks are excluded.
- AppcallModule.DebuggerModule.WriteRegisters: a register write that fails is taken to change nothing.
- Page protections: whether a breakpoint can be enabled is a parameter. The page size is any divisor of the address space, the same for the base of a page and for aligned lengths. Aligned lengths that do not fit an `int` are not modelled.
- ProbeFile.ProbeFileSize: it needs an upper bound of at most 2^31, the exact condition of `ProbeFile.ProbeExactUpToIntTop`; beyond, the loop of the source need not end.
- ProbeFile.Search: the same upper bound.
- HwBpts.HwBreakpoints.Add: the types are those of hardware breakpoints. Two slots may hold the same breakpoint, as the source allows. Writing the debug registers of the threads is a parameter.
- The ARM hardware breakpoints, exceptions, process launch, module lists and IDC conditions.
- ForwardMatcher.ForwardMatcher.Find: a search without success of a range that reaches into the last page of the address space is excluded, since its loop need not end (`ForwardMatcher.LoopNeverFails`).
- ForwardMatcher.BinarySearch: the same searches are excluded; `ForwardMatcher.ForwardRightExactly` covers them.
- WalkRanges.WalkForward: a walk that makes such a search is excluded.
- WalkRanges.WalkOnForward: a walk that makes such a search is excluded.
- WalkRanges.SearchForward: such a search is excluded.
- WalkSoundness.ForwardWalkSoundExactly: the matcher is fresh, as in the source. It speaks of the search function, also for pieces in the last page of the address space.
- WalkRuns.BackwardWalkComplete: blocks that end in the last page of the address space are excluded, since the backward search does not look at them (`BackwardSearch.RightExactlyBelowTopPage`).
- UpdateBpts.ReadDelBack: values on the connection carry their kind, so that bytes that are read as something else are refused. The source reads on with wrong values.
- UpdateBpts.RequestTransparent: the same.
- UpdateBpts.RpcUpdateBpts: the same; a request that ends early is refused, too.
- UpdateBpts.DbgUpdateBpts: for the same reason "not ok" for a request that does not fit belongs to the model; that the answers do not land as they should does not.
- AppcallModule.DebuggerModule.CopyArguments: floating point and custom formats of register values are missing.
