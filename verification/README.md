# Verified models of the FastRPC driver, the civil calendar and the thread pool

This project models three parts of the repository in Dafny and proves what they are for.

**FastRPC driver** (`android/adsprpc.c`). An invocation carries a list of user buffers that may
overlap in any way. The driver sorts and sweeps them into merged intervals, sizes one packed
kernel buffer, fills it in a second pass, publishes page descriptors and later copies the
outputs back.

- `Overlap` is the sweep, over arrays; `OverlapUnion` says what it computes.
- `Packing` is the layout of the two passes and `PackedWords` its reading in machine words;
  `Marshal` is their code over a byte array and a user memory that can fault, `CopyBack` the
  copying of the outputs; `Pages` is the page arithmetic.
- `Invoke` is the life of invocation contexts over all files as a step system: every spinlock
  section and every response handler is one step, so all interleavings are covered. `CtxId` is
  the bit layout of ids, `InvokeSteps` shows that every step keeps the invariant, `InvokeRuns`
  what follows for whole runs, `InvokeWakes` what completes a context, `InvokeReturns` that
  whoever must be woken can be, `InvokeLate` has one run of note, `InvokeDriver` the routines
  themselves over the mutable driver state.
- `MapRefs` and `FileMaps` are the reference counts of buffer mappings; `Buffers` and
  `FileBufs` are the DMA buffers, their cache and the teardown of a file. `Lists` is the
  kernel's hlist. `Basics` has the machine word and what else several models share.

**Civil calendar** (`android/cpp/src/date.h`). `Calendar` has the closed-form day count with
C++ division written out, its inverse, and the plain calendar of leap years and month lengths.
`ShortYear` adds the 16-bit year, `Weekdays` the weekday with its unsigned wrap, `NthWeekday`
dates such as "second Tuesday", `IsoWeek` the week-number formatting and parsing formulas.
`ScanKeyword` is the streaming keyword matcher.

**Thread pool** (`android/cpp/src/ctpl.h`). `ThreadPool` is a step system over workers,
pushers and the one thread that stops or resizes the pool, with the queue's mutex and the
condition variable's mutex apart as in the source. `ThreadPoolInv` and `ThreadPoolTasks` keep
its invariants, `ThreadPoolRuns`, `ThreadPoolRest`, `ThreadPoolEnds` and `ThreadPoolStop` have the
theorems, `Pool` the classes.

`dafny verify dfyconfig.toml` checks everything.

Where a law fails, the model keeps the code as it is, shows an input, and says exactly when the
law holds:

- Packing preserves aliasing in the addresses it publishes if and only if every two copied
  buffers keep their distance modulo a word or are apart in user memory and on the circle of words
  (`PackedWords.AliasingIff`).
  Two things break this.
  - In the layout's own positions (`Packing.AliasingIffFaithful`), a copied buffer that starts
    inside a mapped one can (`Packing.StraddlingAliases`). One that joins no copied buffer leaves
    aliasing and the metadata intact only inside alignment padding, hence only if it is shorter
    than BALIGN (`Packing.SurvivesInPadding`, `Packing.PaddingIsFaithful`). So where copied buffers
    reach beyond the mapped one it comes down to joining (`Packing.FaithfulIffAllJoin`); that no
    copied buffer starts inside a mapped one is enough (`Packing.NoStraddleJoins`).
  - A layout larger than a word can, too (`PackedWords.WrappedAliasing`), and gets through both
    passes (`Marshal.WrappedAliasingGetsThrough`). Aliasing that is right in the layout's own
    positions survives the wrap if and only if no copied range meets another one word higher
    (`PackedWords.WordFaithfulIffNoneMeets`), as when what follows the metadata is no larger than
    a word (`PackedWords.SmallIsWordFaithful`).
- The sums of the two passes wrap. For a layout off the metadata, packed ranges are in bounds if
  and only if the true total is a machine word (`PackedWords.InBoundsIffNoWrap`). A layout whose
  copied follow-on entries all join is one (`PackedWords.JoiningInBoundsIffNoWrap`); without that
  a small layout can run into the metadata (`PackedWords.MetadataOverrun`). Neither `copylen >= 0`
  nor `rlen >= mlen` tells: a larger layout can get through (`Marshal.WrappedTotalGetsThrough`).
- `year` is a `short`: `from_days` yields an ok date of the same day exactly for the days of
  the years -32767 to 32767 (`ShortYear.RoundTripIffInRange`).
- A response to a freed context reaches a newer context exactly when that one holds the same
  slot, lies in the same 4096-byte page and still has its id (`InvokeRuns.LateResponse`), and a run gets
  there (`InvokeLate.LateResponseHits`).
- A buffer stored into a field that holds one already, as by a second CREATE on one file, orphans
  the first (`Buffers.SecondCreateOrphans`): over every run each buffer has exactly one owner if
  and only if no store went into an occupied field (`Buffers.RunOwnedIff`). Closing the file then
  leaves exactly the orphans and what contexts off its lists hold (`FileBufs.Bufs.FileFree`).
- The search for a mapping takes its sums modulo a word. For arguments that do not wrap it finds a
  map of the descriptor that has every address of the argument, if and only if there is one that
  ends below the top of the address space (`MapRefs.SearchMissesNone`); one that ends there or
  beyond is never shared (`MapRefs.TopMapIsMissed`).
- `scan_keyword` does not back up: a keyword that begins the input is read exactly when no
  keyword begins with one character more of it (`ScanKeyword.KeywordReadIff`), so a longer near
  miss hides it (`ScanKeyword.NearMissLoses`).
- `stop(true)` runs every task pushed before it if and only if it does not come with tasks queued
  and every worker between its failed pop and its read of `isDone`
  (`ThreadPoolStop.GracefulStopIff`). Only a pool of one worker, or of none, can be caught there
  (`ThreadPoolStop.GracefulStopRunsAll`, `ThreadPoolStop.PushUnderWayIsLost`), although the comment
  on `stop` promises that all the functions in the queue are run.

## Model

| member | source | states |
|---|---|---|
| Overlap.OverCmpIsTotalPreorder | android/adsprpc.c:1108-1118 | the comparison handed to sort() is a total preorder, lowest start first and among equal starts highest end first |
| Overlap.FillOverlaps | android/adsprpc.c:1129-1139 | fails exactly when some non-empty buffer wraps the address space, else every entry has its buffer's interval and index |
| Overlap.SweepEntry | android/adsprpc.c:1144-1160 | one entry gets the part of it beyond everything before, the running maximum is the greater end, no other entry changes |
| Overlap.SweepOverlaps | android/adsprpc.c:1141-1161 | after the loop every entry, in sorted order, has been swept against the greatest end before it |
| Overlap.BuildOverlap | android/adsprpc.c:1120-1164 | fails exactly on a wrapping buffer; else the pointers are a permutation that lists every buffer once, sorted and swept, and every end is a machine word |
| OverlapUnion.MaxEndIsGreatest | android/adsprpc.c:1141-1161 | the running maximum is the greatest end so far, and some entry attains it |
| OverlapUnion.MergedDisjoint | android/adsprpc.c:1141-1161 | merged intervals of different entries share no address |
| OverlapUnion.MergedIsUnion | android/adsprpc.c:1141-1161 | an address is in a merged interval if and only if it is in a user buffer |
| OverlapUnion.SweepComputesUnion | android/adsprpc.c:1120-1164 | the merged intervals are disjoint, cover exactly the user's bytes, their lengths add up to the number of those bytes, and offset is 0 exactly for entries that start at or beyond the maximum end |
| Packing.PackedIsShifted | android/adsprpc.c:1642-1677 | within a cluster packed address minus user address is one constant |
| Packing.SameShiftOrApart | android/adsprpc.c:1642-1677 | two copied entries have the same shift or are disjoint in user memory and in the packed buffer, in the same order |
| Packing.AliasingIffFaithful | android/adsprpc.c:1642-1664 | in the layout's own unbounded positions, packing preserves aliasing exactly if and only if every two copied entries have one shift or are disjoint both in user memory and packed |
| PackedWords.AliasingIff | android/adsprpc.c:1642-1664 | two bytes of copied buffers share a published machine address exactly when they share a user address, for all of them, if and only if every two copied entries keep their distance modulo a word or are apart in user memory and modulo a word |
| PackedWords.AliasingPreserved | android/adsprpc.c:1642-1664 | one direction, for two given bytes |
| PackedWords.WordFaithfulIffNoneMeets | android/adsprpc.c:1642-1664 | for a layout that is faithful in unbounded positions and off the metadata, with at most 510 arguments, that condition holds if and only if no copied range meets another one word higher |
| PackedWords.SmallIsWordFaithful | android/adsprpc.c:1538-1559 | so it does when what follows the metadata is no larger than a word, whatever the number of arguments |
| PackedWords.FitsIff | android/adsprpc.c:1538-1559 | a layout off the metadata is faithful with a true total below a word if and only if its machine addresses are in bounds and preserve aliasing |
| PackedWords.WrappedAliasing | android/adsprpc.c:1538-1559 | four outputs that all join, for which no check of either pass fails, with user bytes 0 and 2^64 - 255 published at one address |
| Packing.FaithfulIffAllJoin | android/adsprpc.c:1543-1546 | where every copied follow-on entry reaches the greatest earlier end, aliasing is preserved and the metadata is spared if and only if every such entry joins a copied one |
| Packing.SurvivesInPadding | android/adsprpc.c:1650-1664 | a copied entry that does not join keeps aliasing and spares the metadata only inside alignment padding before an earlier entry, hence is shorter than BALIGN and ends before the greatest earlier end |
| Packing.PaddingIsFaithful | android/adsprpc.c:1650-1664 | there is such a job: its last buffer does not join and lands in alignment padding, with aliasing and metadata intact |
| PackedWords.PlacedInBounds | android/adsprpc.c:1537-1559 | in a buffer that holds a fitting layout, every copied buffer lies between the metadata and the computed size, at a plain address |
| PackedWords.InBoundsIffNoWrap | android/adsprpc.c:1538-1559 | with the sums taken in machine words, all packed ranges of a layout off the metadata lie between the metadata and the computed total if and only if the true total is a machine word |
| PackedWords.JoiningInBoundsIffNoWrap | android/adsprpc.c:1538-1559 | the same equivalence for every job whose copied follow-on entries all join |
| PackedWords.MetadataOverrun | android/adsprpc.c:1543-1546 | a mapped and a copied buffer whose layout has 474 bytes in all and packs the copied one at 454, inside the metadata |
| PackedWords.NeverShort | android/adsprpc.c:1641-1660 | when the true total is a machine word the check rlen >= mlen never fails |
| PackedWords.WrappedTotal | android/adsprpc.c:1538-1559 | two outputs for which no check of either pass fails, the total wraps to 511, and the first is packed at 512 |
| Packing.LayoutRightIffAllJoin | android/adsprpc.c:1538-1559 | clusters move as blocks, in address order and in bounds, if and only if every copied follow-on entry joins a copied one |
| Packing.NoStraddleJoins | android/adsprpc.c:1543-1546 | it is enough that no copied buffer starts inside a mapped one |
| Packing.StraddlingAliases | android/adsprpc.c:1649-1664 | three buffers, one of them mapped, for which two copied buffers of different addresses are packed at one place |
| Pages.DescriptorIsLeast | android/adsprpc.c:161-179 | for a range that does not wrap, the descriptor computed in machine words is the least cover: page aligned, covering the argument's physical bytes, and inside every page-aligned range that covers them |
| Pages.NoPageToSpare | android/adsprpc.c:1663-1669 | dropping the first or the last page of the descriptor loses a byte |
| Pages.PageRangeRoundsUp | android/adsprpc.c:181-186 | buf_page_size is a whole number of pages, at least one, never more than the size needs, and holds the size if and only if that fits the 32-bit parameter |
| Marshal.UserSpace.CopyFrom | android/adsprpc.c:1166-1174 | copies from user memory exactly when every byte is accessible, touching nothing but the destination range |
| Marshal.UserSpace.CopyTo | android/adsprpc.c:1176-1183 | copies to user memory exactly when every byte is accessible, touching nothing but the destination range |
| Marshal.SizeArgs | android/adsprpc.c:1537-1559 | fails exactly when some packed interval is longer than LONG_MAX, else returns the size of the layout modulo a word |
| Marshal.InitArgs | android/adsprpc.c:1588-1596 | every argument is first published with its length and the user's address, 0 if it is empty |
| Marshal.AlignEntry | android/adsprpc.c:1653-1656 | the alignment step moves args and rlen, both machine words, in step with the layout |
| Marshal.PublishEntry | android/adsprpc.c:1657-1669 | fails exactly when what is left in machine words is less than the entry's length; else the entry's address and page descriptor are those of the layout, modulo a word, and no other argument changes |
| Marshal.CopyEntryIn | android/adsprpc.c:1670-1675 | fails exactly on unreadable user memory, stops exactly at a range outside the buffer; when the layout fits, a copy keeps the images of all earlier, overlapping entries |
| Marshal.FillPacked | android/adsprpc.c:1646-1675 | one round for a packed entry in machine words: exact stop conditions, the entry published and, when the layout fits, imaged, what was done for earlier entries kept |
| Marshal.FillEntry | android/adsprpc.c:1643-1677 | the same for any entry, with args and rlen moved on to the next one |
| Marshal.FillArgs | android/adsprpc.c:1639-1679 | ends without error exactly when no entry is short, outside or unreadable; then rlen is 0 and every entry is published per the layout, and when the layout fits every input's packed image equals the user's bytes and metadata is untouched |
| Marshal.PackArgs | android/adsprpc.c:1537-1679 | the two passes together, in machine words, for every job: exactly when they succeed, fail or reach outside the buffer; on success every copied argument is at its packed address with its descriptor and every other one has its length and the user's address, 0 if it is empty; a layout that fits never reaches outside, fails only on unreadable memory, length or allocation, mirrors every input byte, and gives every copied argument the least page cover of its physical image |
| Marshal.PagesAreLeast | android/adsprpc.c:1663-1669 | in a buffer that holds a fitting layout, the descriptor published for a copied argument is the least cover of its physical image |
| Marshal.WrappedTotalGetsThrough | android/adsprpc.c:1537-1679 | for two outputs whose layout exceeds a word both passes succeed with a buffer of 511 bytes and the first is published at byte 512 |
| Marshal.WrappedAliasingGetsThrough | android/adsprpc.c:1537-1679 | both passes also succeed for the four outputs, with a buffer of 700 bytes, although the published addresses do not preserve aliasing |
| CopyBack.PutArgs | android/adsprpc.c:1750-1757 | for every job: exactly when the loop succeeds, meets unwritable memory or a range outside the buffer; when the layout fits, every unmapped output equals its packed image and no other user byte changes |
| CopyBack.MirrorKept | android/adsprpc.c:1750-1757 | copying one output back rewrites bytes shared with another with the same values |
| CopyBack.CopyBackIsDetermined | android/adsprpc.c:1750-1757 | what a copy-back must achieve determines user memory |
| CopyBack.AnyOrderCopiesBack | android/adsprpc.c:1750-1757 | copying the unmapped outputs in any order, however often each, gives the user memory that the loop gives |
| CtxId.IdDecodes | android/adsprpc.c:1262-1262 | an id decodes to its slot with and without the domain bits, and dropping them gives the id back |
| CtxId.SlotInTable | android/adsprpc.c:1953-1954 | whatever arrives, the decoded index is below 256 |
| CtxId.IdsDiffer | android/adsprpc.c:1258-1265 | ids made for different slots differ whatever the addresses |
| CtxId.IdKeepsPage | android/adsprpc.c:1262-1262 | an id has the page of its context's address above bit 12, the slot below, and nothing of where in the page the context lies |
| CtxId.SameId | android/adsprpc.c:1262-1262 | in one slot two addresses give one id if and only if they agree above bit 12 |
| CtxId.MeansId | android/adsprpc.c:1962-1962 | what arrives means an id if and only if they agree above bit 2, and then it decodes to the id's slot |
| Invoke.FindPidIsFirst | android/adsprpc.c:1090-1101 | the scan of the interrupted list stops at the first context of the thread, and finds none only when there is none |
| InvokeSteps.LifeStep | android/adsprpc.c:1254-1327 | every step keeps lists, table, ids and phases consistent |
| InvokeSteps.EpochFrame | android/adsprpc.c:1331-1377 | steps that change no count and put nothing new in flight keep the restart invariant |
| InvokeSteps.EpochSend | android/adsprpc.c:1916-1920 | a message past the count check is sent under the count the channel has, which is its file's too |
| InvokeSteps.EpochRestart | android/adsprpc.c:4036-4052 | the count goes up by one and a completion is owed to every file on the channel |
| InvokeSteps.EpochVisit | android/adsprpc.c:1331-1377 | a visit keeps the restart invariant, and of a file on the callback's channel it leaves every context in flight with a completion |
| InvokeSteps.StepKeeps | android/adsprpc.c:1080-1391 | every step of every handler keeps the whole invariant |
| InvokeRuns.RunKeepsInv | android/adsprpc.c:1080-1391 | the invariant holds in every state of every interleaving |
| InvokeRuns.NoWaiterLost | android/adsprpc.c:1331-1377 | in every reachable state a sent, uncompleted context has a file whose count is the channel's, or a restart callback still owes it a completion; with none owed, a context sent before the last restart is awake |
| InvokeRuns.CountsRestarts | android/adsprpc.c:4036-4038 | a channel's count grows by exactly the restarts between two states |
| InvokeRuns.FinalCheckSeesRestarts | android/adsprpc.c:2192-2197 | for a file not reopened meanwhile, the comparison at the end of an invoke passes if and only if the channel has not restarted since the send |
| InvokeRuns.InUseHasOneHome | android/adsprpc.c:1254-1266 | a context between context_alloc and context_free is once on exactly one list of its own file, on no other file's, in exactly one slot, and its id decodes to that slot |
| InvokeRuns.LiveIdsDiffer | android/adsprpc.c:1254-1266 | ids of contexts in use are distinct in every reachable state |
| InvokeRuns.ResponseFindsContext | android/adsprpc.c:1953-1967 | a response tagged with a live id and a domain 0..2 finds that context |
| InvokeRuns.ResponseCompletesOne | android/adsprpc.c:1323-1327 | that response sets the context's return value and wakes it once, and changes nothing else |
| InvokeRuns.TargetCarriesId | android/adsprpc.c:2984-2998 | whatever arrives, a context that is completed carries that very id and has not been retired by context_free |
| InvokeRuns.TargetIff | android/adsprpc.c:1953-1967 | whatever arrives reaches a context if and only if that has not been retired and its id agrees with what arrives above bit 2 |
| InvokeRuns.LateResponse | android/adsprpc.c:2984-2998 | a response to an old id reaches a context if and only if it holds the same slot, its address agrees with the old one above bit 12, and it still has its id |
| InvokeLate.LateResponseHits | android/adsprpc.c:1953-1967 | a run from the start in which a context is freed before its response, the next one gets its slot and page, and the late response is then addressed to that one, sent and never answered |
| InvokeRuns.RetvalIsAnswered | android/adsprpc.c:1323-1327 | a return value other than -1 was set by a response to this very context while it lived: a completion by a restart callback is never success |
| InvokeWakes.CompletionStep | android/adsprpc.c:1323-1377 | a context's completion goes up by one at a response addressed to it and at a visit of its own file by a restart callback of that file's channel, down by one when it is consumed, and by nothing else |
| InvokeWakes.OtherChannelKept | android/adsprpc.c:1365-1374 | visiting a file on another channel changes no context, file, slot or count |
| InvokeWakes.CompletionHasCause | android/adsprpc.c:1323-1377 | in every reachable state a pending completion was made by such a response or visit within the context's life |
| InvokeWakes.UnansweredWakeHasRestart | android/adsprpc.c:4036-4052 | a context with a completion that no response gave is on a channel that has restarted before: another channel's restart wakes nobody |
| InvokeReturns.LostWaiterCanReturn | android/adsprpc.c:1331-1377 | from every reachable state in which a context waits on a message sent before its channel's last restart, steps of the restart callbacks alone, one holding the lock at a time, lead to where it can return |
| InvokeReturns.AnsweredCanReturn | android/adsprpc.c:1953-1967 | after a response to it a waiting context can return, with the response's value and as many completions as before |
| InvokeReturns.BoundCanSend | android/adsprpc.c:3571-3715 | binding a file to a channel, or opening the channel again, lets its ready contexts past the count check |
| InvokeReturns.ContextCanMove | android/adsprpc.c:1254-1327 | in every reachable state each context has a next step that depends on nobody else, but for the wait itself |
| InvokeReturns.RestoreStep | android/adsprpc.c:1080-1106 | the call restores the first interrupted context of its thread to the head of the pending list if the scalars agree, changing nothing else; otherwise nothing changes at all |
| InvokeReturns.InterruptThenRestore | android/adsprpc.c:1280-1290 | a call interrupted and restarted by its thread waits for the same message, and only its place on the pending list has changed |
| InvokeDriver.ScanFree | android/adsprpc.c:1259-1265 | the table scan finds the least free slot, or 256 when there is none |
| InvokeDriver.ScanHolder | android/adsprpc.c:1312-1317 | the scan of context_free stops at the first entry that holds the context |
| InvokeDriver.ScanPid | android/adsprpc.c:1090-1101 | the loop computes the first context of the thread |
| InvokeDriver.CompleteList | android/adsprpc.c:1336-1341 | one pass completes every context of the list once and no other |
| InvokeDriver.Driver.TakeSlot | android/adsprpc.c:1258-1266 | is the table step of the protocol; succeeds exactly below 256 |
| InvokeDriver.Driver.ClearSlot | android/adsprpc.c:1311-1320 | is the last step of context_free: the context's only entry goes |
| InvokeDriver.Driver.NotifyUsers | android/adsprpc.c:1330-1344 | the two loops complete every pending and every interrupted context once |
| InvokeDriver.Driver.RestoreInterrupted | android/adsprpc.c:1080-1106 | restores the thread's first interrupted context, moving that node and nothing else; errs exactly on other scalars, and without a context to return the driver is as it was |
| InvokeDriver.Driver.SaveInterrupted | android/adsprpc.c:1280-1287 | is the interrupt step |
| InvokeDriver.Driver.Deliver | android/adsprpc.c:1953-1967 | is the response step; errs exactly when the response has no target |
| InvokeDriver.TargetChecked | android/adsprpc.c:1953-1965 | in every consistent state the index check never decides: only an empty slot, another id or a cleared magic refuses a response |
| InvokeDriver.Driver.ContextFree | android/adsprpc.c:1298-1320 | undisturbed, leaves the driver without the context and otherwise unchanged |
| InvokeDriver.Driver.FreeUnlisted | android/adsprpc.c:1274-1276 | freeing a context that was never listed changes nothing |
| InvokeDriver.Driver.Enter | android/adsprpc.c:1248-1278 | the list and table sections, undisturbed: succeed exactly when a slot is free; then the context has the values given, the head of its file's pending list and the first free slot, with its id; on failure the driver is as it was |
| InvokeDriver.Driver.ContextAlloc | android/adsprpc.c:1206-1278 | undisturbed, succeeds exactly when nothing before the list section fails and a slot is free, with the same outcome, and on any failure leaves the driver as it was |
| InvokeDriver.FailedAllocUndone | android/adsprpc.c:1274-1276 | freeing a context that never got a slot undoes its listing |
| Lists.Del | android/adsprpc.c:1285-1285 | deletion removes the node and only it |
| Lists.DelAddHead | android/adsprpc.c:1255-1255 | inserting at the head and deleting again leaves the list as it was |
| MapRefs.CoversIff | android/adsprpc.c:658-670 | for an argument that does not wrap, the search condition holds of a map if and only if that has the argument's descriptor and all its addresses and ends below the top of the address space |
| MapRefs.SearchMissesNone | android/adsprpc.c:658-670 | for a non-empty argument that does not wrap the search finds none if and only if every listed map has another descriptor, lacks an address of the argument, or ends at or beyond the top of the address space |
| MapRefs.TopMapIsMissed | android/adsprpc.c:636-670 | a run in which an argument inside a map that ends at the top of the address space gets a map of its own |
| MapRefs.FirstCoverIsFirst | android/adsprpc.c:658-670 | the search stops at the first listed map that meets its condition, and finds none only when there is none |
| MapRefs.Shared | android/adsprpc.c:628-677 | a shared map is live, listed and has a reference left to give |
| MapRefs.AttachKeeps | android/adsprpc.c:835-846 | taking a reference, on a shared or new map or failing, keeps every count equal to the slots that point to the map |
| MapRefs.ReleaseKeeps | android/adsprpc.c:736-761 | giving a reference back keeps the counts, and the last one unlists and frees the map with no slot left on it |
| MapRefs.RunConserves | android/adsprpc.c:1481-1498 | over every interleaving of get_args, put_args and context_free each live map's count is its number of slots, it is listed, no slot points to freed memory when it is released, and a release empties just its slot |
| MapRefs.NothingLeaks | android/adsprpc.c:1301-1305 | with no slots left no map is live or listed |
| MapRefs.ReleaseExtends | android/adsprpc.c:752-757 | a context giving back its own reference cannot free a map others hold |
| MapRefs.SameSlotsSameMaps | android/adsprpc.c:1292-1303 | with the slots as before, maps, counts and listing are as before |
| FileMaps.Mappings.Find | android/adsprpc.c:628-677 | exact result and error code of the search, the reference included |
| FileMaps.Mappings.Create | android/adsprpc.c:819-990 | shares the first covering map, or, exactly when there is none to share and the kernel grants one, lists a new one with the argument's range at the head; a record whose mapping fails is freed again |
| FileMaps.Mappings.FreeRecord | android/adsprpc.c:736-761 | drops one reference; the last one unlists and frees the record |
| FileMaps.Mappings.Free | android/adsprpc.c:736-761 | is the release step |
| FileMaps.Mappings.GetArgs | android/adsprpc.c:1481-1498 | keeps the counts; every slot it fills is of an argument with a descriptor and holds a live map of that descriptor with every address of the argument, unless it wraps; an argument that a map known before can serve, or for which the kernel grants one, has its slot |
| FileMaps.SharesIfItCan | android/adsprpc.c:835-836 | while references are left to give, an argument that a listed map can serve gets such a map without a new one being made |
| FileMaps.Mappings.PutArgs | android/adsprpc.c:1750-1764 | releases exactly the mapped outputs before the first failing copy and keeps the counts |
| FileMaps.Mappings.ContextFree | android/adsprpc.c:1292-1303 | releases exactly the slots still held and keeps the counts |
| FileMaps.Mappings.Finish | android/adsprpc.c:2160-2195 | the end of a call, resumed or not and wherever it stops, leaves maps, counts and slots as they were before the call took its references |
| FileMaps.Mappings.Call | android/adsprpc.c:2123-2195 | an undisturbed call leaves maps, counts and slots as they were; one that a signal interrupts has filled its slots and keeps exactly what Finish gives back |
| Buffers.TakeCachedOrphans | android/adsprpc.c:1005-1018 | a cache hit leaves no buffer with two homes and orphans exactly what the field held before |
| Buffers.ToCacheKeeps | android/adsprpc.c:541-546 | returning a buffer to the cache keeps every buffer with exactly one owner |
| Buffers.PlaceNewNeedsRoom | android/adsprpc.c:2326-2329 | storing a new buffer keeps every buffer owned if and only if the field was empty |
| Buffers.TakeCachedNeedsRoom | android/adsprpc.c:1005-1018 | so does storing a cached one |
| Buffers.StepOrphans | android/adsprpc.c:534-610 | under every step orphans stay orphans, and only a store into an occupied field makes a new one |
| Buffers.RunOrphans | android/adsprpc.c:534-610 | over every interleaving no buffer is in two of cache, context fields, init_mem and remote list, and the live buffers in none are exactly those some store has overwritten |
| Buffers.RunOwnedIff | android/adsprpc.c:2326-2329 | each live buffer has exactly one owner if and only if no store so far went into an occupied field |
| Buffers.SecondCreateOrphans | android/adsprpc.c:2326-2329 | a run of two CREATE inits that leaves the first donated buffer without an owner |
| Buffers.OnlyOrphansLeft | android/adsprpc.c:3078-3113 | with cache and remote list empty, what is live is an orphan or held by a field, so all is released if and only if no field holds a buffer and there is no orphan |
| FileBufs.Scan | android/adsprpc.c:1008-1011 | the loop finds the smallest cached buffer that fits, the first of that size, or there is none |
| FileBufs.Bufs.BufAlloc | android/adsprpc.c:993-1077 | exact success condition in the cached sizes and the kernel's answers; a hit takes exactly the best fit; otherwise exact live buffers, a failed first attempt empties the cache, a refused buffer is released; on success exactly what the asking field held before is orphaned |
| FileBufs.Bufs.DrainCache | android/adsprpc.c:573-591 | terminates with the cache empty, exactly the cached buffers gone, each released once |
| FileBufs.Bufs.DrainRemote | android/adsprpc.c:593-610 | terminates with the remote list empty, each of its buffers released once |
| FileBufs.Bufs.FreeContexts | android/adsprpc.c:1399-1429 | freeing the contexts of a list moves their buffers to the cache |
| FileBufs.Bufs.FileFree | android/adsprpc.c:3053-3113 | whatever the state of the file, its lists and init_mem end empty; exactly the orphans and what contexts on no list hold stay live, and each other buffer is released once; so all are released if and only if there is neither |
| Calendar.LeapRule | android/cpp/src/date.h:1618-1621 | the truncating remainders give the Gregorian rule for negative years too |
| Calendar.FromToDays | android/cpp/src/date.h:2747-2762 | every valid date survives to_days and from_days |
| Calendar.ToFromDays | android/cpp/src/date.h:2861-2877 | every day number yields a valid date that counts back to it |
| Calendar.ToDaysRanges | android/cpp/src/date.h:2757-2760 | yoe is in 0..399, doy in 0..365 and doe in 0..146096 |
| Calendar.FromDaysRanges | android/cpp/src/date.h:2867-2875 | doe, yoe, doy, mp, day and month are in the ranges of the comments |
| Calendar.EpochIsZero | android/cpp/src/date.h:2761-2761 | 1970-01-01 is day 0 |
| Calendar.NextIsOneLater | android/cpp/src/date.h:2528-2539 | the next date by leap years and month lengths is valid and exactly one day later |
| Calendar.ClosedFormIsStepping | android/cpp/src/date.h:2861-2877 | from_days of n days on is the date reached by n single-day steps |
| Calendar.ToDaysMonotone | android/cpp/src/date.h:2747-2762 | among valid dates the day count is strictly monotone in the lexicographic order, in both directions |
| ShortYear.RoundTripIffInRange | android/cpp/src/date.h:2876-2876 | with the year narrowed to short, from_days is ok and counts back if and only if the day is in the years -32767 to 32767 |
| ShortYear.OkSurvives | android/cpp/src/date.h:2781-2786 | every ok date survives the trip with a short year |
| Weekdays.WeekdayCountsInSevens | android/cpp/src/date.h:1734-1738 | both branches, the wrapping one included, count in sevens from the epoch's Thursday for every 32-bit day |
| Weekdays.WeekdayAdvances | android/cpp/src/date.h:1826-1831 | the weekday of a later or earlier day is the weekday plus the distance |
| Weekdays.MinusThenPlus | android/cpp/src/date.h:1816-1821 | the difference of two weekdays is the one distance in 0..6 that addition undoes |
| NthWeekday.NthOkIffRoundTrip | android/cpp/src/date.h:3036-3066 | an n-th-weekday date, of whatever month, weekday and index, is ok if and only if it survives to_days and from_days; then all three are in range |
| NthWeekday.NthFromDaysOk | android/cpp/src/date.h:3050-3056 | from_days yields an ok value that counts back to the day |
| NthWeekday.LastWeekdayLands | android/cpp/src/date.h:3239-3243 | the last-weekday form lands in its month, on its weekday, in the final seven days |
| IsoWeek.IsoRoundTrip | android/cpp/src/date.h:7448-7452 | the week is in 1..53 and the parser rebuilds the date from the formatted year, week and weekday |
| IsoWeek.IsoMatchesStandard | android/cpp/src/date.h:5570-5579 | %G is the calendar year of the week's Thursday and %V counts that year's Thursdays |
| IsoWeek.WeekRoundTrip | android/cpp/src/date.h:5526-5534 | for any first weekday, and so for %U and %W, the date survives the trip through year, week and weekday, week 00 exactly before the first such weekday |
| ScanKeyword.InitStatuses | android/cpp/src/date.h:4712-4726 | every status and both counters agree with nothing consumed |
| ScanKeyword.TestAll | android/cpp/src/date.h:4745-4766 | one pass gives each keyword its status for the next character, keeps the counters equal to the populations, and wants the character exactly when some keyword begins with it |
| ScanKeyword.DropShorter | android/cpp/src/date.h:4776-4784 | the clearing pass leaves exactly the statuses of the longer text |
| ScanKeyword.NothingToDrop | android/cpp/src/date.h:4774-4774 | when the counters add up to at most one, skipping the clearing pass changes nothing |
| ScanKeyword.IStream.Peek | android/cpp/src/date.h:4731-4736 | looks one character ahead, notices the end, and fails a stream that is not good |
| ScanKeyword.ReadKeyword | android/cpp/src/date.h:4728-4787 | the outer loop terminates; what it consumes is the longest prefix that begins a keyword, and the matches are the keywords equal to it |
| ScanKeyword.Scan | android/cpp/src/date.h:4694-4796 | consumes the longest prefix of the input that begins a keyword, returns the first keyword equal to it ignoring case, and sets failbit and eofbit exactly when due |
| ScanKeyword.KeywordReadIff | android/cpp/src/date.h:4694-4796 | a keyword that begins the input is read if and only if no keyword begins with one character more |
| ScanKeyword.NearMissLoses | android/cpp/src/date.h:4768-4793 | an input for which a keyword that begins it is lost to a longer near miss |
| ThreadPoolInv.WakePush | android/cpp/src/ctpl.h:199-201 | a push and its notification keep the wake-up invariant although they use different mutexes |
| ThreadPoolInv.WakeWork | android/cpp/src/ctpl.h:230-257 | every worker step keeps the wake-up invariant |
| ThreadPoolInv.IdleWorker | android/cpp/src/ctpl.h:249-254 | every worker step keeps nWaiting equal to the workers inside the wait |
| ThreadPoolTasks.FifoStep | android/cpp/src/ctpl.h:44-59 | tasks taken followed by tasks queued are always the tasks pushed |
| ThreadPoolTasks.FateWork | android/cpp/src/ctpl.h:236-246 | every worker step keeps each task off the queue in one worker's hand, finished or discarded |
| ThreadPoolTasks.RousedStays | android/cpp/src/ctpl.h:250-253 | a worker told to finish and past the point of sleeping never sleeps again |
| ThreadPoolTasks.NotifyRouses | android/cpp/src/ctpl.h:176-179 | notify_all, made with the lock held, leaves no flagged worker, and after isDone no worker, asleep or about to sleep |
| ThreadPoolTasks.ControlKeeps | android/cpp/src/ctpl.h:114-189 | every step keeps what the stopping or shrinking thread has flagged, woken and joined |
| ThreadPoolTasks.ControlNeverStuck | android/cpp/src/ctpl.h:157-190 | that thread waits only for the lock and for the worker it joins |
| ThreadPoolRuns.RunKeepsInv | android/cpp/src/ctpl.h:157-257 | all invariants hold in every state of every interleaving |
| ThreadPoolRuns.NoLostWakeup | android/cpp/src/ctpl.h:199-201 | in every reachable state, if a worker sleeps and none is on its way to the queue, every queued task has a pusher that has yet to notify |
| ThreadPoolRuns.IdleBounds | android/cpp/src/ctpl.h:89-89 | n_idle counts the workers inside the wait and is between 0 and their number |
| ThreadPoolRuns.AwakeAfterStop | android/cpp/src/ctpl.h:176-179 | from a stop's notify_all on no worker sleeps, then or later |
| ThreadPoolRuns.SomeoneCanWork | android/cpp/src/ctpl.h:180-184 | while stop joins, some worker can move unless all have exited |
| ThreadPoolRuns.StopIsBounded | android/cpp/src/ctpl.h:180-184 | without pushes the workers make only boundedly many steps while stop joins |
| ThreadPoolRuns.FlaggedTakesAtMostOne | android/cpp/src/ctpl.h:241-245 | once its flag is set a worker takes at most one more task, and none if it has one in hand |
| ThreadPoolRuns.TaskIsSomewhere | android/cpp/src/ctpl.h:44-59 | a pushed task is queued or has one fate, never both; it is in hand exactly of the worker that carries it; tasks leave in push order |
| ThreadPoolRuns.RunsAtMostOnce | android/cpp/src/ctpl.h:236-246 | no task is handed to a worker twice |
| ThreadPoolRest.QuitsOnlyWhenTold | android/cpp/src/ctpl.h:230-257 | in every reachable state a worker that has left its loop was flagged, or the pool was told to finish |
| ThreadPoolRest.WaitsOnlyOnEmpty | android/cpp/src/ctpl.h:234-250 | a worker between tasks goes to wait if and only if the queue is empty; else it takes the oldest task without the lock |
| ThreadPoolRest.SettlingIsBounded | android/cpp/src/ctpl.h:199-257 | left alone, with workers' steps and notifications still owed only, a pool makes at most a computed number of steps, whatever their order |
| ThreadPoolRest.RestIsDone | android/cpp/src/ctpl.h:199-257 | when no such step is possible, a pool that was not stopped, with a worker that was not told to finish, has run every task that was pushed |
| ThreadPoolRest.LeftAloneRunsAll | android/cpp/src/ctpl.h:199-257 | from every reachable state of such a pool those steps alone lead to where every task pushed is finished |
| ThreadPoolEnds.CallReturns | android/cpp/src/ctpl.h:112-190 | from every reachable state in the middle of a stop or a shrink, steps of that call and of the workers alone lead to its end |
| ThreadPoolEnds.StopOutcome | android/cpp/src/ctpl.h:157-190 | over every interleaving, when a stop of either kind ends, the pool is marked, its threads have exited and are dropped, the queue is empty, and no task is in their hands |
| ThreadPoolEnds.StopReturnsAtOnce | android/cpp/src/ctpl.h:159-170 | a stop changes nothing if and only if the pool was stopped by stop(false), or by stop(true) and is asked for that again |
| ThreadPoolEnds.ShrinkOutcome | android/cpp/src/ctpl.h:112-128 | over every interleaving, when a shrink to n ends, the pool has its first n threads, no flag but those of the others has changed, and each of the others is flagged and not asleep |
| ThreadPoolStop.GracefulStopIff | android/cpp/src/ctpl.h:157-190 | when stop(true) has joined or returned, every task pushed before it is finished if and only if it did not come with tasks queued and every worker between its failed pop and its read of isDone |
| ThreadPoolStop.GracefulStopRunsAll | android/cpp/src/ctpl.h:157-190 | so two workers are enough, and one is when no push is under way: every task ever pushed is finished and the queue is empty |
| ThreadPoolStop.PushUnderWayIsLost | android/cpp/src/ctpl.h:250-256 | a run in which the only worker is in that gap and a task pushed before stop(true) is discarded |
| Pool.Queue.Push | android/cpp/src/ctpl.h:44-49 | appends the element |
| Pool.Queue.Pop | android/cpp/src/ctpl.h:51-59 | takes the front element, or leaves an empty queue alone |
| Pool.Pool.ClearQueue | android/cpp/src/ctpl.h:133-138 | follows the steps of the protocol; the queue ends empty and each task that was in it is discarded |
| Pool.Pool.CommandAll | android/cpp/src/ctpl.h:164-167 | flags exactly the pool's threads |
| Pool.Pool.StopMark | android/cpp/src/ctpl.h:159-175 | follows the steps up to notify_all: returns early exactly when already stopping, and stop(false) has emptied the queue |
| Pool.Pool.StopBegin | android/cpp/src/ctpl.h:157-179 | follows the steps up to the joins: returns early exactly when already stopping, else nobody sleeps and stop(false) has emptied the queue |
| Pool.Pool.StopEnd | android/cpp/src/ctpl.h:185-189 | follows the steps after the joins: nothing queued, no threads |
| Pool.Pool.Push | android/cpp/src/ctpl.h:208-217 | follows the push step and then the notify step |
| Pool.Pool.GrowTo | android/cpp/src/ctpl.h:101-111 | adds unflagged workers up to the size, leaving the others alone |
| Pool.Pool.ShrinkTo | android/cpp/src/ctpl.h:112-128 | keeps the first n threads, flags exactly the others and then wakes every sleeper |
| Pool.Pool.CommandToZero | android/cpp/src/ctpl.h:114-118 | counting down to 0 flags every thread and then goes on with an index out of range |
| Pool.Pool.Resize | android/cpp/src/ctpl.h:95-130 | reaches the size asked for, changes nothing once the pool is stopping, and indexes out of range exactly when a running pool with threads is asked for none |
| Pool.AfterIsRun | android/cpp/src/ctpl.h:75-80 | from a new pool, the steps of the methods form a run, so the theorems about runs apply to it |

## Left out

- PackedWords.WordFaithfulIffNoneMeets: takes at most 510 arguments, as two counts of eight bits give; their encoding is in headers that are not part of this model.
- Marshal.PackArgs: a copy whose kernel side is outside the buffer ends the pass with the outcome Outside; what the driver does from there is not modelled. Neither are DMA-handle arguments, the page entries of mapped arguments (offsets into a VMA), the fdlist and crclist words, the cache flushes, and a total that wraps to 0, for which no buffer is allocated.
- CopyBack.PutArgs: the CRC copy and the fdlist releases after the output loop are not modelled.
- PackedWords.InBoundsIffNoWrap: is stated for layouts off the metadata, as PackedWords.MetadataOverrun shows it must be, and takes the metadata to be at least one byte, as it is whenever there is an argument.
- Overlap.SortPtrs: the kernel's sort() is not part of this model; the body is a stand-in and callers rely on its contract alone.
- Pages.DescriptorIsLeast: the range must not wrap the address space, as a range inside a kernel buffer does not.
- The sizes of the metadata (inbufs, outbufs, metalen) come from headers that are not part of this model and are parameters.
- InvokeRuns.NoWaiterLost: is about the glink path; the SMD path has no count check. The 32-bit wrap of ssrcount, the closing of a file during a call, and the protection-domain restart variant that completes only messages with a pid are not modelled.
- InvokeDriver.Driver.ContextAlloc: without interleaving here, with interleaving in Invoke; what can fail before the list section is one outcome each for no memory and for a failed copy or sweep.
- InvokeDriver.Driver.TakeSlot: the context table is a map from slot to context rather than an array of pointers, and contexts are named records rather than heap objects.
- Marking a completion on a context whose memory another thread has just freed is not modelled: a response handler is one step.
- MapRefs.RunConserves: covers buffer arguments; DMA handles, KEEP_MAP attributes, fdlist releases, explicit munmap, remote-heap maps and the forced release at file close are left out, since their references are given up elsewhere.
- FileMaps.Mappings.Create: the device's steps between the allocation of the record and its listing succeed or fail as one.
- FileBufs.Bufs.BufAlloc: addresses, DMA attributes and the hypervisor call are outcomes given as parameters; the address of a record is new among the live ones.
- FileBufs.Bufs.FileFree: a file without a session keeps its buffers in the source and is not covered.
- ShortYear.RoundTripIffInRange: overflow of the 32-bit intermediate values far outside that range is not modelled.
- Calendar.ToDaysMonotone: is stated for valid dates; to_days of invalid dates is only its formula.
- Weekdays.WeekdayCountsInSevens: covers day numbers that fit a 32-bit int, as the function's parameter does.
- NthWeekday.NthOkIffRoundTrip: covers dates whose day numbers fit a 32-bit int; years are not narrowed to short.
- IsoWeek.IsoRoundTrip: covers days whose neighbouring years fit a 32-bit int; years are not narrowed to short; the parser's cross-checks of fields given twice, two-digit years and locale alternatives are left out.
- ScanKeyword.Scan: characters are mapped by the C locale's toupper; allocation failure for more than 100 keywords is not modelled.
- ThreadPoolStop.GracefulStopIff: nothing was stopped or shrunk before, and no push comes after the stop; the user's functions return.
- Pool.Pool.Resize: what happens after an index out of range is not modelled.
- Pool.Pool: each method is followed without interleaving, the joins of stop are the step system's, and the workers' loop, being concurrent with everything, is a step system only. The public pop() is the queue step of clear_queue with the task handed to the caller; futures and exceptions of tasks are left out.
- Two threads inside stop or resize at once are left out, as the comment on resize asks of callers.
- Session sharing, channel open and close beyond the count, power management, debugfs, timing and logging.
- The locale-dependent parts of date.h, durations finer than a day, and operator boilerplate.
- The log-reading tools, scripts and headers elsewhere in the repository.
