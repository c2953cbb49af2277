# Verified models of the NeoSurf frontends

NeoSurf is a small web browser with a GTK frontend (`frontends/gtk`) and a keyboard-driven
Wayland frontend called visurf (`frontends/visurf`). This project models the algorithms inside
the two frontends in Dafny and proves what they promise. Widgets, drawing, key names, clocks,
timers and random numbers are inputs of the models.

| part | files |
|---|---|
| follow hints: collect the links of a page, label them with a prefix code, follow one by typing | `Numerals`, `HintLabels`, `HintOptimality`, `FollowHints`, `FollowState` |
| key bindings: the sorted table and the key-sequence matcher | `BindingTable`, `KeyBindings`, `BindingState` |
| two schedulers with one abstract meaning, and the main loop's dispatch and poll timeout | `TimerTable`, `GtkSchedule`, `GtkMeaning`, `GtkScheduler`, `Timespecs`, `VisurfSchedule`, `VisurfScheduler` |
| toolbar customisation: drops, reading and writing the option string | `Toolbar`, `ToolbarOptions`, `ToolbarSave` |
| tiled bitmap printing | `PrintTiles` |
| pixel conversion cycles | `Pixels`, `PixelBuffer` |
| option scanner | `Getopt` |
| shared lemmas | `Common`, `Arithmetic` |

Code that changes state is modelled by classes, arrays and loops, each tied to a specification
function on values; the properties over whole runs are lemmas about those functions.

Where the code and its own words differ, the model follows the code:

- Writing the toolbar back (`toolbar.c:637-704`) sizes the buffer without room for the NUL behind
  the last name. A toolbar without gaps is therefore never saved; saving goes through exactly when
  some active item is not reached from location 0. If no item has location 0, as after an option
  that names its first item again, the stored buffer has not been written at all
  (`ToolbarSaves.Save`, `ToolbarSaves.FirstNamedAgain`).
- An item named twice in the toolbar option leaves a free location, and filling stops there
  (`ToolbarOptions.PlacedToolbar` says exactly when).
- The comment above `apply_user_button_customisation` describes an `item;location|` format; the
  code reads names separated by `/`.
- With one tiling direction switched off, the one row or column of tiles starts at the given
  position exactly when that is not beyond the clip edge (`PrintTiles.StartInStep`), and
  `PrintTiles.OneTileWhereMeant` says exactly when the pixels painted are those meant.
- Premultiplied colours fade: a channel c under alpha t survives reading back and converting again
  exactly when t is 0, c is t, or 256 c / t is not below the remainder it leaves; any other channel
  becomes one lower in every cycle until it meets a value that survives (`Pixels.CycleKeeps`,
  `Pixels.RunExact`, `Pixels.KeptForEver`).
- The poll timeout is stored in an int. It never oversleeps; it is less than a millisecond short
  exactly when the distance in milliseconds fits an int (`Timespecs.PollTimeout`).
- The visurf dispatch loop takes the time once, before it starts. Callbacks that schedule
  themselves again, as the box construction does with 0 ms for each page being built
  (`src/content/handlers/html/box_construct.c:1307`), may be dispatched many times within one loop.
  If callbacks schedule only themselves, the loop ends exactly when as many dispatches leave as
  timers were due, where a dispatch leaves if its callback does not set its own timer again for a
  time that has already come (`VisurfSchedule.OwnOnlyEndsExactly`). One leaver is not enough while
  another callback renews itself (`VisurfSchedule.OneLeaverIsNotEnough`).
- Any argument that starts with `--` ends the options of `ns_getopt`, where section 12.2 of the
  POSIX.1-2017 Base Definitions asks this of `--` alone. A command's flags and operands are those
  of the standard exactly when one of its flags is unknown or the first argument without flags is
  not `--` followed by more (`Getopt.AgreesWithStandard`).

## Model

| member | source | states |
|---|---|---|
| HintLabels.CeilLog | frontends/visurf/commands.c:203-214 | returns the least exponent from 1 on whose power reaches n |
| HintLabels.CeilLogUnique | frontends/visurf/commands.c:203-214 | that exponent is unique, so the postcondition of ceil_log fixes its result |
| HintLabels.PushFront | frontends/visurf/commands.c:225-226 | memmove by one and store: the buffer holds the new character followed by the old ones |
| HintLabels.MkHint | frontends/visurf/commands.c:216-242 | the label is the serial's numeral, most significant digit first, padded with the first letter to the requested length, for every serial whose digits and NUL fit the 32 byte buffer |
| Numerals.DigitCountBounds | frontends/visurf/commands.c:222-233 | the digit loop of mkhint runs as often as the serial has digits: serial < base^n and, beyond one digit, base^(n-1) <= serial |
| Numerals.DigitsInjective | frontends/visurf/commands.c:216-242 | different serials below base^n have different numerals of n digits |
| Numerals.DigitsSplit | frontends/visurf/commands.c:216-242 | the first m digits of a numeral are the numeral of the high part of the serial, which is why a short label blocks a block of long ones |
| HintLabels.ZeroDigit | frontends/visurf/commands.c:234-239 | padding on the left with the first letter does not change the number written |
| HintLabels.SerialsInRange | frontends/visurf/commands.c:275-294 | fewer short labels than hints, short serials below base^(needed-1), long serials up to base^needed |
| HintLabels.SlotInRange | frontends/visurf/commands.c:283-294 | every slot's serial fits its number of digits, so each label has exactly the length the planner chose |
| HintLabels.SlotsIncomparable | frontends/visurf/commands.c:283-294 | the digits planned for one slot are never a prefix of those of another slot |
| HintLabels.PlanIsPrefixCode | frontends/visurf/commands.c:261-294 | for every number of hints and every alphabet of at least two distinct letters the planned labels are a prefix code with nshort labels of length needed-1 and the rest of length needed |
| HintLabels.LabelLetter | frontends/visurf/commands.c:216-242 | letter i of a label of n letters is the alphabet's letter for serial / k^(n-1-i) mod k |
| HintLabels.PlanLetter | frontends/visurf/commands.c:274-294 | every letter of every planned label, in numbers: short labels count up from 0, long ones from the number of short ones times k |
| HintOptimality.AllWordsSize | frontends/visurf/commands.c:277 | there are base^n words of length n, the space the planner divides up |
| HintOptimality.BlockedSize | frontends/visurf/commands.c:274-281 | the full-length words blocked by the words of a prefix code are disjoint, so their numbers add up |
| HintOptimality.Kraft | frontends/visurf/commands.c:274-281 | Kraft's inequality for every prefix code over the alphabet |
| HintOptimality.SplitIsOptimal | frontends/visurf/commands.c:274-281 | no prefix code of as many non-empty words of the two lengths has more short words than the code's quotient |
| HintOptimality.LengthIsOptimal | frontends/visurf/commands.c:268 | no prefix code of two or more words gets by with a smaller greatest length than needed |
| HintOptimality.PlanAttainsOptimum | frontends/visurf/commands.c:283-289 | the plan has exactly that many short words |
| HintOptimality.SharesFit | frontends/visurf/commands.c:274-281 | in a prefix code of any lengths the words' shares of the label space fit it |
| HintOptimality.TotalIsOptimal | frontends/visurf/commands.c:274-281 | no prefix code of as many non-empty words, of whatever lengths, has a smaller total length than needed per word less the code's quotient |
| HintOptimality.PlanAttainsTotal | frontends/visurf/commands.c:283-289 | the plan has exactly that total length |
| FollowHints.ShufflePermutes | frontends/visurf/commands.c:302-307 | whatever rand() returns, the shuffle only rearranges the labels |
| FollowHints.ShuffleFromLast | frontends/visurf/commands.c:302-307 | the draw modulo the number of labels picks the last label, what stood there takes its place, and the rest is shuffled on |
| FollowHints.ShuffleReachesEveryOrder | frontends/visurf/commands.c:296-307 | for every arrangement there are draws that produce it |
| FollowHints.PrefixFreePermutes | frontends/visurf/commands.c:302-307 | rearranging a prefix code gives a prefix code |
| FollowHints.ShuffledPlanIsPrefixCode | frontends/visurf/commands.c:261-308 | the final labels are pairwise distinct, none is a prefix of another, and their lengths lie between 1 and needed |
| FollowHints.VisitSelects | frontends/visurf/commands.c:170-201 | starting with no hints, the recursive collection keeps, in pre-order, exactly the visible boxes whose link no earlier visible box has |
| FollowHints.SelectionIs | frontends/visurf/commands.c:175-180 | kept are, in order, the boxes with a size and a link or a form control, except for links that an earlier box with a size has too |
| FollowHints.LinklessKept | frontends/visurf/commands.c:177-180 | a sized form control without a link is kept as often as it occurs |
| FollowHints.BoxBeforeContents | frontends/visurf/commands.c:170-201 | a box comes before everything inside it, its children in order |
| FollowHints.SelectionLinks | frontends/visurf/commands.c:175-180 | a link is collected exactly when some visible box has it |
| FollowHints.SelectionHasNoDuplicates | frontends/visurf/commands.c:175-180 | no two hints share a link |
| FollowHints.TypeStep | frontends/visurf/window.c:1565-1592 | one key keeps the buffer a proper beginning of some label and no label a beginning of it; a hint is followed exactly when the accepted keys spell its label; a key no label goes on with is dropped |
| FollowHints.SpellingFollows | frontends/visurf/window.c:1574-1592 | spelling a label follows its hint at the last key and follows nothing before |
| FollowHints.TypingStaysOnTheWay | frontends/visurf/window.c:1540-1594 | after any key sequence from a fresh labelling either a hint was followed or the buffer is still on the way to one |
| FollowStates.FollowState.constructor | frontends/visurf/window.h:128-140 | a fresh follow state has no hints |
| FollowStates.FollowState.Append | frontends/visurf/commands.c:181-194 | appends one hint, starting with 64 slots and doubling, so that a free slot always remains |
| FollowStates.FollowState.IsCollected | frontends/visurf/commands.c:175-180 | tells whether a hint with the same non-NULL href exists |
| FollowStates.FollowState.CollectHints | frontends/visurf/commands.c:170-201 | adds to the collected boxes exactly what visiting the box's pre-order adds; from no hints that is the selection that FollowHints.SelectionIs describes by the boxes' fields |
| FollowStates.FollowState.CollectChildren | frontends/visurf/commands.c:197-200 | visits the children in order |
| FollowStates.FollowState.LabelRange | frontends/visurf/commands.c:285-294 | labels a range of slots with consecutive serials and leaves the boxes and the earlier labels alone |
| FollowStates.FollowState.LabelInOrder | frontends/visurf/commands.c:281-294 | before the shuffle slot i carries exactly the i-th planned label |
| FollowStates.FollowState.ShuffleHints | frontends/visurf/commands.c:302-307 | the swap loop performs the Fisher-Yates shuffle and keeps the boxes in place |
| FollowStates.FollowState.ShuffleOnce | frontends/visurf/commands.c:303-306 | one round exchanges the labels at i and at the draw modulo i + 1 and touches no other |
| FollowStates.FollowState.LabelHints | frontends/visurf/commands.c:261-308 | labels every hint with the shuffled plan, sets needed to the least sufficient length, and clears the buffer |
| FollowStates.FollowState.FinishHints | frontends/visurf/window.c:1441-1453 | forgets all hints |
| FollowStates.FollowState.HandleKey | frontends/visurf/window.c:1565-1592 | the comparison loop over the hints is the typing step on the labels and returns the hint it follows |
| FollowStates.FollowByLabel | frontends/visurf/commands.c:366-380 | collecting a page, labelling it with any draws and typing the label of a slot follows that slot's link |
| FollowStates.FewDigits | frontends/visurf/commands.c:219-223 | labels whose code space fits an int fit the 32 byte buffer |
| BindingTable.InsertNewest | frontends/visurf/keybindings.c:128-138 | a new binding goes before those with the same first keysym and changes no other group |
| BindingTable.InsertKeepsSorted | frontends/visurf/keybindings.c:128-138 | insertion keeps the table sorted by first keysym |
| BindingTable.WithoutIsFilter | frontends/visurf/keybindings.c:150-166 | removal drops every binding of exactly these keys and masks and keeps each other one as often as before |
| BindingTable.WithoutKeepsSorted | frontends/visurf/keybindings.c:150-166 | removal keeps the table sorted |
| BindingTable.TableIsStableSort | frontends/visurf/keybindings.c:104-170 | after every history of bind and unbind the table is sorted, and within one first keysym it lists the live bindings newest first |
| BindingTable.SortedDetermined | frontends/visurf/keybindings.h:34-36 | sortedness and the per-keysym lists determine the table |
| BindingTable.LookupIsMostRecent | frontends/visurf/keybindings.c:126-138 | the first entry for a key sequence is its most recent bind not taken back by an unbind |
| BindingStates.Bindings.constructor | frontends/visurf/keybindings.h:29-41 | a fresh state has no bindings and an empty buffer |
| BindingStates.Bindings.Grow | frontends/visurf/keybindings.c:113-124 | capacity 16, then doubled when one slot is left; the table is kept |
| BindingStates.Bindings.New | frontends/visurf/keybindings.c:104-141 | bind inserts at the first position whose keysym is not smaller; nbindings stays below capacity |
| BindingStates.Bindings.SameKeys | frontends/visurf/keybindings.c:151-159 | the lock-step walk decides equality of two key sequences |
| BindingStates.Bindings.Remove | frontends/visurf/keybindings.c:143-170 | unbind with in-place shifting is exactly the filter of all equal bindings |
| BindingStates.Bindings.GetBindingState | frontends/visurf/keybindings.c:178-195 | COMPLETE when the binding is a prefix of the buffer, PARTIAL when it properly extends it, else NONE |
| BindingStates.Bindings.Scan | frontends/visurf/keybindings.c:221-239 | finds the first complete binding, and without one tells whether any is pending |
| BindingStates.Bindings.Handle | frontends/visurf/keybindings.c:193-247 | one key event is one step of the matcher; with 8 keys buffered the buffer is dropped, else releases and keysyms 0xffe1 to 0xffee go by and leave the buffer alone, and every other key is taken up |
| KeyBindings.StepKeepsMatching | frontends/visurf/keybindings.c:197-247 | after each event the buffer is empty or a strict prefix of a binding, no binding is a prefix of it, and it has at most 8 keys |
| KeyBindings.EventsThatGoBy | frontends/visurf/keybindings.c:195-213 | exactly which events are ignored, in numbers, and exactly when the buffer overflows |
| KeyBindings.ExecutesExactMatch | frontends/visurf/keybindings.c:216-232 | a command runs exactly when buffer and new key equal a bound sequence, and then it is the first such entry |
| KeyBindings.OverflowNeedsLongBinding | frontends/visurf/keybindings.c:202-206 | the buffer overflows only under a binding of more than 8 keys |
| KeyBindings.SegmentIsProper | frontends/visurf/keybindings.c:202-246 | how each way of emptying the buffer relates the discarded keys to the bindings |
| KeyBindings.RunSegmentsStrokes | frontends/visurf/keybindings.c:197-247 | every run of events, with bindings changed between sequences, cuts the key strokes into properly ended segments and loses none |
| KeyBindings.ResolveSequence | frontends/visurf/keybindings.c:178-246 | along a bound sequence the buffer waits before the end and runs the command at the end |
| KeyBindings.SequenceRunsCommand | frontends/visurf/keybindings.c:197-247 | pressing the rest of a bound sequence, with releases and modifiers in between, runs its command once, at the last key |
| KeyBindings.LiveBindingIsDelivered | frontends/visurf/keybindings.c:104-247 | after any history, pressing a sequence runs a command once, at the last key, exactly when that is the most recently bound command for it, it has 1 to 8 keys, and no other binding is a proper beginning of it |
| TimerTable.TimersOfKill | frontends/gtk/schedule.c:56-71 | turning the cells of a key into tombstones removes exactly that key |
| TimerTable.TimersOfDrop | frontends/visurf/main.c:61-80 | unlinking the cells of a key removes exactly that key |
| GtkSchedule.ScheduleRefines | frontends/gtk/schedule.c:80-125 | nsgtk_schedule is the abstract keyed-map operation, result code included: replace, or delete for a negative time, which succeeds exactly when a live entry existed |
| GtkSchedule.ExpireKeepsMeaning | frontends/gtk/schedule.c:43-54 | an expiring timer moves its record and changes neither the timers nor the invariant |
| GtkSchedule.TakeHead | frontends/gtk/schedule.c:145-146 | taking a record off the run list forgets its key and nothing else |
| GtkSchedule.TurnKeepsInv | frontends/gtk/schedule.c:144-150 | one iteration keeps the invariant and frees exactly its record |
| GtkSchedule.RunLoopKeepsInv | frontends/gtk/schedule.c:127-152 | a run empties its list and frees exactly the captured records, once each, in order |
| GtkSchedule.OpsOnRun | frontends/gtk/schedule.c:93-94 | while a callback runs, an entry still to come dies exactly when its key is scheduled or removed |
| GtkSchedule.RunFiresSurvivors | frontends/gtk/schedule.c:127-152 | a run makes one turn per captured record, in order, and fires a record exactly when it was alive and no earlier callback of the run touched its key |
| GtkSchedule.EveryReachableState | frontends/gtk/schedule.c:36-152 | whatever is scheduled, expires or runs, the invariant is kept: at most one live entry per key over all lists, every record in one place, records freed in the order their timers expired |
| GtkSchedule.StateFromStart | frontends/gtk/schedule.c:36-152 | in every state reached from the empty lists a key has a timer exactly when it has a live entry, and then that is its only one |
| GtkMeaning.EntryOwner | frontends/gtk/schedule.c:60-71 | a record is the timer of some key exactly when its entry is not a tombstone |
| GtkMeaning.RunView | frontends/gtk/schedule.c:127-152 | a run fires a record exactly when it is still the timer of a key when its turn comes: on the table of timers it makes the same turns and ends in the same table |
| GtkMeaning.ExecuteView | frontends/gtk/schedule.c:36-152 | over every run of schedule calls, expiring timers and schedule_run, the three lists with their tombstones refine a table of timers by key |
| GtkSchedulers.KillCallback | frontends/gtk/schedule.c:56-71 | kills the target exactly when callback and context match and says so |
| GtkSchedulers.KillList | frontends/gtk/schedule.c:89-94 | walks one list killing every match, leaving the other lists alone |
| GtkSchedulers.Scheduler.constructor | frontends/gtk/schedule.c:36-41 | all lists start empty |
| GtkSchedulers.Scheduler.Remove | frontends/gtk/schedule.c:80-100 | kills the key in all three lists and reports whether it was there |
| GtkSchedulers.Scheduler.Schedule | frontends/gtk/schedule.c:103-125 | the heap operation is the one on values, allocation of a fresh record included |
| GtkSchedulers.Scheduler.GenericCallback | frontends/gtk/schedule.c:43-54 | moves the record from the queue to the end of the pending list, dead or alive |
| GtkSchedulers.Scheduler.ScheduleRun | frontends/gtk/schedule.c:127-152 | the loop with callbacks that schedule, kill and let timers expire is the run on values; false exactly when nothing was pending |
| Timespecs.NormalForm | frontends/visurf/timespec-util.h:92-96 | a normalized time is determined by its nanoseconds and every number of nanoseconds has one |
| Timespecs.ToMsecIsFloor | frontends/visurf/timespec-util.h:112-123 | conversion to milliseconds rounds down, also before zero |
| Timespecs.Sub | frontends/visurf/timespec-util.h:42-52 | exact difference, normalized for normalized operands |
| Timespecs.AddNsec | frontends/visurf/timespec-util.h:60-73 | exact normalized sum for every increment, negative ones under C division included |
| Timespecs.AddMsec | frontends/visurf/timespec-util.h:81-85 | exact normalized sum in milliseconds |
| Timespecs.SubToNsec | frontends/visurf/timespec-util.h:104-110 | exact difference in nanoseconds |
| Timespecs.PollTimeout | frontends/visurf/main.c:1392-1400 | -1 without a timer; otherwise never past the next timer, and less than 1 ms short of it exactly when the distance fits an int |
| Timespecs.TimersAreInRange | frontends/visurf/main.c:94-96 | a timer set with an int of milliseconds is never out of that range |
| VisurfSchedule.ScheduleRefines | frontends/visurf/main.c:61-101 | nsvi_misc_schedule is the same abstract keyed-map operation as in GTK, result code included |
| VisurfSchedule.CallsKeepInv | frontends/visurf/main.c:61-101 | after any run of schedule calls each (callback, p) occurs at most once |
| VisurfSchedule.LaterStandsFirst | frontends/visurf/main.c:82-101 | of two live timers the one scheduled later stands first in the list, whatever is scheduled on other keys meanwhile |
| VisurfSchedule.DispatchExit | frontends/visurf/main.c:1372-1379 | whenever the dispatch ends, whatever the callbacks did, no remaining timer is due, and everything fired was due |
| VisurfSchedule.DispatchExact | frontends/visurf/main.c:1372-1379 | a dispatch that ends does so in exactly as many rounds as timers are fired, in one way |
| VisurfSchedule.DispatchLowersDueCount | frontends/visurf/main.c:1374-1379 | a dispatch lowers the number of due timers if the callback sets none that is due |
| VisurfSchedule.OneMillisecondIsFuture | frontends/visurf/main.c:94-96 | rescheduling by at least 1 ms sets no timer that is due |
| VisurfSchedule.DispatchWithinDueCount | frontends/visurf/main.c:1372-1390 | if no callback sets a due timer, the loop ends within as many dispatches as there are due timers |
| VisurfSchedule.DispatchTerminates | frontends/visurf/main.c:1372-1390 | the loop ends if from some dispatch on no callback sets a due timer |
| VisurfSchedule.DropDueExactly | frontends/visurf/main.c:1374-1376 | removing a due timer makes exactly one fewer due |
| VisurfSchedule.LastCallCounts | frontends/visurf/main.c:82-101 | of several calls on one key only the last counts |
| VisurfSchedule.OwnOnlyEnds | frontends/visurf/main.c:1372-1390 | for a list of any length whose callbacks schedule only themselves, the loop ends within a number of dispatches exactly when as many of these leave as timers were due |
| VisurfSchedule.OwnOnlyEndsExactly | frontends/visurf/main.c:1372-1390 | such a loop ends exactly when at some point as many dispatches have left as timers were due |
| VisurfSchedule.RenewalEndsExactly | frontends/visurf/main.c:1372-1390 | with one timer due, whose callback schedules only itself, the loop ends exactly when some dispatch leaves |
| VisurfSchedule.OneLeaverIsNotEnough | frontends/visurf/main.c:1372-1390 | with two due timers, one leaving at once and one renewing itself with 0 ms, the loop never ends |
| VisurfSchedule.DispatchOnCourse | frontends/visurf/main.c:1372-1390 | firing step by step, starting over after each timer, comes to the end of the dispatch |
| VisurfSchedule.NextStep | frontends/visurf/main.c:1380-1389 | the scan keeps next an earliest timer, the last of several |
| VisurfSchedulers.Callbacks.constructor | frontends/visurf/visurf.h:112 | the list starts empty |
| VisurfSchedulers.Callbacks.Splice | frontends/visurf/main.c:68-72 | writing through the pointer to pointer unlinks exactly one node and keeps the chain |
| VisurfSchedulers.Callbacks.Unlink | frontends/visurf/main.c:61-80 | the walk unlinks exactly the matching nodes and keeps the order of the rest |
| VisurfSchedulers.Callbacks.Remove | frontends/visurf/main.c:61-80 | removal on the list is removal of the key, and says whether it was there |
| VisurfSchedulers.Callbacks.Schedule | frontends/visurf/main.c:82-101 | removal, then a node in front that is due the given milliseconds after the clock |
| VisurfSchedulers.Callbacks.Fire | frontends/visurf/main.c:1375-1377 | a due timer is copied, unlinked and then called |
| VisurfSchedulers.Callbacks.Earlier | frontends/visurf/main.c:1380-1389 | next and the current node are compared so that next stays an earliest one |
| VisurfSchedulers.Callbacks.DispatchDue | frontends/visurf/main.c:1370-1390 | whatever the callbacks do, when the loop ends it has fired what the dispatch on values fires, every remaining timer is after now, and next is the last of the earliest remaining ones |
| Toolbars.EncodingUnique | frontends/gtk/toolbar.c:114-119 | the locations encode at most one sequence of distinct items |
| Toolbars.OrderFits | frontends/gtk/toolbar.c:859 | no more active items than items, so the loops over locations reach all of them |
| Toolbars.ItemAtLocation | frontends/gtk/toolbar.c:621-631 | active locations are a bijection with 0..m-1 |
| Toolbars.OthersKeepOrder | frontends/gtk/toolbar.c:827-865 | inserting and deleting an item keeps the order of the others |
| Toolbars.DropLandsBefore | frontends/gtk/toolbar.c:828-865 | dropped at the index of another item, the item stands directly before it |
| Toolbars.DropInPlace | frontends/gtk/toolbar.c:828-865 | dropped on either side of itself an item stays where it was |
| Toolbars.Customisation.constructor | frontends/gtk/toolbar.c:3204-3206 | all items start inactive |
| Toolbars.FindLocation | frontends/gtk/toolbar.c:621-631 | finds the first item with a location, or the placeholder |
| Toolbars.ShiftedItem | frontends/gtk/toolbar.c:833-842 | in the middle of the shift, with two items on one location, the next location still leads to its item; moving that one down goes on with the shift |
| Toolbars.Customisation.TakeOut | frontends/gtk/toolbar.c:761-773 | shifting in place makes the item inactive and moves down exactly what is behind it up to the next gap |
| Toolbars.Customisation.PutIn | frontends/gtk/toolbar.c:858-865 | shifting in place moves up exactly what is at the position and behind, and puts the item there |
| Toolbars.Customisation.DropOnToolbox | frontends/gtk/toolbar.c:738-780 | dropping on the toolbox takes the item out if it was dragged from the toolbar, and does nothing otherwise |
| Toolbars.Customisation.DropOnToolbar | frontends/gtk/toolbar.c:804-875 | dropping on the toolbar takes the item out if active, adjusts the index by its location and puts it in; without a button the item is only taken out |
| Toolbars.TakenOutEncodes | frontends/gtk/toolbar.c:761-773 | on a toolbar without gaps taking out is deletion from the sequence, and leaves no gap |
| Toolbars.DroppedEncodes | frontends/gtk/toolbar.c:827-865 | on a toolbar without gaps a drop removes the item from the sequence if present, adjusts the index and inserts at it, and leaves no gap |
| Toolbars.DroppedSeparate | frontends/gtk/toolbar.c:827-865 | no drop brings two items to one location |
| ToolbarOptions.TokensOfJoin | frontends/gtk/toolbar.c:1010-1028 | any list of tokens, empty ones included, is read back from its '/'-joined text |
| ToolbarOptions.JoinOfTokens | frontends/gtk/toolbar.c:1010-1028 | reading loses nothing but a '/' at the end |
| ToolbarOptions.ApplyCustomisation | frontends/gtk/toolbar.c:991-1043 | every item gets the last place where the option names it, unnamed ones become inactive; with no option or no known name items 0, 1, 2, 3, 5, 6 and 10 get locations 0 to 6 and all others -1 |
| ToolbarOptions.UnknownTokenIsSkipped | frontends/gtk/toolbar.c:1010-1028 | a token that is no item's name, the empty one included, changes nothing wherever it is |
| ToolbarOptions.MixedOption | frontends/gtk/toolbar.c:991-1043 | reading distinct known names mixed with other tokens gives the k-th known one location k and every other item -1 |
| ToolbarOptions.ParseItems | frontends/gtk/toolbar.c:1010-1028 | the scanning loop meets exactly the known items of the tokens, in order |
| ToolbarOptions.PlaceDefaults | frontends/gtk/toolbar.c:1030-1039 | the seven default items take locations 0 to 6 |
| ToolbarOptions.PlacesEncode | frontends/gtk/toolbar.c:1017-1023 | the locations are without gap exactly when no item is named twice; then the k-th named item has location k |
| ToolbarOptions.Populate | frontends/gtk/toolbar.c:1072-1085 | inserts the items met by walking locations 0, 1, ... up to the first free one |
| ToolbarOptions.WalkOfEncoding | frontends/gtk/toolbar.c:1072-1085 | on a toolbar without gaps the walk visits every active item once, in order |
| ToolbarOptions.PlacesAreSeparate | frontends/gtk/toolbar.c:1010-1028 | no option, with repeated names or not, puts two items at one location |
| ToolbarOptions.ToolboxDropOnWalk | frontends/gtk/toolbar.c:738-780 | with any gaps, dropping an item on the toolbox deletes it from what the toolbar shows |
| ToolbarOptions.ToolbarDropOnWalk | frontends/gtk/toolbar.c:804-875 | with any gaps, dropping an item on the toolbar removes it from what is shown if present, adjusts the index and inserts at it |
| ToolbarOptions.PlacedToolbar | frontends/gtk/toolbar.c:991-1090 | reading an option and filling the toolbar shows every active item exactly when none is named twice, and then in the option's order |
| ToolbarOptions.OptionRoundTrip | frontends/gtk/toolbar.c:667-690 | a non-empty toolbar written as its names with '/' behind each is restored by reading |
| ToolbarSaves.OrderLength | frontends/gtk/toolbar.c:648-658 | the size computed is the length of all active names with a separator each; zero exactly when nothing is active |
| ToolbarSaves.WriteStep | frontends/gtk/toolbar.c:667-690 | each name written uses up its share of the size, and the remainder is what the unwritten active items need |
| ToolbarSaves.Save | frontends/gtk/toolbar.c:637-704 | invalid exactly without active items, unknown exactly when the walk meets every active item, saved exactly otherwise: with the names met, or as an unwritten buffer exactly when something is active and nothing has location 0 |
| ToolbarSaves.FirstNamedAgain | frontends/gtk/toolbar.c:1017-1023 | reading an option leaves location 0 free exactly when its first item is named again |
| ToolbarSaves.GapFreeToolbarIsNotSaved | frontends/gtk/toolbar.c:660-684 | every toolbar without gaps falls under the two failures |
| PrintTiles.StartInStep | frontends/gtk/print.c:603-614 | tiling starts congruent to the position, not beyond the clip edge, and at the position itself exactly when that is not beyond the edge |
| PrintTiles.OneTileWhereMeant | frontends/gtk/print.c:595-622 | without repeat along an axis the tiles paint what is meant exactly when the position is not beyond the clip edge, or is behind the clip extent by whole tiles from the edge |
| PrintTiles.Printer.OneRowWhereMeant | frontends/gtk/print.c:595-629 | the same for the pixels of the clip rectangle that a bitmap repeated along one axis is to paint |
| PrintTiles.ColumnShown | frontends/gtk/print.c:609-627 | a tile in step shows at a column the image column counted from the position modulo the size |
| PrintTiles.TileShowsPattern | frontends/gtk/print.c:609-627 | every pixel a tile paints shows the image pixel the repeating pattern has there |
| PrintTiles.Printer.SetClip | frontends/gtk/print.c:157-170 | the clip rectangle is the given one cut down to the page |
| PrintTiles.Printer.PlotPixbuf | frontends/gtk/print.c:440-551 | paints each pixel common to image and clip rectangle once and nothing else |
| PrintTiles.Printer.PlotRow | frontends/gtk/print.c:610-622 | one row of tiles paints each pixel of the clip rectangle in the row once |
| PrintTiles.Printer.PlotBitmap | frontends/gtk/print.c:579-630 | with both repeats every pixel of the clip rectangle, and no other, is painted exactly once by tiles in step with (x, y); with one repeat exactly the pixels of the clip rectangle up to the end of one row or column of tiles; both loops end |
| Pixels.PreAtMostAlpha | frontends/visurf/bitmap.c:391-397 | a premultiplied channel is at most alpha |
| Pixels.PreIs | frontends/visurf/bitmap.c:391-397 | the premultiplied channel in numbers |
| Pixels.DeIs | frontends/visurf/bitmap.c:238-248 | the demultiplied channel in numbers: the greatest value up to 255 whose product with alpha is at most 256 times the channel |
| Pixels.CycleKeeps | frontends/visurf/bitmap.c:238-248 | reading back and converting again leaves a channel equal exactly when it is a kept one, and one lower otherwise |
| Pixels.FullAlphaIsExact | frontends/visurf/bitmap.c:238-248 | alpha 255 loses nothing in either direction |
| Pixels.FixedChannels | frontends/visurf/bitmap.c:238-248 | zero and full channels survive every cycle |
| Pixels.RunExact | frontends/visurf/bitmap.c:177-260 | after any run of calls a channel has lost exactly one per cycle until it settled at the next kept value |
| Pixels.KeptForEver | frontends/visurf/bitmap.c:177-260 | every run of calls keeps a channel exactly when one cycle does |
| Pixels.FullAlphaRun | frontends/visurf/bitmap.c:336-416 | with alpha 255 any run of calls keeps every value |
| Pixels.PixelRun | frontends/visurf/bitmap.c:177-260 | alpha never changes, opaque surfaces are kept exactly, channels run independently |
| Pixels.PixelRunExact | frontends/visurf/bitmap.c:177-260 | the exact pixel of a new surface after any run of calls |
| Pixels.ChannelFades | frontends/visurf/bitmap.c:238-248 | at alpha 254 a channel below 127 loses one in every cycle until it is black |
| PixelBuffers.Bitmap.constructor | frontends/visurf/bitmap.c:42-62 | a new bitmap is not converted |
| PixelBuffers.NativeWord | frontends/visurf/bitmap.c:372-400 | a native pixel is the 32 bit word, in machine order, with alpha on top, then red, green and blue |
| PixelBuffers.Bitmap.Modified | frontends/visurf/bitmap.c:336-416 | converts every pixel in place once, with each channel in its byte for either byte order, and does nothing when already converted |
| PixelBuffers.Bitmap.GetBuffer | frontends/visurf/bitmap.c:177-260 | converts every pixel back in place to the bytes red, green, blue, alpha, and does nothing when not converted |
| PixelBuffers.Bitmap.Perform | frontends/visurf/bitmap.c:177-416 | any run of calls on a surface of any size in either byte order: each pixel is the run of that pixel; a new surface keeps alpha, its opaque pixels wholly and other channels as computed, and has no channel above alpha when converted |
| Getopt.Scanner.constructor | frontends/visurf/getopt.c:26-30 | the cursor starts at the first argument |
| Getopt.OperandIs | frontends/visurf/getopt.c:41-56 | operands start behind the leading arguments with flags, and behind the next one if it starts with "--", alone or not |
| Getopt.Scanner.GetOpt | frontends/visurf/getopt.c:33-106 | returns the flag under the cursor and moves it on by one, '?' for an unknown one without moving, and -1 at the first operand, stepping over an argument that starts with "--" |
| Getopt.Scanner.ReadFlags | frontends/visurf/commands.c:314-341 | a command's loop reads exactly the flags of the leading flag arguments up to the first unknown one, and ends at the first operand |
| Getopt.AgreesWithStandard | frontends/visurf/getopt.c:53-56 | the flags and operand read are those under the standard's rule for `--` exactly when a flag is unknown or the first argument without flags is not `--` followed by more |

## Left out

- GTK, Cairo, Pango, Wayland, xkb and GLib: widgets, drawing, key names, clocks and timers are inputs or events of the models.
- Files, pipes, processes, resources, menus, dialogs and preferences: they would only add thin wrappers.
- URLs, box layout, form controls and browser windows: boxes are values with a link, a size and children; the coordinates of a hint and what following a link does are not modelled.
- Follow labels with letters outside printable ASCII, and keys that produce several bytes.
- Integer widths: sizes and counters are unbounded, except for the poll timeout's int, the channel bytes and the int cast of the label space.
- Memory exhaustion, apart from the toolbar button that cannot be created.
- FollowStates.FollowState.LabelHints: requires the label space to fit an int, as the cast in the source does.
- FollowStates.FollowByLabel: requires the label space to fit an int, for the same reason.
- HintLabels.MkHint: requires the digits and the NUL to fit the 32 byte buffer, which is stronger than its assertions: these let 32 digits through, and the NUL would then be stored behind the buffer.
- KeyBindings.RunSegmentsStrokes: takes bindings to change only while no key is buffered, which holds for commands run by a binding because the buffer is cleared first.
- Parsing of binding descriptions: bindings start as non-empty key sequences.
- GtkSchedulers.Scheduler.ScheduleRun: is not nested inside itself, and callbacks are not NULL.
- GtkSchedulers.KillCallback: the callback is not NULL, since a NULL one would match the tombstones.
- GtkSchedulers.KillList: the callback is not NULL, for the same reason.
- GtkSchedulers.Scheduler.Remove: the callback is not NULL, for the same reason.
- GtkSchedulers.Scheduler.Schedule: the callback is not NULL, for the same reason.
- VisurfSchedulers.Callbacks.DispatchDue: speaks of loops that end; exactly when a loop ends is proved for callbacks that schedule only themselves (VisurfSchedule.OwnOnlyEndsExactly); for callbacks that set due timers on other keys there is only a sufficient condition (VisurfSchedule.DispatchTerminates).
- ToolbarSaves.Save: what an unwritten buffer contains is not modelled; the result then carries no text.
- Toolbars.DroppedEncodes: speaks of an index up to the number of items on the toolbar, the only ones GTK reports; ToolbarOptions.ToolbarDropOnWalk does so too.
- PrintTiles.Printer.PlotPixbuf: takes a clip rectangle with ordered corners; what cairo fills for a negative width or height is not modelled.
- PrintTiles.Printer.PlotRow: takes a clip rectangle with ordered corners, for the same reason.
- PrintTiles.Printer.PlotBitmap: takes a clip rectangle with ordered corners, for the same reason.
- Scaling of a bitmap that is printed once at another size.
- PixelBuffers.Bitmap.Modified: rows are contiguous, as they are for the four byte formats; marking the surface dirty is not modelled.
- Getopt.Scanner.GetOpt: option strings without ':', the only ones the callers pass; the error messages are not modelled.
- The touch-slot table, scrolling, zoom, download speeds and throbber frames.
