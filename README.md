# Himatsubushi planner: the time-slot tree

`app.js` of himatsubushi-management keeps a day of activity codes in a
three-level tree. The levels are:

- 32 root slots of 30 minutes, from 7:30 up to the 23:00 slot;
- 3 sub-slots of 10 minutes under each root;
- 10 micro-slots of 1 minute under each sub-slot.

A slot is either a leaf holding a value or subdivided into its children.
Children are allocated up front, even under an unsubdivided parent.

The user works on the currently visible leaves, identified by the ids
`"i"`, `"i-j"` and `"i-j-k"`. They can:

- select leaves by click, ctrl-click, shift-click and drag;
- split a leaf one level down, or merge a subtree back into one leaf (asking before it discards differing values);
- write a code (or null) into every selected leaf;
- read the minutes per code, on screen and as a clipboard report.

The model follows that structure:

| module | file | models |
|---|---|---|
| `Wrappers` | wrappers.dfy | `Option` |
| `SeqFacts` | seq_facts.dfy | generic sequence facts: concatenation of blocks, absence of duplicates, tiling |
| `Decimal` | decimal.dfy | `${n}`, `padStart(2, '0')` and `parseInt` on non-negative integers |
| `SlotIds` | slot_ids.dfy | slot addresses, their durations, and the id strings with `split('-')` parsing |
| `TimeSlots` | time_slots.dfy | the node records, `createMicroSlots`, `createSubSlots`, `initTimeSlots`; the tree invariant |
| `Linearize` | linearize.dfy | `getAllSlotIds`: the visible leaves in day order |
| `SlotValues` | slot_values.dfy | `getSlotValue`, `setSlotValue`, the assignment loop of `applyCode` |
| `SplitMerge` | split_merge.dfy | the value rules of the four split and merge handlers |
| `Selection` | selection.dfy | the selection `Set` and `selectRange` |
| `Summary` | summary.dfy | the per-code tallies of `updateSummary` and `copyToClipboard` |
| `Labels` | labels.dfy | `getSlotLabel` and the report's `formatTime` |
| `Planner` | planner.dfy | the page state (`App`): the mouse and menu handlers and `applyCode` |

Nodes are datatypes (`Root`, `Sub`, `Micro`). The script's global
variables are the fields of the class `Planner.App`:

- `timeSlots` as `slots: seq<Root>`;
- `selectedSlots` and `preselectedSlots` as `selected` and `preselected`, duplicate-free sequences in insertion order;
- `isDragging`, `dragStartId` and `dragCurrentId` as `dragging`, `dragStart` and `dragCurrent`;
- `contextMenuTarget` as `target: Option<Addr>`;
- the menu's `show` class as `menuOpen`.

An in-place write into a nested node becomes a record update of `slots[i]`.
A value is `Option<string>`, with `None` for `null`. The script's `if (v)`
tests are modelled as `TimeSlots.Truthy`, which is false for `null` and for
the empty string.

`App.Valid()` is the invariant every handler keeps:

- the tree is still the day's schedule;
- every unsubdivided node has pristine children (all null and unsubdivided);
- a subdivided node holds no value of its own;
- the selection holds only currently listed ids, without duplicates.

Three facts about `app.js` shape the model:

- The merge handlers build `new Set(allValues)` with `null` kept as a value. So one code beside null leaves is a conflict and, once confirmed, clears the node to null.
- The totals are whole minutes: 30, 10 or 1 per visible leaf. Nothing is rounded or truncated.
- Children are allocated up front and kept under an unsubdivided parent. The model keeps them too and proves they stay pristine.

## Model

| member | source | states |
|---|---|---|
| Decimal.NatToString | app.js:42 | `${n}` is a non-empty string of digits, one digit exactly for n < 10 |
| Decimal.Pad2 | app.js:42 | `padStart(2, '0')` gives at least two digits, exactly two below 100 |
| Decimal.ParseNatToString | app.js:428-429 | `parseInt` of `${n}` gives back n |
| Decimal.NatToStringInjective | app.js:219-226 | two numbers render alike exactly when they are equal |
| Decimal.ParsePad2 | app.js:595 | `parseInt` reads a zero-padded field back as the number padded |
| SlotIds.Duration | app.js:516-525 | a leaf covers 30, 10 or 1 minutes according to its level |
| SlotIds.SplitDashJoin | app.js:428 | `split('-')` of `x-y` with a dash-free x is x followed by the parts of y |
| SlotIds.ParseFormatId | app.js:427-439 | parsing an id rendered from an address gives that address back |
| SlotIds.FormatIdInjective | app.js:219-226 | two addresses render to the same id exactly when they are equal |
| SlotIds.FormatIdCanonical | app.js:219-226 | every rendered id is in canonical form and parses back to its address |
| TimeSlots.CreateMicroSlots | app.js:19-21 | ten micro-slots, each holding null |
| TimeSlots.CreateSubSlots | app.js:23-29 | three unsubdivided sub-slots holding null, each with ten null micro-slots |
| TimeSlots.ScheduledRootTime | app.js:37-45 | the k-th scheduled root starts 30·k minutes after 7:30, on the hour or the half hour |
| TimeSlots.InitTimeSlots | app.js:31-54 | the push loop builds exactly 32 roots, the k-th being the closed-form scheduled root k |
| TimeSlots.ScheduleFacts | app.js:31-54 | the first root starts at 7:30 and the last at 23:00, in 30-minute steps; every root is null, unsubdivided and has fresh sub-slots |
| TimeSlots.InitialTreeValid | app.js:19-54 | the initial tree satisfies the invariant (pristine hidden children), is the day's schedule and is fully shaped |
| TimeSlots.InvWellShaped | app.js:13-16 | a tree keeping the invariant has 3 sub-slots per root and 10 micro-slots per sub-slot |
| Linearize.PushSubIds | app.js:215-224 | the inner push loop appends exactly the sub-slot's listed ids |
| Linearize.PushRootIds | app.js:213-228 | one root's pushes append exactly that root's listed ids |
| Linearize.AllSlotIds | app.js:211-230 | the loop returns the ids of the visible leaves in day order |
| Linearize.LeavesMember | app.js:211-230 | an address is listed exactly when it is a visible leaf |
| Linearize.AllIdsParse | app.js:211-230 | every listed id is canonical and parses to the visible leaf at its position |
| Linearize.AllIdsExactly | app.js:211-230 | an id is listed exactly when it is canonical and names a visible leaf |
| Linearize.AllIdsNoDup | app.js:211-230 | no id is listed twice |
| Linearize.RootLeavesCount | app.js:213-227 | a root lists 1 id when unsubdivided, else 1 or 10 per sub-slot |
| Linearize.UnsubdividedLeaves | app.js:225-227 | a tree with no subdivided root lists exactly one leaf per root, root k in position k |
| SlotValues.SetValueShape | app.js:441-453 | writing a value changes no node's subdivision or child count |
| SlotValues.ValueAtSetValue | app.js:441-453 | after a write, the node written holds the new value and every other node keeps its old one |
| SlotValues.SameShapeLeaves | app.js:441-453 | trees of the same shape list the same leaves and ids |
| SlotValues.SetValueInv | app.js:441-453 | writing a visible leaf keeps the invariant and the schedule |
| SlotValues.SetHiddenBreaksInv | app.js:441-453 | writing a non-null value into a hidden node would break the invariant |
| SlotValues.GetSlotValue | app.js:427-439 | a value is read exactly when the id parses to a node of the tree |
| SlotValues.SetSlotValue | app.js:441-453 | a write succeeds exactly when the read would, and leaves the shape alone |
| SlotValues.GetAfterSet | app.js:427-453 | reading an id after writing v to it gives v |
| SlotValues.GetOtherAfterSet | app.js:427-453 | reading an id naming another node after a write gives its old value |
| SlotValues.AssignAll | app.js:486-488 | writing a list of ids keeps the tree's shape |
| SlotValues.AssignAllValue | app.js:486-488 | after writing listed ids, a node holds the code exactly when its id is among them, and its old value otherwise |
| SlotValues.AssignAllInv | app.js:486-488 | writing listed ids keeps the invariant and the schedule |
| SplitMerge.DistinctMember | app.js:361 | `[...new Set(vs)]` holds exactly the values of vs, null included |
| SplitMerge.DistinctNoDup | app.js:361 | `[...new Set(vs)]` has no duplicates |
| SplitMerge.DistinctFirst | app.js:361 | `[...new Set(vs)]` starts with the first value of vs |
| SplitMerge.DistinctSize | app.js:361-368 | more than one distinct value exactly when vs is mixed; exactly one when vs is non-empty and uniform |
| SplitMerge.MicroValues | app.js:390 | `microSlots.map(m => m.value)` keeps length and order |
| SplitMerge.MicroValuesVisible | app.js:389-390 | the values the 10-minute merge reads are those of the split sub-slot's visible leaves, position by position |
| SplitMerge.RootLeafValuesVisible | app.js:351-358 | the values the 30-minute merge reads are those of the split root's visible leaves, in day order |
| SplitMerge.FillSubs | app.js:310 | each sub-slot takes the value and keeps its other fields |
| SplitMerge.FillMicros | app.js:332 | each micro-slot takes the value |
| SplitMerge.SplitRootInv | app.js:307-312 | splitting a root keeps the invariant and the root's times, and leaves it subdivided |
| SplitMerge.SplitRootValues | app.js:307-312 | after a split the three sub-slots show the root's old value if truthy, null otherwise |
| SplitMerge.SplitSubInv | app.js:329-334 | splitting a sub-slot keeps the invariant and leaves it subdivided |
| SplitMerge.SplitSubValues | app.js:329-334 | after a split the ten micro-slots show the sub-slot's old value if truthy, null otherwise |
| SplitMerge.MergedValueSpec | app.js:361-368 | the merged value is the one distinct value; null when none or more than one |
| SplitMerge.MergeRootSpec | app.js:349-376 | a merge changes nothing unless the root is subdivided and either uniform or confirmed; otherwise the root is unsubdivided with fresh sub-slots and the merged value |
| SplitMerge.MergeSubSpec | app.js:389-407 | the same for merging a sub-slot's micro-slots |
| SplitMerge.MergeRootInv | app.js:368-371 | merging a root keeps the invariant and the root's times |
| SplitMerge.MergeSubInv | app.js:399-402 | merging a sub-slot keeps the invariant |
| SplitMerge.SplitMergeRoot | app.js:307-371 | splitting a root and merging it back gives the root back, with no prompt |
| SplitMerge.SplitMergeSub | app.js:329-402 | splitting a sub-slot and merging it back gives the sub-slot back, with no prompt |
| SplitMerge.SplitMergeDropsEmpty | app.js:309-368 | every root holding the empty string comes back from split and merge holding null, confirmed or not |
| SplitMerge.NullMixesWithCode | app.js:351-368 | for every split root whose leaves show some code and some null, the merge sees a conflict: declined changes nothing, confirmed clears to null |
| SplitMerge.MergeRootValues | app.js:368-371 | an accepted merge leaves one visible leaf holding the merged value |
| SplitMerge.SplitSubAtInv | app.js:329-334 | splitting a sub-slot of a subdivided root keeps the root's invariant |
| SplitMerge.MergeSubAtInv | app.js:399-402 | merging a sub-slot of a subdivided root keeps the root's invariant |
| SplitMerge.SplitHiddenSubBreaksInv | app.js:322-334 | splitting a sub-slot under an unsubdivided root would break the invariant |
| SplitMerge.FillSubValues | app.js:310 | the `forEach` loop gives every sub-slot the value |
| SplitMerge.FillMicroValues | app.js:332 | the `forEach` loop gives every micro-slot the value |
| SplitMerge.PushMicroValues | app.js:354 | the inner loop appends the micro-slots' values in order |
| SplitMerge.CollectRootValues | app.js:351-358 | the loops collect, sub-slot by sub-slot, the values RootLeafValuesVisible ties to the root's visible leaves |
| SplitMerge.MergeRootSlot | app.js:349-376 | the handler's body leaves the root the merge rule gives, and reports a merge exactly when the root was split and uniform or confirmed |
| SplitMerge.MergeSubSlot | app.js:389-407 | the same for the 10-minute handler's sub-slot |
| Selection.AddSpec | app.js:171 | `set.add` keeps the set duplicate-free, keeps the old ids in place and adds just the one id |
| Selection.AddAllSpec | app.js:242-244 | adding a run gives the union, with the old selection kept as a prefix |
| Selection.IndexOf | app.js:234-235 | `indexOf` gives the first position of the id, or -1 exactly when it is absent |
| Selection.IndexOfNoDup | app.js:234-235 | in a duplicate-free list `indexOf` of the entry at k is k |
| Selection.SelectRangeSymmetric | app.js:239-240 | `selectRange(a, b)` and `selectRange(b, a)` give the same selection |
| Selection.SelectRangeAbsent | app.js:237 | nothing changes unless both ids are listed |
| Selection.AddRunOrdered | app.js:242-244 | the add loop appends only ids of the run, in listing order |
| Selection.SelectRangeSpec | app.js:232-245 | the range adds exactly the ids listed between the two ends, removes nothing, keeps the old order and appends the new ids in listing order |
| Summary.BumpGet | app.js:507-508 | adding d to a code raises that code's minutes by d and no other's |
| Summary.BumpSum | app.js:507-509 | adding d raises the sum of all minutes by d |
| Summary.BumpCodes | app.js:507 | a key is created the first time a code is seen, at the end of the key order |
| Summary.TallyGet | app.js:500-529 | a code's tally is its minutes before plus the minutes of the truthy leaves holding it |
| Summary.TallySum | app.js:500-529 | the tallies sum to the minutes before plus the minutes of all truthy leaves |
| Summary.TallyCodes | app.js:507 | the keys stay duplicate-free and are exactly the old keys plus the codes met |
| Summary.NothingRecorded | app.js:585-588 | the summary is empty exactly when no leaf holds a truthy value |
| Summary.FilledAtMost | app.js:509-526 | the recorded minutes never exceed the minutes walked |
| Summary.PiecesOfLeaves | app.js:500-529 | the walk visits the visible leaves in day order, each with its value and duration |
| Summary.PiecesMinutes | app.js:500-529 | the visible leaves cover 30 minutes per root |
| Summary.TotalBound | app.js:496-529 | `totalMinutes` is at most 30 per root, so at most 960 for the day |
| Summary.SummaryMeaning | app.js:496-529 | each code's total is the minutes of the visible leaves holding it; the totals sum to `totalMinutes`; no key repeats |
| Summary.SummarizeSub | app.js:502-520 | one sub-slot's loop adds exactly that sub-slot's leaves to the summary and the total |
| Summary.SummarizeRoot | app.js:500-528 | one root's loop adds exactly that root's leaves |
| Summary.Summarize | app.js:496-529 | `updateSummary`'s loops compute the tally of the visible leaves and the minutes filled |
| Summary.CopySummary | app.js:557-607 | no report exactly when no leaf holds a truthy value; otherwise the same tally, with the total of its values |
| Labels.ParseClockLabel | app.js:74 | an `H:MM` label reads back as its minute of the day |
| Labels.ParseFormatTime | app.js:592-596 | the report's `HH:MM` reads back as the minute total it renders |
| Labels.ScheduledHeader | app.js:37-45 | a scheduled root starts 30 minutes per position after 7:30 and is labelled with that time |
| Labels.LabelInTime | app.js:76-91 | within a root labelled with its start, every slot's label is the clock time at which it starts |
| Labels.SlotLabelTime | app.js:72-92 | every slot of the day's schedule is labelled with 7:30 plus 30 per root plus its offset |
| Labels.LeavesTile | app.js:211-230 | the listed leaves cover the day end to end: each starts where the previous ends, from 7:30 to 30 minutes per root later |
| Planner.OfferedExactlyActs | app.js:276-295 | the menu offers an item for a visible leaf exactly when that item's handler would act on it |
| Planner.SelectRangeListed | app.js:232-245 | a range over the listed ids keeps the selection made of listed ids without duplicates |
| Planner.AssignStep | app.js:486-488 | each write of the loop succeeds and extends the writes done so far |
| Planner.AssignIds | app.js:486-488 | the `forEach` loop writes the code into the ids in turn, as the assignment of the whole list |
| Planner.AddRun | app.js:242-244 | the add loop adds the run from `from` to `to`, both included |
| Planner.AddRange | app.js:232-245 | the body of `selectRange` computes the range selection |
| Planner.App.constructor | app.js:31-61 | the page starts with the day's schedule, an empty selection, no drag and no menu |
| Planner.App.SelectRange | app.js:232-245 | `selectRange` over the current listing updates the selection to the range selection |
| Planner.App.UpdateDragSelection | app.js:247-255 | the selection becomes the preselection plus the range from drag start to drag position; nothing happens without both ends |
| Planner.App.ShiftSelect | app.js:166-168 | shift-click keeps the old selection as the preselection and adds the range from the last inserted id |
| Planner.App.PointerDown | app.js:158-180 | a non-primary button changes nothing; otherwise the drag starts at the id, with shift-extend, ctrl-add or replace |
| Planner.App.PointerEnter | app.js:182-187 | while dragging, the selection is the preselection plus the range from the drag start; otherwise nothing changes |
| Planner.App.PointerUp | app.js:195-201 | releasing ends the drag and forgets both ends |
| Planner.App.OpenMenu | app.js:257-299 | the menu opens on the leaf the id names and offers the items that would act on it |
| Planner.App.CloseMenu | app.js:203-208 | a click outside the menu hides it and changes nothing else |
| Planner.App.MenuSplitTo10 | app.js:303-319 | an unsubdivided root is split and the selection cleared; the menu closes either way |
| Planner.App.MenuSplitTo1 | app.js:322-341 | a sub-slot target is split if unsubdivided, clearing the selection; a target of another level leaves everything, the menu included, as it was |
| Planner.App.MenuMergeTo30 | app.js:344-379 | the root is merged by the merge rule; the selection is cleared exactly when the merge happens; the menu closes |
| Planner.App.MenuMergeTo10 | app.js:382-410 | a micro-slot target's sub-slot is merged by the merge rule; any other target leaves everything as it was |
| Planner.App.ApplyCode | app.js:480-494 | every selected node gets the code, every other node keeps its value, the invariant holds and the selection ends empty |

## Left out

- Rendering (`renderTimeSlots`, `updateSlotStyles`, `updateSelectionHint`, `renderCodeButtons`, `getValueDisplay`, the display half of `updateSummary`) only writes HTML. It changes no state that the model tracks.
- The code table and descriptions are left out: codes are opaque strings.
- The descending sort of the summary and the report is left out as display only. The sort is stable, so tied codes keep the summary's key order, which TallyCodes and BumpCodes give. The report's text lines, headings and descriptions are left out too.
- The clipboard write and its promise, the toast and its timer are left out: they are external effects.
- The event wiring is left out (`addEventListener`, `preventDefault`, `document.getElementById`). The handlers are the methods of `Planner.App`, called with the event's data.
- Menu placement from the pointer position and window size is left out (display only).
- Planner.App.PointerDown: the mouse button is a `primary` flag, and `ctrl` stands for "ctrlKey or metaKey".
- Planner.App.PointerDown: the id must be a listed id, because events only come from rendered slots.
- Planner.App.OpenMenu: the id must be listed. The target is kept as the address it parses to instead of the split string parts.
- Planner.App.MenuSplitTo10: requires an open menu and no drag in progress. A menu button can only be clicked while the menu is shown, after the mouseup that ends a drag. The `!contextMenuTarget` early return can therefore never fire and is not modelled.
- Planner.App.MenuSplitTo1: requires an open menu and no drag in progress, for the same reason.
- Planner.App.MenuMergeTo30: requires an open menu and no drag in progress, for the same reason. `confirmed` is the answer `confirm()` would give; it is only consulted for a conflict.
- Planner.App.MenuMergeTo10: requires an open menu and no drag in progress, for the same reason. `confirmed` is handled as in MenuMergeTo30.
- Planner.App.ApplyCode: the "select a slot first" toast on an empty selection is not modelled. That path changes nothing, which the contract covers.
- SlotIds.ParseId accepts digit-only parts only. The ids come from the rendered page, so `parseInt`'s leniency on junk such as `"3x"` is not modelled.
- SlotValues.GetSlotValue: an id that names no node gives `None`, where the script would throw or read `undefined`.
- SlotValues.AssignAll: an id that names no node is skipped; the script would throw. Selected ids are always listed, so this case does not arise from the handlers.
- Summary.CopySummary: the report's total is the sum of the tallies, which equals the filled minutes by SummaryMeaning. `Object.values(...).reduce` is not modelled separately.
- The ordering of keys in a JavaScript object is modelled as insertion order. This holds for non-numeric keys such as the codes.
- Labels.SlotLabel: a root index past the end gives `None`, where the script would throw. The rendering loop only labels slots of the schedule.
