# GtkTim2SortModel and GtkAccessibleRelationSet in Dafny

This project models two parts of GTK.

**GtkTim2SortModel** (`gtk/gtktim2sortmodel.c`) is a list model. It shows the
items of a source `GListModel` in the order of a `GtkSorter`. It sorts
incrementally: one Timsort step runs per idle callback. It keeps a sort array
of `(item, position)` records, where `position` is the item's index in the
source model. The array is empty while the model passes the source through
unsorted. The model covers:

- the sort array as values (module `SortItems`):
  - records and the from-scratch build `Records`;
  - `Materialized`: the array is a permutation of the from-scratch build;
  - `Reconcile`, the reference definition of what `remove_items` leaves: dropped records gone, later records shifted, relative order kept;
- the items-changed notification (module `Notification`): what an emission `(position, removed, added)` promises about the views before and after (`Describes`), the source's unsigned arithmetic for it, and a corrected construction;
- the model object (module `Tim2Sort`):
  - a class with the source's fields `model`, `sorter`, `sort`, `sort_cb` (a boolean) and `items` (a sequence);
  - a log `emitted` of the items-changed signals it emits;
  - the reconciler as a loop over the array's slots, the append loops, and the sorting state machine;
  - `ShouldSort` models `should_sort` (lines 213-219) and `IsSorting` models `is_sorting` (lines 143-147).

The Timsort engine is outside the model. Its step is a parameter of
`SortCb`, and its one promise is that it permutes the array.

**GtkAccessibleRelationSet** (`gtk/gtkaccessiblerelationset.c`) is the set of
accessible relations of an accessible object. It is a membership bitmask
(here a `set<int>`) plus an array of value slots (an `array`). The model
allocates one slot per relation, `SET_SIZE + 1`; the source allocates
`SET_SIZE` slots (line 42), see Findings. The set is printed as a block of
`name: value` lines (module `AccessibleRelationSet`).

Behaviour of the code that the model keeps:

- `set_sorter` has no same-instance shortcut (lines 607-614): setting the current sorter again clears and rebuilds the array. Only `set_model` returns early for the same instance (lines 553-554).
- `get_n_items` always returns the source's size, never the sort array's (lines 104-112).
- A sort step that finishes, with `sort_cb` returning `G_SOURCE_REMOVE`, emits no items-changed signal (lines 186-190).

One behaviour of the code that the model corrects:

- The notification at lines 354-355 uses the unmodified suffix `end` that `remove_items` reports even when records were appended behind it, and its `guint` subtraction wraps when nothing was dropped from a non-empty array. The model emits the corrected notification. It proves that the corrected notification equals the source's expression whenever the source's bounds are right; see Findings and Left out.

## Model

| member | source | states |
|---|---|---|
| Tim2Sort.Tim2SortModel.SortedViewShowsSource | gtk/gtktim2sortmodel.c:213-219 | while sorting applies (sorter and model set, order not NONE), the view shows exactly the source's items as a multiset; otherwise the array is empty and the source passes through |
| Tim2Sort.Tim2SortModel.PendingSortCoversArray | gtk/gtktim2sortmodel.c:143-147 | while a sort callback is pending, the run covers the whole array; the already-sorted hint never exceeds the run's size |
| Tim2Sort.Tim2SortModel.GetNItems | gtk/gtktim2sortmodel.c:103-112 | with a model set, the count is the source's size; once the array is materialized it equals the array's size |
| Tim2Sort.Tim2SortModel.GetItem | gtk/gtktim2sortmodel.c:114-130 | no model gives NULL; in passthrough it is the source's item at that index; an item is returned exactly for positions below the item count, and it is always an item of the source |
| Tim2Sort.Tim2SortModel.StopSorting | gtk/gtktim2sortmodel.c:149-167 | afterwards no sort callback is pending, whether or not one was |
| Tim2Sort.Tim2SortModel.StartSorting | gtk/gtktim2sortmodel.c:193-204 | afterwards a sort callback is pending; one already pending is kept |
| Tim2Sort.Tim2SortModel.Resort | gtk/gtktim2sortmodel.c:248-270 | a new run covers the whole array and sorting is pending; the already-sorted hint is kept only if no run was under way, else it is 0 |
| Tim2Sort.Tim2SortModel.SortCb | gtk/gtktim2sortmodel.c:169-191 | after an engine step that permutes the array, the model is still a valid mirror of the source; with work left it emits (0, n, n) and stays scheduled, otherwise it stops sorting |
| Tim2Sort.Tim2SortModel.ClearItems | gtk/gtktim2sortmodel.c:206-211 | sorting is stopped and the array is empty |
| Tim2Sort.Tim2SortModel.CreateItems | gtk/gtktim2sortmodel.c:221-235 | when sorting applies, the array gains one record (item i, i) per source index in increasing order; otherwise it is untouched |
| Tim2Sort.Tim2SortModel.RemoveItems | gtk/gtktim2sortmodel.c:272-312 | the array becomes its reconciliation (dropped records gone, later indices moved by added - removed, order kept), it loses exactly `removed` records, and `start`/`end` are the lengths of the untouched prefix and suffix, both the old size when nothing is dropped |
| Tim2Sort.Tim2SortModel.ReconcileAndAppend | gtk/gtktim2sortmodel.c:335-355 | the reconciled array followed by the records of the added items in source order is again materialized for the new source; the notification it computes truthfully describes the change of the view, is determined by the kept prefix and suffix of the old array, and equals the source's `guint` expression whenever no record is appended behind an untouched suffix and both sizes fit in 32 bits |
| Tim2Sort.Tim2SortModel.SortedItemsChanged | gtk/gtktim2sortmodel.c:333-355 | the array is reconciled and extended as above; sorting restarts with hint 0 after an interrupted run and with the old kept size after an insertion otherwise, and a removal with no run under way starts none; exactly one notification is appended to the log, truthful and equal to the source's expression where that is right |
| Tim2Sort.Tim2SortModel.ItemsChanged | gtk/gtktim2sortmodel.c:314-356 | an empty edit changes nothing; in passthrough the edit is forwarded as is; otherwise the array is reconciled and extended, one truthful notification is emitted, equal to the source's expression where that is right, and the resort hint is 0 after an interrupted run and the old kept size otherwise; a removal with no run under way starts none; the model stays a valid mirror of the edited source |
| Tim2Sort.Tim2SortModel.SorterChanged | gtk/gtktim2sortmodel.c:410-427 | an order of NONE empties the array, an empty array is built from scratch, otherwise it is kept; a fresh run with hint 0 starts; (0, n, n) is emitted when more than one item is shown |
| Tim2Sort.Tim2SortModel.ClearModel | gtk/gtktim2sortmodel.c:429-438 | the model is unset; if one was set the array is emptied and sorting stops, otherwise nothing changes |
| Tim2Sort.Tim2SortModel.ClearSorter | gtk/gtktim2sortmodel.c:440-449 | the sorter is unset; if one was set the array is emptied and sorting stops, otherwise nothing changes |
| Tim2Sort.Tim2SortModel.SetModel | gtk/gtktim2sortmodel.c:544-575 | setting the current model changes nothing; a new model gets a from-scratch array when sorting applies and a fresh run; one notification replaces all old items by all new ones unless both counts are 0 |
| Tim2Sort.Tim2SortModel.SetSorter | gtk/gtktim2sortmodel.c:600-623 | a sorter always goes through the sorter-changed path: a from-scratch array when sorting applies and a fresh run with hint 0; unsetting it empties the array and leaves the run; either way (0, n, n) is emitted exactly when more than one item is shown |
| Tim2Sort.Tim2SortModel.Dispose | gtk/gtktim2sortmodel.c:451-460 | model and sorter are unset and the array is empty; nothing is emitted and the run is kept; if either was set no sort stays pending, otherwise the pending flag is unchanged |
| Tim2Sort.Tim2SortModel.constructor | gtk/gtktim2sortmodel.c:519-534 | the new model holds the given model and sorter, its array is the from-scratch build when sorting applies; a model or a sorter starts a run with hint 0, neither leaves none pending; the log holds the insertion of the model's items, if any, then (0, n, n) when more than one item is shown |
| SortItems.RecordsSnoc | gtk/gtktim2sortmodel.c:231-234 | building one more record appends (item i, i) at the end |
| SortItems.MaterializedPermutes | gtk/gtktim2sortmodel.c:29-34 | an array of records with distinct valid source indices holding their items is exactly a permutation of the from-scratch build |
| SortItems.ReconcileAppend | gtk/gtktim2sortmodel.c:288-304 | reconciliation goes record by record, so kept records keep their relative order |
| SortItems.ReconcilePermutes | gtk/gtktim2sortmodel.c:288-304 | permuted arrays reconcile to permuted arrays, so an engine step before an edit does not change which records survive |
| SortItems.ReconcileBelow | gtk/gtktim2sortmodel.c:292-294 | records before the edit are kept unchanged |
| SortItems.ReconcileInside | gtk/gtktim2sortmodel.c:294-299 | records inside the removed range are all dropped |
| SortItems.ReconcileAbove | gtk/gtktim2sortmodel.c:292-293 | records after the removed range become the records of the same items at their new source indices |
| SortItems.ReconcileRecords | gtk/gtktim2sortmodel.c:288-304 | reconciling the from-scratch build of the old source gives the new source's build without the added items |
| SortItems.ReconcilePermutesRecords | gtk/gtktim2sortmodel.c:288-344 | a permutation of the old build, reconciled and extended by the added records, loses exactly `removed` records and is a permutation of the new build |
| SortItems.ReconcileMaterialized | gtk/gtktim2sortmodel.c:288-344 | a materialized array, reconciled and extended by the added records, is materialized for the edited source |
| SortItems.ReconcileLength | gtk/gtktim2sortmodel.c:306 | for a materialized array the reconciler keeps exactly n_items - removed records, so the assertion holds |
| SortItems.ReconcileWithoutDrops | gtk/gtktim2sortmodel.c:284-285 | when no record is dropped the view is unchanged |
| SortItems.RemovalDrops | gtk/gtktim2sortmodel.c:294-299 | when a materialized array loses items, at least one record is dropped |
| SortItems.KeptStep | gtk/gtktim2sortmodel.c:292-303 | a kept record, shifted in its slot and copied down to slot `valid`, extends the compacted prefix by its reconciliation and leaves the bounds alone |
| SortItems.DroppedStep | gtk/gtktim2sortmodel.c:294-299 | a dropped record adds nothing to the compacted prefix; `start` becomes the first drop and `end` counts the records after this one |
| SortItems.ScanDone | gtk/gtktim2sortmodel.c:284-297 | after the scan, `start` and `end` bound the first and last dropped records, or both equal the size |
| SortItems.KeptPrefixIsFirstDrop | gtk/gtktim2sortmodel.c:295 | the kept prefix has no dropped record and ends at the first dropped one, if any |
| SortItems.KeptSuffixIsLastDrop | gtk/gtktim2sortmodel.c:296 | the kept suffix has no dropped record and starts right after the last dropped one, if any |
| SortItems.BoundsAreKept | gtk/gtktim2sortmodel.c:310-311 | the bounds the reconciler reports are the lengths of the kept prefix and kept suffix of the old array |
| SortItems.MaterializedShowsSource | gtk/gtktim2sortmodel.c:114-130 | a materialized array shows exactly the source's items, as a multiset |
| SortItems.ReconcileKeepsUnmodified | gtk/gtktim2sortmodel.c:295-297 | the first `start` and last `end` items of the view survive reconciliation unchanged |
| Notification.ChangeAsWritten | gtk/gtktim2sortmodel.c:354-355 | the source's emission starts at `start`, and both its counts are reduced modulo 2^32 as `guint` arithmetic does |
| Notification.ReconcileChange | gtk/gtktim2sortmodel.c:354-355 | the corrected emission starts at `start`, ends within the new view, and changes the size by the edit's `added - removed` |
| Notification.ChangeAsWrittenAgrees | gtk/gtktim2sortmodel.c:354-355 | when no record is appended behind an untouched suffix and both sizes fit in 32 bits, the source's expression equals the corrected notification |
| Notification.ReconcileChangeDescribes | gtk/gtktim2sortmodel.c:354-355 | for every materialized array and every non-empty edit, the corrected notification describes the step from the old view to the new one |
| Notification.InsertionDescribes | gtk/gtktim2sortmodel.c:338-344 | a pure insertion is described as adding the appended items at the old end |
| Notification.DropDescribes | gtk/gtktim2sortmodel.c:354-355 | with something dropped, the untouched prefix, and without appended items the untouched suffix, bound the change |
| Notification.InsertionChangeAsWrittenOverflows | gtk/gtktim2sortmodel.c:354-355 | for a pure insertion into a non-empty array, the unsigned arithmetic gives a removed count past the end of the old view |
| Notification.InsertionExampleEdit | gtk/gtktim2sortmodel.c:284-285 | a one-record array and an insertion behind it form a real edit whose bounds are start = end = 1 |
| Notification.InsertionChangeAsWrittenExample | gtk/gtktim2sortmodel.c:354-355 | for that insertion the emission claims to remove 2^32 - 1 items and does not describe the change |
| Notification.ReplacementChangeAsWrittenExample | gtk/gtktim2sortmodel.c:354-355 | replacing the first of two items emits (0, 1, 1), which wrongly claims the old last item is still last |
| AccessibleRelationSet.SetSizeSlotMissingAsWritten | gtk/gtkaccessiblerelationset.c:29-46 | the guard accepts SET_SIZE, which has no slot among the 17 allocated, and neither has the last printed name |
| AccessibleRelationSet.RelationIndexInBounds | gtk/gtkaccessiblerelationset.c:94-95 | with one slot per relation, every relation the guard accepts and every printed name has a slot |
| AccessibleRelationSet.RelationSet.constructor | gtk/gtkaccessiblerelationset.c:38-57 | a new set has no member, every relation the guards accept has a slot, and every slot holds its relation's default value |
| AccessibleRelationSet.RelationSet.Contains | gtk/gtkaccessiblerelationset.c:119-128 | true exactly for members; false for any number outside the relations |
| AccessibleRelationSet.RelationSet.GetValue | gtk/gtkaccessiblerelationset.c:130-139 | NULL outside the relations, else the relation's slot, which is set for every member |
| AccessibleRelationSet.RelationSet.Add | gtk/gtkaccessiblerelationset.c:89-103 | afterwards the relation is a member holding the new value; a member's old value is released; every other relation's membership and value are unchanged; numbers outside the relations change nothing |
| AccessibleRelationSet.RelationSet.Remove | gtk/gtkaccessiblerelationset.c:105-117 | a member leaves the set and its slot becomes NULL, not the default, with the old value released; a non-member changes nothing; other relations are unchanged |
| AccessibleRelationSet.RelationSet.Print | gtk/gtkaccessiblerelationset.c:170-198 | appends "{}" for an empty set when only members are wanted, else "{\n", one line per listed relation in relation order, and "}" |
| AccessibleRelationSet.RelationSet.ToString | gtk/gtkaccessiblerelationset.c:209-217 | the string is the members-only printout |
| AccessibleRelationSet.AllMembersLinesAgree | gtk/gtkaccessiblerelationset.c:183-186 | when every relation is a member, the members-only lines equal the full lines |
| AccessibleRelationSet.MemberLinesOnlyReadMembers | gtk/gtkaccessiblerelationset.c:183-192 | the members-only printout reads only the members' slots |
| AccessibleRelationSet.SingleMemberLines | gtk/gtkaccessiblerelationset.c:183-194 | with one member, the lines are that member's line alone |
| AccessibleRelationSet.SingleMemberPrinted | gtk/gtkaccessiblerelationset.c:141-198 | a one-member set prints as a braced block holding exactly its name and value |

## Left out

- The Timsort engine (`gtk_tim_sort_init`, `step`, `finish`, `set_already_sorted`) is not part of this model. It is reduced to the run's size and hint, and a step is a parameter that only permutes the array. No claim about sortedness, stability or termination is made.
- Tim2Sort.Tim2SortModel.StopSorting: `gtk_tim_sort_finish` is taken to leave the array as it is.
- Tim2Sort.Tim2SortModel.SortCb: the step's result array and its more-work flag are parameters.
- Tim2Sort.Tim2SortModel.RemoveItems: its requires is the weakest precondition of the assertion at line 306: the reconciliation keeps exactly n_items - removed records. `SortItems.ReconcileLength` proves that every materialized array meets it.
- Tim2Sort.Tim2SortModel.ItemsChanged: the source content before the edit is a ghost parameter, since the source model only reports the edit.
- The `SortArray` vector (`gtkvectorimpl.c`) is a Dafny sequence. `remove_items` compacts a copy of it slot by slot and stores the result back. Its `reserve` and the `memset` at line 307 are not modelled.
- Tim2Sort.Tim2SortModel.ItemsChanged: emits the corrected notification, not the `guint` expression at lines 354-355. The two are proved equal unless records are appended behind a non-empty unmodified suffix or a size reaches 2^32. In those cases the source's emission exists only as `Notification.ChangeAsWritten`; see Findings.
- Tim2Sort.Tim2SortModel.SortedItemsChanged: logs the corrected notification, as `ItemsChanged` does.
- Tim2Sort.Tim2SortModel.ReconcileAndAppend: computes the corrected notification, as `ItemsChanged` does.
- AccessibleRelationSet.RelationSet.constructor: allocates `RELATION_SLOTS` = 18 slots, `SET_SIZE + 1`, the corrected count; `Valid` states that every relation the guards accept has a slot. The source allocates 17 (line 42), so the model does not show the access to the missing slot 17; see Findings.
- Idle scheduling (`g_idle_add`, `g_source_remove`), handler ids, profiler marks, the monotonic clock and the `steps` field are not modelled. `sort_cb` is a boolean.
- GObject plumbing is not modelled: properties, `set_property`/`get_property`, `notify`, signal connection and disconnection, `class_init`, `get_item_type`, and the `get_model`/`get_sorter` getters. Emitted items-changed signals are a log.
- `gtk_sorter_compare` is not modelled, and `gtk_sorter_get_order` is the `order` field of the sorter.
- Reference counting is not modelled: `g_object_ref`, `g_clear_object` and `sort_item_clear`, and `g_rc_box_*` with `gtk_accessible_relation_set_ref`, `unref` and `free`. For the relation set, a ghost log `released` records every value reference the set gives up.
- AccessibleRelationSet.RelationSet.Add: adding a non-member overwrites its slot without releasing the default value there, as the source does; the log shows this.
- `gtk_accessible_value_get_default_for_relation` gives the opaque value `DefaultFor(r)`. `gtk_accessible_value_print` is the `render` parameter of `Print`.
- Unsigned 32-bit wrap-around is modelled only in `Notification.ChangeAsWritten`, the source's notification arithmetic at lines 354-355. The notification the model emits, the sum `position + removed` and the array sizes are unbounded.
- `gtk/gtkatcontext.c`, `gtk/gtktestatcontext.c` and `gtk/gtktestatcontext.h` are not part of this model. `gtk/gtkaccessiblerelationsetprivate.h` holds only declarations.

## Findings

| source | as written | input that shows it | evidently intended | confidence | as-written member | corrected member |
|---|---|---|---|---|---|---|
| gtk/gtktim2sortmodel.c:354-355 | with nothing dropped, `start == end == n_items` and `size - start - end` wraps in `guint` | one sorted item, one item inserted behind it: emits (1, 2^32 - 1, 0) | emit the insertion (n, 0, added) | not executed | Notification.InsertionChangeAsWrittenExample | Notification.ReconcileChangeDescribes |
| gtk/gtktim2sortmodel.c:354-355 | `end` counts old trailing records as unchanged even after `added` records were appended behind them | view [X, Y], the source replaces X by Z: emits (0, 1, 1) but the new view is [Y, Z] | treat no suffix as unmodified when `added > 0` | not executed | Notification.ReplacementChangeAsWrittenExample | Notification.ReconcileChangeDescribes |
| gtk/gtkaccessiblerelationset.c:29 | `LAST_RELATION` is `SET_SIZE` (17), the value array has 17 slots, but every guard accepts 17 and `print` walks 18 names | `add`, `remove`, `get_value` or `print` with relation `SET_SIZE` indexes slot 17 | allocate one slot per relation, `SET_SIZE + 1` | not executed | AccessibleRelationSet.SetSizeSlotMissingAsWritten | AccessibleRelationSet.RelationIndexInBounds |
