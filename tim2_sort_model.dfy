/**
 * GtkTim2SortModel: a list model that shows the items of a source list model
 * in the order of a sorter, sorting incrementally one engine step per idle
 * callback. The sort array is empty while the model passes the source
 * through unsorted.
 */
module Tim2Sort {
  import opened Optional
  import opened SortItems
  import opened Notification

  /** GtkSorterOrder: how much ordering a sorter imposes; NoOrder means do not sort. */
  datatype SorterOrder = PartialOrder | NoOrder | TotalOrder

  /** The source GListModel. Its items change under the sort model, which only reads them. */
  class ListModel {
    var items: seq<Item>
  }

  /** The GtkSorter. The sort model reads its order; its comparison belongs to the engine. */
  class Sorter {
    var order: SorterOrder
  }

  /** The Timsort run as gtk_tim_sort_init and gtk_tim_sort_set_already_sorted set it up. */
  datatype TimSort = TimSort(size: nat, alreadySorted: nat)

  class Tim2SortModel {
    var model: ListModel?
    var sorter: Sorter?
    /** The ongoing sort operation. */
    var sort: TimSort
    /** Whether an idle sort callback is installed (`sort_cb != 0`). */
    var sortCb: bool
    /** The sort array; empty while the model is known unsorted. */
    var items: seq<SortItem>
    /** Every items-changed notification emitted so far, oldest first. */
    var emitted: seq<Change>

    predicate ShouldSort()
      reads this, sorter
    {
      sorter != null && model != null && sorter.order != NoOrder
    }

    predicate IsSorting()
      reads this
    {
      sortCb
    }

    ghost function Source(): seq<Item>
      reads this, model
    {
      if model == null then [] else model.items
    }

    /**
     * The model mirrors source contents `src`: the array is materialized for
     * `src` exactly when sorting applies, and a pending sort covers the whole
     * array.
     */
    ghost predicate MirrorOf(src: seq<Item>)
      reads this, sorter
    {
      (if ShouldSort() then Materialized(items, src) else items == []) &&
      (sortCb ==> sort.size == |items|) &&
      sort.alreadySorted <= sort.size
    }

    ghost predicate Valid()
      reads this, model, sorter
    {
      MirrorOf(Source())
    }

    /**
     * While sorting applies, the view shows exactly the source's items in
     * some order; otherwise the array is empty and the source passes through.
     */
    lemma SortedViewShowsSource()
      requires Valid()
      ensures ShouldSort() ==> model != null && multiset(View(items)) == multiset(model.items)
      ensures !ShouldSort() ==> items == []
    {
      if ShouldSort() {
        MaterializedShowsSource(items, model.items);
      }
    }

    /** A pending sort run covers the whole array, and its already-sorted hint never exceeds it. */
    lemma PendingSortCoversArray()
      requires Valid()
      ensures IsSorting() ==> sort.size == |items|
      ensures sort.alreadySorted <= sort.size
    {
    }

    /** Valid, except that the sorter's order may have changed since the array was built. */
    ghost predicate ValidUpToOrder()
      reads this, model, sorter
    {
      (items != [] ==> model != null && sorter != null && Materialized(items, model.items)) &&
      (sortCb ==> sort.size == |items|) &&
      sort.alreadySorted <= sort.size
    }

    function GetNItems(): (n: nat)
      reads this, model, sorter
      ensures Valid() && items != [] ==> n == |items|
    {
      if model == null then 0 else |model.items|
    }

    /**
     * The item at `position` of the view: the source's item while the model
     * passes through, otherwise the item of that array record.
     */
    function GetItem(position: nat): (r: Option<Item>)
      reads this, model, sorter
      ensures model == null ==> r == None
      ensures Valid() && !ShouldSort() ==>
        r == (if position < |Source()| then Some(Source()[position]) else None)
      ensures Valid() ==> (r.Some? <==> position < GetNItems())
      ensures Valid() && r.Some? ==> r.value in Source()
    {
      if model == null then None
      else if items == [] then
        if position < |model.items| then Some(model.items[position]) else None
      else if position >= |items| then None
      else Some(items[position].item)
    }

    method StopSorting()
      modifies this`sortCb
      ensures !sortCb
    {
      if !sortCb {
        return;
      }
      // gtk_tim_sort_finish releases the run's scratch state; the array stays as it is.
      sortCb := false;
    }

    method StartSorting()
      modifies this`sortCb
      ensures sortCb
    {
      if sortCb {
        return;
      }
      sortCb := true;
    }

    /** Starts a new sort run over the whole array; a run already under way forfeits the hint. */
    method Resort(alreadySorted: nat)
      modifies this`sortCb, this`sort
      ensures sortCb
      ensures sort == TimSort(|items|, if old(sortCb) then 0 else alreadySorted)
    {
      var hint := alreadySorted;
      if IsSorting() {
        hint := 0;
        StopSorting();
      }
      sort := TimSort(|items|, hint);
      StartSorting();
    }

    /**
     * One idle callback: the engine has performed a step, leaving the array
     * as `stepped` and reporting whether work remains. The only promise the
     * engine makes is that a step permutes the array.
     */
    method SortCb(stepped: seq<SortItem>, more: bool) returns (keep: bool)
      requires Valid() && sortCb
      requires multiset(stepped) == multiset(items)
      modifies this
      ensures Valid()
      ensures items == stepped
      ensures model == old(model) && sorter == old(sorter) && sort == old(sort)
      ensures keep == more && sortCb == more
      ensures emitted == old(emitted) + (if more then [Change(0, |items|, |items|)] else [])
    {
      assert |stepped| == |multiset(stepped)| == |items|;
      if ShouldSort() {
        MaterializedPermutes(items, model.items);
        MaterializedPermutes(stepped, model.items);
      }
      items := stepped;
      if more {
        var n := |items|;
        emitted := emitted + [Change(0, n, n)];
        return true;
      }
      StopSorting();
      return false;
    }

    method ClearItems()
      modifies this`sortCb, this`items
      ensures !sortCb && items == []
    {
      StopSorting();
      items := [];
    }

    /** Builds the array from scratch, one record per source item in source order, when sorting applies. */
    method CreateItems()
      modifies this`items
      ensures items == if ShouldSort() then old(items) + Records(model.items, 0, |model.items|) else old(items)
    {
      if !ShouldSort() {
        return;
      }
      var n := |model.items|;
      var i := 0;
      while i < n
        invariant 0 <= i <= n
        invariant items == old(items) + Records(model.items, 0, i)
      {
        RecordsSnoc(model.items, 0, i);
        items := items + [SortItem(model.items[i], i)];
        i := i + 1;
      }
    }

    /**
     * The reconciler: in one pass drops the records of removed source items,
     * shifts the source index of later ones and compacts the array in place;
     * reports how many records before the first and after the last dropped
     * one are untouched.
     */
    method RemoveItems(position: nat, removed: nat, added: nat)
      returns (start: nat, end: nat)
      requires |Reconcile(items, position, removed, added)| == |items| - removed
      modifies this`items
      ensures items == Reconcile(old(items), position, removed, added)
      ensures |items| == |old(items)| - removed
      ensures UnmodifiedBounds(old(items), position, removed, start, end)
    {
      ghost var orig := items;
      // The array is compacted as a value and stored back: nothing else reads it meanwhile.
      var a := items;
      var n := |a|;
      start, end := n, n;
      var valid := 0;
      var i := 0;
      while i < n
        invariant Reconciling(a, orig, i, valid, start, end, position, removed, added)
      {
        var si := a[i];
        if position <= si.position < position + removed {
          DroppedStep(a, orig, i, valid, start, end, position, removed, added);
          start := if start < valid then start else valid;
          end := n - i - 1;
        } else {
          ghost var scanned := a;
          if si.position >= position + removed {
            si := si.(position := si.position - removed + added);
            a := a[i := si];
          }
          if valid < i {
            a := a[valid := si];
          }
          KeptStep(scanned, a, orig, i, valid, start, end, position, removed, added);
          valid := valid + 1;
        }
        i := i + 1;
      }
      assert orig[..n] == orig;
      ScanDone(orig, valid, start, end, position, removed);
      items := a[..valid];
    }

    /**
     * The array work of an items-changed callback while sorting applies:
     * reconcile the array with the edit, append one record per added item,
     * and compute the notification for the step.
     */
    method ReconcileAndAppend(position: nat, removed: nat, added: nat, ghost before: seq<Item>)
      returns (change: Change)
      requires model != null && Materialized(items, before)
      requires EditOf(before, model.items, position, removed, added)
      requires removed > 0 || added > 0
      modifies this`items
      ensures items == Reconcile(old(items), position, removed, added) + Records(model.items, position, position + added)
      ensures Materialized(items, model.items)
      ensures Describes(View(old(items)), View(items), change)
      ensures ReconcileEmits(old(items), items, position, removed, added, change)
    {
      ghost var orig := items;
      ReconcileLength(items, before, position, removed, added);
      var start, end := RemoveItems(position, removed, added);
      ghost var kept := items;
      var i := position;
      while i < position + added
        invariant position <= i <= position + added
        invariant items == kept + Records(model.items, position, i)
        modifies this`items
      {
        RecordsSnoc(model.items, position, i);
        items := items + [SortItem(model.items[i], i)];
        i := i + 1;
      }
      ReconcileMaterialized(orig, before, model.items, position, removed, added);
      ReconcileChangeDescribes(orig, before, model.items, position, removed, added, start, end);
      change := ReconcileChange(|items|, start, end, removed, added);
      BoundsAreKept(orig, position, removed, start, end);
      if (added == 0 || end == 0) && |orig| < U32_MODULUS && |items| < U32_MODULUS {
        ChangeAsWrittenAgrees(|items|, |orig|, start, end, removed, added);
      }
    }

    /**
     * The items-changed callback once sorting applies: stop the sort, bring
     * the array up to date, restart sorting where the source does and emit
     * the notification for the step.
     */
    method SortedItemsChanged(position: nat, removed: nat, added: nat, ghost before: seq<Item>)
      requires model != null && Materialized(items, before)
      requires EditOf(before, model.items, position, removed, added)
      requires removed > 0 || added > 0
      modifies this`items, this`sort, this`sortCb, this`emitted
      ensures items == Reconcile(old(items), position, removed, added) + Records(model.items, position, position + added)
      ensures Materialized(items, model.items)
      ensures |emitted| == |old(emitted)| + 1 && emitted[..|old(emitted)|] == old(emitted)
      ensures Describes(View(old(items)), View(items), emitted[|emitted| - 1])
      ensures ReconcileEmits(old(items), items, position, removed, added, emitted[|emitted| - 1])
      ensures added > 0 ==> sortCb && sort == TimSort(|items|, if old(sortCb) then 0 else |items| - added)
      ensures added == 0 ==> sortCb == old(sortCb) && sort == (if old(sortCb) then TimSort(|items|, 0) else old(sort))
    {
      var wasSorting := IsSorting();
      StopSorting();
      var change := ReconcileAndAppend(position, removed, added, before);
      if added > 0 {
        Resort(if wasSorting then 0 else |items| - added);
      } else if wasSorting {
        Resort(0);
      }
      ghost var log := emitted;
      emitted := emitted + [change];
      assert emitted[..|log|] == log && emitted[|emitted| - 1] == change;
    }

    /**
     * The source reports that `removed` items at `position` were replaced by
     * `added` new ones; `before` is its content before the edit.
     */
    method ItemsChanged(position: nat, removed: nat, added: nat, ghost before: seq<Item>)
      requires model != null
      requires MirrorOf(before)
      requires EditOf(before, model.items, position, removed, added)
      modifies this
      ensures Valid()
      ensures model == old(model) && sorter == old(sorter)
      ensures removed == 0 && added == 0 ==>
        items == old(items) && sortCb == old(sortCb) && sort == old(sort) && emitted == old(emitted)
      ensures (removed > 0 || added > 0) && !ShouldSort() ==>
        items == [] && sortCb == old(sortCb) && sort == old(sort) &&
        emitted == old(emitted) + [Change(position, removed, added)]
      ensures (removed > 0 || added > 0) && ShouldSort() ==>
        items == Reconcile(old(items), position, removed, added) + Records(model.items, position, position + added) &&
        |emitted| == |old(emitted)| + 1 && emitted[..|old(emitted)|] == old(emitted) &&
        Describes(View(old(items)), View(items), emitted[|emitted| - 1]) &&
        ReconcileEmits(old(items), items, position, removed, added, emitted[|emitted| - 1])
      ensures (removed > 0 || added > 0) && ShouldSort() && added > 0 ==>
        sortCb && sort == TimSort(|items|, if old(sortCb) then 0 else |items| - added)
      ensures (removed > 0 || added > 0) && ShouldSort() && added == 0 ==>
        sortCb == old(sortCb) && sort == (if old(sortCb) then TimSort(|items|, 0) else old(sort))
    {
      if removed == 0 && added == 0 {
        EmptyEdit(before, model.items, position);
        assert MirrorOf(model.items);
        return;
      }
      if !ShouldSort() {
        emitted := emitted + [Change(position, removed, added)];
        assert MirrorOf(model.items);
        return;
      }
      SortedItemsChanged(position, removed, added, before);
      assert MirrorOf(model.items);
    }

    /** The sorter's ordering changed: drop, build or keep the array, then restart sorting from scratch. */
    method SorterChanged()
      requires sorter != null && ValidUpToOrder()
      modifies this
      ensures Valid()
      ensures model == old(model) && sorter == old(sorter)
      ensures sorter.order == NoOrder ==> items == []
      ensures sorter.order != NoOrder ==>
        items == (if old(items) == [] && model != null then Records(model.items, 0, |model.items|) else old(items))
      ensures sortCb && sort == TimSort(|items|, 0)
      ensures emitted == old(emitted) + (if GetNItems() > 1 then [Change(0, GetNItems(), GetNItems())] else [])
    {
      if sorter.order == NoOrder {
        ClearItems();
      } else if items == [] {
        CreateItems();
      }
      Resort(0);
      var n := GetNItems();
      if n > 1 {
        emitted := emitted + [Change(0, n, n)];
      }
    }

    method ClearModel()
      modifies this
      ensures model == null && sorter == old(sorter) && sort == old(sort) && emitted == old(emitted)
      ensures old(model) == null ==> items == old(items) && sortCb == old(sortCb)
      ensures old(model) != null ==> items == [] && !sortCb
    {
      if model == null {
        return;
      }
      model := null;
      ClearItems();
    }

    method ClearSorter()
      modifies this
      ensures sorter == null && model == old(model) && sort == old(sort) && emitted == old(emitted)
      ensures old(sorter) == null ==> items == old(items) && sortCb == old(sortCb)
      ensures old(sorter) != null ==> items == [] && !sortCb
    {
      if sorter == null {
        return;
      }
      sorter := null;
      ClearItems();
    }

    /** Replaces the source model; setting the model already in use changes nothing. */
    method SetModel(m: ListModel?)
      requires Valid()
      modifies this
      ensures Valid() && model == m && sorter == old(sorter)
      ensures m == old(model) ==>
        items == old(items) && sortCb == old(sortCb) && sort == old(sort) && emitted == old(emitted)
      ensures m != old(model) && m != null ==>
        items == (if ShouldSort() then Records(m.items, 0, |m.items|) else []) &&
        sortCb && sort == TimSort(|items|, 0)
      ensures m != old(model) && m == null ==> items == [] && !sortCb
      ensures m != old(model) ==>
        emitted == old(emitted) +
          (if old(GetNItems()) > 0 || GetNItems() > 0 then [Change(0, old(GetNItems()), GetNItems())] else [])
    {
      if model == m {
        return;
      }
      var removed := GetNItems();
      ClearModel();
      var added := 0;
      if m != null {
        model := m;
        added := |m.items|;
        CreateItems();
        Resort(0);
      }
      if removed > 0 || added > 0 {
        emitted := emitted + [Change(0, removed, added)];
      }
    }

    /** Replaces the sorter; unlike SetModel there is no same-instance shortcut. */
    method SetSorter(s: Sorter?)
      requires Valid()
      modifies this
      ensures Valid() && sorter == s && model == old(model)
      ensures s != null ==>
        items == (if ShouldSort() then Records(model.items, 0, |model.items|) else []) &&
        sortCb && sort == TimSort(|items|, 0)
      ensures s == null ==> items == [] && sortCb == (old(sortCb) && old(sorter) == null) && sort == old(sort)
      ensures emitted == old(emitted) + (if GetNItems() > 1 then [Change(0, GetNItems(), GetNItems())] else [])
    {
      ClearSorter();
      if s != null {
        sorter := s;
        SorterChanged();
      } else {
        var n := GetNItems();
        if n > 1 {
          emitted := emitted + [Change(0, n, n)];
        }
      }
    }

    method Dispose()
      requires Valid()
      modifies this
      ensures Valid() && model == null && sorter == null && items == []
      ensures sort == old(sort) && emitted == old(emitted)
      ensures old(model) != null || old(sorter) != null ==> !sortCb
      ensures old(model) == null && old(sorter) == null ==> sortCb == old(sortCb)
    {
      ClearModel();
      ClearSorter();
    }

    /** gtk_tim2_sort_model_new: sets the model, then the sorter. */
    constructor (m: ListModel?, s: Sorter?)
      ensures Valid() && model == m && sorter == s
      ensures items == (if ShouldSort() then Records(m.items, 0, |m.items|) else [])
      ensures m != null || s != null ==> sortCb && sort == TimSort(|items|, 0)
      ensures m == null && s == null ==> !sortCb
      ensures emitted ==
        (if m != null && |m.items| > 0 then [Change(0, 0, |m.items|)] else []) +
        (if GetNItems() > 1 then [Change(0, GetNItems(), GetNItems())] else [])
    {
      model, sorter := null, null;
      sort, sortCb := TimSort(0, 0), false;
      items, emitted := [], [];
      new;
      SetModel(m);
      SetSorter(s);
    }
  }
}
