/**
 * The items-changed notification that GtkTim2SortModel emits after
 * reconciling its sort array with a source edit: what such a notification
 * promises, the arithmetic the source uses to build it, and a corrected
 * construction.
 */
module Notification {
  import opened SortItems

  /** An items-changed emission: `removed` items at `position` replaced by `added` new ones. */
  datatype Change = Change(position: nat, removed: nat, added: nat)

  /**
   * The notification is truthful about going from view `before` to view
   * `after`: the replaced range lies inside `before`, the sizes match, and the
   * items in front of and behind the range are the same in both views.
   */
  predicate Describes(before: seq<Item>, after: seq<Item>, c: Change) {
    c.position + c.removed <= |before| &&
    |after| == |before| - c.removed + c.added &&
    after[..c.position] == before[..c.position] &&
    after[c.position + c.added..] == before[c.position + c.removed..]
  }

  /** `guint` arithmetic: results are taken modulo 2^32. */
  const U32_MODULUS: int := 0x1_0000_0000

  function U32(x: int): (r: nat) {
    x % U32_MODULUS
  }

  /**
   * The notification as the source computes it from the new array size and
   * the reconciler's `start` and `end`, in unsigned 32-bit arithmetic.
   */
  function ChangeAsWritten(size: nat, start: nat, end: nat, removed: nat, added: nat): (c: Change)
    ensures c.position == start && c.removed < U32_MODULUS && c.added < U32_MODULUS
  {
    var changed := U32(size - start - end);
    Change(start, U32(changed - added + removed), changed)
  }

  /**
   * The number of records at the end of the new array that are known
   * unchanged: none once added records have been appended behind them.
   */
  function UnmodifiedEnd(end: nat, added: nat): (e: nat) {
    if added > 0 then 0 else end
  }

  /** The arithmetic of ReconcileChange stays non-negative. */
  predicate ChangeFits(size: nat, start: nat, end: nat, added: nat) {
    start + UnmodifiedEnd(end, added) + added <= size
  }

  /** The corrected notification: the same construction with UnmodifiedEnd in place of `end`. */
  function ReconcileChange(size: nat, start: nat, end: nat, removed: nat, added: nat): (c: Change)
    requires ChangeFits(size, start, end, added)
    ensures c.position == start && c.position + c.added <= size
    ensures c.added - c.removed == added - removed
  {
    var changed := size - start - UnmodifiedEnd(end, added);
    Change(start, changed - added + removed, changed)
  }

  /**
   * The corrected notification is truthful: for every materialized array and
   * every real edit of its source, it describes the step from the old view
   * to the reconciled array with the added items appended.
   */
  lemma ReconcileChangeDescribes(s: seq<SortItem>, src: seq<Item>, src': seq<Item>,
                                 position: nat, removed: nat, added: nat, start: nat, end: nat)
    requires Materialized(s, src)
    requires EditOf(src, src', position, removed, added)
    requires removed > 0 || added > 0
    requires UnmodifiedBounds(s, position, removed, start, end)
    ensures var after := Reconcile(s, position, removed, added) + Records(src', position, position + added);
      ChangeFits(|after|, start, end, added) &&
      Describes(View(s), View(after), ReconcileChange(|after|, start, end, removed, added))
  {
    var r := Reconcile(s, position, removed, added);
    var appended := Records(src', position, position + added);
    ReconcileMaterialized(s, src, src', position, removed, added);
    ViewAppend(r, appended);
    if NoDropIn(s, 0, |s|, position, removed) {
      if removed > 0 {
        RemovalDrops(s, src, src', position, removed, added);
      }
      ReconcileWithoutDrops(s, position, removed, added);
      InsertionDescribes(View(s), View(r), View(appended));
    } else {
      ReconcileKeepsUnmodified(s, position, removed, added, start, end);
      DropDescribes(View(s), View(r), View(appended), removed, start, end);
    }
  }

  /** Pure insertion: the old view followed by the appended items is an insertion at its end. */
  lemma InsertionDescribes(before: seq<Item>, kept: seq<Item>, appended: seq<Item>)
    requires kept == before && |appended| > 0
    ensures var n := |before|;
      ChangeFits(|kept + appended|, n, n, |appended|) &&
      Describes(before, kept + appended, ReconcileChange(|kept + appended|, n, n, 0, |appended|))
  {
    var n := |before|;
    assert ReconcileChange(|kept + appended|, n, n, 0, |appended|) == Change(n, 0, |appended|);
    assert (kept + appended)[..n] == before;
  }

  /** Something dropped: the untouched prefix and, without appended items, the untouched suffix bound the change. */
  lemma DropDescribes(before: seq<Item>, kept: seq<Item>, appended: seq<Item>, removed: nat, start: nat, end: nat)
    requires |kept| == |before| - removed && removed <= |before|
    requires start + end < |before| && start + end <= |kept|
    requires kept[..start] == before[..start]
    requires kept[|kept| - end..] == before[|before| - end..]
    ensures ChangeFits(|kept + appended|, start, end, |appended|) &&
      Describes(before, kept + appended, ReconcileChange(|kept + appended|, start, end, removed, |appended|))
  {
    var after := kept + appended;
    assert after[..start] == kept[..start];
    if |appended| == 0 {
      assert after == kept;
    }
  }

  /**
   * `c` is the notification for reconciling array `before` into `after`: the
   * change computed from the kept prefix and kept suffix of `before`, which
   * is also what the 32-bit arithmetic of the source yields wherever its
   * bounds are right.
   */
  predicate ReconcileEmits(before: seq<SortItem>, after: seq<SortItem>, position: nat, removed: nat, added: nat, c: Change) {
    var start, end := KeptPrefix(before, position, removed), KeptSuffix(before, position, removed);
    ChangeFits(|after|, start, end, added) &&
    c == ReconcileChange(|after|, start, end, removed, added) &&
    ((added == 0 || end == 0) && |before| < U32_MODULUS && |after| < U32_MODULUS ==>
       c == ChangeAsWritten(|after|, start, end, removed, added))
  }

  // ---------------------------------------------------------------------
  // What the source's own arithmetic emits

  /**
   * Where the source's bounds are right (no record appended behind an
   * untouched suffix) and the sizes fit in 32 bits, its unsigned arithmetic
   * computes exactly the corrected notification.
   */
  lemma ChangeAsWrittenAgrees(size: nat, oldSize: nat, start: nat, end: nat, removed: nat, added: nat)
    requires ChangeFits(size, start, end, added) && (added == 0 || end == 0)
    requires size + removed == oldSize + added && size < U32_MODULUS && oldSize < U32_MODULUS
    ensures ChangeAsWritten(size, start, end, removed, added) == ReconcileChange(size, start, end, removed, added)
  {
    var changed := size - start - end;
    assert UnmodifiedEnd(end, added) == end;
    assert U32(changed) == changed;
    assert 0 <= changed - added + removed <= oldSize;
    assert U32(changed - added + removed) == changed - added + removed;
  }

  /**
   * Inserting into a non-empty sorted array drops nothing, so both bounds
   * equal the old size and the unsigned subtraction wraps: the emitted
   * removed count runs past the end of the old view.
   */
  lemma InsertionChangeAsWrittenOverflows(n: nat, added: nat)
    requires 0 < n < 0x8000_0000 && 0 < added && n + added < U32_MODULUS
    ensures ChangeAsWritten(n + added, n, n, 0, added) == Change(n, U32_MODULUS - n, U32(added - n))
    ensures ChangeAsWritten(n + added, n, n, 0, added).removed > n
  {
    var changed := U32(n + added - n - n);
    if added >= n {
      assert changed == added - n;
      assert U32(changed - added + 0) == U32(0 - n) == U32_MODULUS - n;
    } else {
      assert changed == added - n + U32_MODULUS;
      assert U32(changed - added + 0) == U32(U32_MODULUS - n) == U32_MODULUS - n;
    }
  }

  /**
   * The smallest case: one sorted record, one item inserted behind it. The
   * array is materialized, the edit is an insertion at index 1, and the
   * reconciler's bounds are start = end = 1.
   */
  lemma InsertionExampleEdit()
    ensures var s := [SortItem(Item(0), 0)];
      var src, src' := [Item(0)], [Item(0), Item(1)];
      Materialized(s, src) && EditOf(src, src', 1, 0, 1) &&
      UnmodifiedBounds(s, 1, 0, 1, 1)
  {
    var src, src' := [Item(0)], [Item(0), Item(1)];
    assert src'[..1] == src[..1];
  }

  /**
   * For that insertion the emitted notification claims to remove 2^32 - 1
   * items from a one-item view.
   */
  lemma InsertionChangeAsWrittenExample()
    ensures var s := [SortItem(Item(0), 0)];
      var src' := [Item(0), Item(1)];
      var after := Reconcile(s, 1, 0, 1) + Records(src', 1, 2);
      ChangeAsWritten(|after|, 1, 1, 0, 1) == Change(1, U32_MODULUS - 1, 0) &&
      !Describes(View(s), View(after), ChangeAsWritten(|after|, 1, 1, 0, 1))
  {
    var s := [SortItem(Item(0), 0)];
    assert Reconcile(s, 1, 0, 1) == s;
  }

  /**
   * Replacing an item when the array's tail is kept: view [X, Y], the source
   * replaces X at index 0 with Z. The reconciler reports start = 0, end = 1
   * and the source emits (0, 1, 1), which claims the last item Y survives,
   * but the new view is [Y, Z].
   */
  lemma ReplacementChangeAsWrittenExample()
    ensures var s := [SortItem(Item(0), 0), SortItem(Item(1), 1)];
      var src, src' := [Item(0), Item(1)], [Item(2), Item(1)];
      var after := Reconcile(s, 0, 1, 1) + Records(src', 0, 1);
      Materialized(s, src) && EditOf(src, src', 0, 1, 1) &&
      UnmodifiedBounds(s, 0, 1, 0, 1) &&
      View(after) == [Item(1), Item(2)] &&
      ChangeAsWritten(|after|, 0, 1, 1, 1) == Change(0, 1, 1) &&
      !Describes(View(s), View(after), ChangeAsWritten(|after|, 0, 1, 1, 1))
  {
    var s := [SortItem(Item(0), 0), SortItem(Item(1), 1)];
    var src' := [Item(2), Item(1)];
    assert Records([Item(0), Item(1)], 0, 2) == s;
    assert s[..1] == [SortItem(Item(0), 0)];
    assert Reconcile(s[..1], 0, 1, 1) == [];
    assert Reconcile(s, 0, 1, 1) == [SortItem(Item(1), 1)];
    assert Records(src', 0, 1) == [SortItem(Item(2), 0)];
    var after := [SortItem(Item(1), 1), SortItem(Item(2), 0)];
    assert View(after) == [Item(1), Item(2)];
    assert View(after)[1..] == [Item(2)];
    assert View(s)[1..] == [Item(1)];
  }
}
