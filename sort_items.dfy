/**
 * The sort array of GtkTim2SortModel as values: records pairing an item with
 * its index in the source list model, the array built from scratch for a
 * source, and the reconciliation that a source edit applies to it.
 */
module SortItems {

  /** An opaque item handle of the source list model; only its identity matters. */
  datatype Item = Item(id: nat)

  /** One record of the sort array: the item and its last known index in the source. */
  datatype SortItem = SortItem(item: Item, position: nat)

  /** The records for source indices lo .. hi-1, each paired with its index, in source order. */
  function Records(src: seq<Item>, lo: nat, hi: nat): (r: seq<SortItem>)
    requires lo <= hi <= |src|
    ensures |r| == hi - lo
  {
    seq(hi - lo, k requires 0 <= k < hi - lo => SortItem(src[lo + k], lo + k))
  }

  /**
   * The array holds exactly the records a from-scratch build of `src` holds,
   * in some order: as many records as the source has items, each position a
   * valid source index holding the record's item, and no position twice.
   */
  ghost predicate Materialized(s: seq<SortItem>, src: seq<Item>) {
    |s| == |src| &&
    (forall k :: 0 <= k < |s| ==> s[k].position < |src| && src[s[k].position] == s[k].item) &&
    (forall j, k :: 0 <= j < k < |s| ==> s[j].position != s[k].position)
  }

  /** The array is a permutation of the from-scratch build of `src`. */
  ghost predicate PermutesRecords(s: seq<SortItem>, src: seq<Item>) {
    multiset(s) == multiset(Records(src, 0, |src|))
  }

  /** The items of the array in view order: what the sorted list model shows. */
  function View(s: seq<SortItem>): (v: seq<Item>)
    ensures |v| == |s|
  {
    seq(|s|, k requires 0 <= k < |s| => s[k].item)
  }

  /**
   * `after` is `before` with `removed` items at `position` replaced by `added`
   * new ones: the shape of every items-changed emission of a list model.
   */
  predicate EditOf(before: seq<Item>, after: seq<Item>, position: nat, removed: nat, added: nat) {
    position + removed <= |before| &&
    |after| == |before| - removed + added &&
    after[..position] == before[..position] &&
    after[position + added..] == before[position + removed..]
  }

  /** An edit that removes and adds nothing leaves the list as it was. */
  lemma EmptyEdit(before: seq<Item>, after: seq<Item>, position: nat)
    requires EditOf(before, after, position, 0, 0)
    ensures after == before
  {
    assert after == after[..position] + after[position..];
    assert before == before[..position] + before[position..];
  }

  /** The record's source item lies in the removed range. */
  predicate Dropped(si: SortItem, position: nat, removed: nat) {
    position <= si.position < position + removed
  }

  /** A record past the removed range moves by `added - removed`; any other is left alone. */
  function Shift(si: SortItem, position: nat, removed: nat, added: nat): (r: SortItem) {
    if si.position >= position + removed then si.(position := si.position - removed + added) else si
  }

  /**
   * The array that reconciling `s` with an edit leaves: the dropped records
   * are gone, the others are shifted and keep their relative order.
   */
  function Reconcile(s: seq<SortItem>, position: nat, removed: nat, added: nat): (r: seq<SortItem>)
    ensures |r| <= |s|
  {
    if s == [] then []
    else
      var kept := Reconcile(s[..|s| - 1], position, removed, added);
      var last := s[|s| - 1];
      if Dropped(last, position, removed) then kept else kept + [Shift(last, position, removed, added)]
  }

  /** No record of s[lo..hi] is dropped. */
  predicate NoDropIn(s: seq<SortItem>, lo: nat, hi: nat, position: nat, removed: nat)
    requires lo <= hi <= |s|
  {
    forall k :: lo <= k < hi ==> !Dropped(s[k], position, removed)
  }

  /**
   * `start` and `end` as the reconciler reports them: with nothing dropped,
   * both are the array size; otherwise `start` is the index of the first
   * dropped record and `end` the number of records after the last one.
   */
  predicate UnmodifiedBounds(s: seq<SortItem>, position: nat, removed: nat, start: nat, end: nat) {
    (NoDropIn(s, 0, |s|, position, removed) && start == |s| && end == |s|) ||
    (start < |s| - end &&
     Dropped(s[start], position, removed) && Dropped(s[|s| - 1 - end], position, removed) &&
     NoDropIn(s, 0, start, position, removed) && NoDropIn(s, |s| - end, |s|, position, removed))
  }

  /** The length of the longest prefix of `s` without a dropped record. */
  function KeptPrefix(s: seq<SortItem>, position: nat, removed: nat): (start: nat)
    ensures start <= |s|
  {
    if s == [] || Dropped(s[0], position, removed) then 0
    else 1 + KeptPrefix(s[1..], position, removed)
  }

  /** The length of the longest suffix of `s` without a dropped record. */
  function KeptSuffix(s: seq<SortItem>, position: nat, removed: nat): (end: nat)
    ensures end <= |s|
  {
    if s == [] || Dropped(s[|s| - 1], position, removed) then 0
    else 1 + KeptSuffix(s[..|s| - 1], position, removed)
  }

  /** No record before KeptPrefix is dropped, and the one at KeptPrefix, if any, is. */
  lemma {:induction false} KeptPrefixIsFirstDrop(s: seq<SortItem>, position: nat, removed: nat)
    ensures var start := KeptPrefix(s, position, removed);
      NoDropIn(s, 0, start, position, removed) && (start < |s| ==> Dropped(s[start], position, removed))
  {
    if s != [] && !Dropped(s[0], position, removed) {
      KeptPrefixIsFirstDrop(s[1..], position, removed);
      var start := KeptPrefix(s, position, removed);
      forall k | 0 <= k < start
        ensures !Dropped(s[k], position, removed)
      {
        if k > 0 {
          assert s[k] == s[1..][k - 1];
        }
      }
    }
  }

  /** No record in the last KeptSuffix is dropped, and the one just before them, if any, is. */
  lemma {:induction false} KeptSuffixIsLastDrop(s: seq<SortItem>, position: nat, removed: nat)
    ensures var end := KeptSuffix(s, position, removed);
      NoDropIn(s, |s| - end, |s|, position, removed) && (end < |s| ==> Dropped(s[|s| - 1 - end], position, removed))
  {
    if s != [] && !Dropped(s[|s| - 1], position, removed) {
      var init := s[..|s| - 1];
      KeptSuffixIsLastDrop(init, position, removed);
      var end := KeptSuffix(s, position, removed);
      forall k | |s| - end <= k < |s|
        ensures !Dropped(s[k], position, removed)
      {
        if k < |s| - 1 {
          assert s[k] == init[k];
        }
      }
    }
  }

  /**
   * The bounds the reconciler reports are determined by the array alone:
   * the kept prefix and the kept suffix.
   */
  lemma BoundsAreKept(s: seq<SortItem>, position: nat, removed: nat, start: nat, end: nat)
    requires UnmodifiedBounds(s, position, removed, start, end)
    ensures start == KeptPrefix(s, position, removed) && end == KeptSuffix(s, position, removed)
  {
    KeptPrefixIsFirstDrop(s, position, removed);
    KeptSuffixIsLastDrop(s, position, removed);
  }

  /**
   * The in-place reconciler after scanning s[..i]: the first `valid` slots of
   * `a` hold the reconciled prefix and the slots from `i` on are untouched.
   */
  predicate Compacting(a: seq<SortItem>, s: seq<SortItem>, i: nat, valid: nat, position: nat, removed: nat, added: nat) {
    valid <= i <= |a| == |s| &&
    a[..valid] == Reconcile(s[..i], position, removed, added) &&
    forall k :: i <= k < |a| ==> a[k] == s[k]
  }

  /**
   * The reconciler's bounds after scanning s[..i], of which `valid` records
   * were kept: nothing dropped so far, or the first and last drops so far.
   */
  predicate ScanBounds(s: seq<SortItem>, i: nat, valid: nat, start: nat, end: nat, position: nat, removed: nat)
    requires i <= |s|
  {
    var n := |s|;
    (start == n && end == n && valid == i && NoDropIn(s, 0, i, position, removed)) ||
    (start <= valid && start < n - end && n - end <= i &&
     Dropped(s[start], position, removed) && Dropped(s[n - 1 - end], position, removed) &&
     NoDropIn(s, 0, start, position, removed) && NoDropIn(s, n - end, i, position, removed))
  }

  /** The reconciler's loop invariant: the array compacted so far and the bounds found so far. */
  predicate Reconciling(a: seq<SortItem>, s: seq<SortItem>, i: nat, valid: nat, start: nat, end: nat,
                        position: nat, removed: nat, added: nat) {
    i <= |s| && Compacting(a, s, i, valid, position, removed, added) &&
    ScanBounds(s, i, valid, start, end, position, removed)
  }

  /**
   * Scanning a kept record: it is shifted in its own slot and, when records
   * were dropped before it, copied down to slot `valid`; the bounds stay.
   */
  lemma KeptStep(a: seq<SortItem>, b: seq<SortItem>, s: seq<SortItem>, i: nat, valid: nat, start: nat, end: nat,
                 position: nat, removed: nat, added: nat)
    requires i < |s| && Reconciling(a, s, i, valid, start, end, position, removed, added)
    requires !Dropped(a[i], position, removed)
    requires |b| == |a| && b[valid] == Shift(a[i], position, removed, added)
    requires forall k :: 0 <= k < valid ==> b[k] == a[k]
    requires forall k :: i < k < |a| ==> b[k] == a[k]
    ensures Reconciling(b, s, i + 1, valid + 1, start, end, position, removed, added)
  {
    ReconcileStep(s, i, position, removed, added);
    assert b[..valid + 1] == a[..valid] + [b[valid]];
  }

  /** Scanning a dropped record: nothing is kept, the first drop is set once and the last one moves here. */
  lemma DroppedStep(a: seq<SortItem>, s: seq<SortItem>, i: nat, valid: nat, start: nat, end: nat,
                    position: nat, removed: nat, added: nat)
    requires i < |s| && Reconciling(a, s, i, valid, start, end, position, removed, added)
    requires Dropped(a[i], position, removed)
    ensures Reconciling(a, s, i + 1, valid, if start < valid then start else valid, |s| - i - 1, position, removed, added)
  {
    ReconcileStep(s, i, position, removed, added);
  }

  lemma ScanDone(s: seq<SortItem>, valid: nat, start: nat, end: nat, position: nat, removed: nat)
    requires ScanBounds(s, |s|, valid, start, end, position, removed)
    ensures UnmodifiedBounds(s, position, removed, start, end)
  {
  }

  // ---------------------------------------------------------------------
  // Records

  lemma RecordsSnoc(src: seq<Item>, lo: nat, hi: nat)
    requires lo <= hi < |src|
    ensures Records(src, lo, hi + 1) == Records(src, lo, hi) + [SortItem(src[hi], hi)]
  {
  }

  lemma RecordsSplit(src: seq<Item>, lo: nat, mid: nat, hi: nat)
    requires lo <= mid <= hi <= |src|
    ensures Records(src, lo, hi) == Records(src, lo, mid) + Records(src, mid, hi)
  {
  }

  /** Records of a range depend only on the source items in that range. */
  lemma RecordsAgree(src: seq<Item>, src': seq<Item>, lo: nat, hi: nat)
    requires lo <= hi <= |src| && hi <= |src'|
    requires src[lo..hi] == src'[lo..hi]
    ensures Records(src, lo, hi) == Records(src', lo, hi)
  {
    forall k | 0 <= k < hi - lo
      ensures Records(src, lo, hi)[k] == Records(src', lo, hi)[k]
    {
      assert src[lo + k] == src[lo..hi][k] == src'[lo..hi][k] == src'[lo + k];
    }
  }

  /** A from-scratch build holds each (item, index) record at most once. */
  lemma {:induction false} RecordsOccurOnce(src: seq<Item>, lo: nat, hi: nat, x: SortItem)
    requires lo <= hi <= |src|
    ensures multiset(Records(src, lo, hi))[x] <= 1
    ensures x in Records(src, lo, hi) ==> lo <= x.position < hi && x.item == src[x.position]
    decreases hi - lo
  {
    if lo < hi {
      RecordsSnoc(src, lo, hi - 1);
      RecordsOccurOnce(src, lo, hi - 1, x);
      var last := SortItem(src[hi - 1], hi - 1);
      assert multiset(Records(src, lo, hi)) == multiset(Records(src, lo, hi - 1)) + multiset{last};
      if x == last {
        assert x !in Records(src, lo, hi - 1);
      }
    }
  }

  /** Records with pairwise distinct positions occur at most once each. */
  lemma {:induction false} DistinctOccurOnce(s: seq<SortItem>, x: SortItem)
    requires forall j, k :: 0 <= j < k < |s| ==> s[j].position != s[k].position
    ensures multiset(s)[x] <= 1
    decreases |s|
  {
    if s != [] {
      var t, last := s[..|s| - 1], s[|s| - 1];
      assert s == t + [last];
      assert forall j, k :: 0 <= j < k < |t| ==> t[j].position != t[k].position by {
        forall j, k | 0 <= j < k < |t| ensures t[j].position != t[k].position {
          assert t[j] == s[j] && t[k] == s[k];
        }
      }
      DistinctOccurOnce(t, x);
      if x == last {
        forall j | 0 <= j < |t| ensures t[j] != x {
          assert t[j] == s[j];
        }
      }
    }
  }

  /** A sub-multiset as large as its super-multiset is equal to it. */
  lemma SubMultisetEqual(a: multiset<SortItem>, b: multiset<SortItem>)
    requires a <= b && |a| == |b|
    ensures a == b
  {
    assert b == a + (b - a);
    assert |b - a| == 0;
  }

  /**
   * Materialized states record by record what being a permutation of the
   * from-scratch build means: the two descriptions agree on every array.
   */
  lemma MaterializedPermutes(s: seq<SortItem>, src: seq<Item>)
    ensures Materialized(s, src) <==> PermutesRecords(s, src)
  {
    var build := Records(src, 0, |src|);
    if Materialized(s, src) {
      forall x ensures multiset(s)[x] <= multiset(build)[x] {
        DistinctOccurOnce(s, x);
        if x in s {
          assert build[x.position] == x;
        }
      }
      SubMultisetEqual(multiset(s), multiset(build));
    }
    if PermutesRecords(s, src) {
      assert |s| == |multiset(s)| == |multiset(build)| == |src|;
      forall k | 0 <= k < |s|
        ensures s[k].position < |src| && src[s[k].position] == s[k].item
      {
        assert s[k] in multiset(s);
        RecordsOccurOnce(src, 0, |src|, s[k]);
      }
      forall j, k | 0 <= j < k < |s|
        ensures s[j].position != s[k].position
      {
        if s[j].position == s[k].position {
          assert s[j] == s[k];
          var x := s[j];
          assert s == s[..j] + [x] + s[j + 1..k] + [x] + s[k + 1..];
          assert multiset(s)[x] >= 2;
          RecordsOccurOnce(src, 0, |src|, x);
        }
      }
    }
  }

  // ---------------------------------------------------------------------
  // Reconcile

  /** Reconciliation works record by record: it distributes over concatenation, so it keeps relative order. */
  lemma {:induction false} ReconcileAppend(s: seq<SortItem>, t: seq<SortItem>, position: nat, removed: nat, added: nat)
    ensures Reconcile(s + t, position, removed, added) ==
            Reconcile(s, position, removed, added) + Reconcile(t, position, removed, added)
    decreases |t|
  {
    if t == [] {
      assert s + t == s;
    } else {
      var t' := t[..|t| - 1];
      assert (s + t)[..|s + t| - 1] == s + t';
      assert (s + t)[|s + t| - 1] == t[|t| - 1];
      ReconcileAppend(s, t', position, removed, added);
    }
  }

  /** Reconciling one more record of `s` appends that record, shifted, unless it is dropped. */
  lemma ReconcileStep(s: seq<SortItem>, i: nat, position: nat, removed: nat, added: nat)
    requires i < |s|
    ensures Reconcile(s[..i + 1], position, removed, added) ==
            Reconcile(s[..i], position, removed, added) +
            (if Dropped(s[i], position, removed) then [] else [Shift(s[i], position, removed, added)])
  {
    assert s[..i + 1][..i] == s[..i];
  }

  /** The last record of `x` occurs in its permutation `y`; without it the two are still permutations. */
  lemma MatchLast(x: seq<SortItem>, y: seq<SortItem>) returns (j: nat)
    requires multiset(x) == multiset(y) && x != []
    ensures j < |y| && y[j] == x[|x| - 1]
    ensures multiset(x[..|x| - 1]) == multiset(y[..j] + y[j + 1..])
  {
    var e := x[|x| - 1];
    var x' := x[..|x| - 1];
    assert x == x' + [e];
    assert e in multiset(y);
    j :| 0 <= j < |y| && y[j] == e;
    var y1, y2 := y[..j], y[j + 1..];
    assert y == y1 + [e] + y2;
    calc {
      multiset(x');
      multiset(x) - multiset{e};
      multiset(y) - multiset{e};
      { assert multiset(y) == multiset(y1) + multiset{e} + multiset(y2); }
      multiset(y1) + multiset(y2);
      multiset(y1 + y2);
    }
  }

  /** Reconciling arrays with the same records yields arrays with the same records. */
  lemma {:induction false} ReconcilePermutes(x: seq<SortItem>, y: seq<SortItem>, position: nat, removed: nat, added: nat)
    requires multiset(x) == multiset(y)
    ensures multiset(Reconcile(x, position, removed, added)) == multiset(Reconcile(y, position, removed, added))
    decreases |x|
  {
    if x == [] {
      assert |y| == |multiset(y)| == 0;
    } else {
      var j := MatchLast(x, y);
      var e, x' := x[|x| - 1], x[..|x| - 1];
      var y1, y2 := y[..j], y[j + 1..];
      assert x == x' + [e];
      assert y == y1 + [e] + y2;
      ReconcilePermutes(x', y1 + y2, position, removed, added);
      var re := Reconcile([e], position, removed, added);
      assert Reconcile(x, position, removed, added) == Reconcile(x', position, removed, added) + re by {
        ReconcileAppend(x', [e], position, removed, added);
      }
      var r1, r2 := Reconcile(y1, position, removed, added), Reconcile(y2, position, removed, added);
      assert Reconcile(y, position, removed, added) == r1 + re + r2 by {
        ReconcileAppend(y1 + [e], y2, position, removed, added);
        ReconcileAppend(y1, [e], position, removed, added);
      }
      assert Reconcile(y1 + y2, position, removed, added) == r1 + r2 by {
        ReconcileAppend(y1, y2, position, removed, added);
      }
      assert multiset(r1 + re + r2) == multiset(r1 + r2) + multiset(re);
    }
  }

  /** Records below the removed range survive unchanged. */
  lemma {:induction false} ReconcileBelow(src: seq<Item>, lo: nat, hi: nat, position: nat, removed: nat, added: nat)
    requires lo <= hi <= |src| && hi <= position
    ensures Reconcile(Records(src, lo, hi), position, removed, added) == Records(src, lo, hi)
    decreases hi - lo
  {
    if lo < hi {
      RecordsSnoc(src, lo, hi - 1);
      ReconcileBelow(src, lo, hi - 1, position, removed, added);
      ReconcileAppend(Records(src, lo, hi - 1), [SortItem(src[hi - 1], hi - 1)], position, removed, added);
    }
  }

  /** Records inside the removed range all go. */
  lemma {:induction false} ReconcileInside(src: seq<Item>, lo: nat, hi: nat, position: nat, removed: nat, added: nat)
    requires position <= lo <= hi <= |src| && hi <= position + removed
    ensures Reconcile(Records(src, lo, hi), position, removed, added) == []
    decreases hi - lo
  {
    if lo < hi {
      RecordsSnoc(src, lo, hi - 1);
      ReconcileInside(src, lo, hi - 1, position, removed, added);
      ReconcileAppend(Records(src, lo, hi - 1), [SortItem(src[hi - 1], hi - 1)], position, removed, added);
    }
  }

  /** Records past the removed range become the records of the same items at their new indices. */
  lemma {:induction false} ReconcileAbove(src: seq<Item>, src': seq<Item>, lo: nat, hi: nat, position: nat, removed: nat, added: nat)
    requires EditOf(src, src', position, removed, added)
    requires position + removed <= lo <= hi <= |src|
    ensures Reconcile(Records(src, lo, hi), position, removed, added) ==
            Records(src', lo - removed + added, hi - removed + added)
    decreases hi - lo
  {
    if lo < hi {
      var q := hi - 1;
      RecordsSnoc(src, lo, q);
      RecordsSnoc(src', lo - removed + added, q - removed + added);
      ReconcileAbove(src, src', lo, q, position, removed, added);
      ReconcileAppend(Records(src, lo, q), [SortItem(src[q], q)], position, removed, added);
      assert src'[q - removed + added] == src'[position + added..][q - position - removed]
                                       == src[position + removed..][q - position - removed] == src[q];
    }
  }

  /** Reconciling a from-scratch build gives the new source's build minus the added items. */
  lemma ReconcileRecords(src: seq<Item>, src': seq<Item>, position: nat, removed: nat, added: nat)
    requires EditOf(src, src', position, removed, added)
    ensures Reconcile(Records(src, 0, |src|), position, removed, added) ==
            Records(src', 0, position) + Records(src', position + added, |src'|)
  {
    var n := |src|;
    var below, inside, above := Records(src, 0, position), Records(src, position, position + removed),
                                Records(src, position + removed, n);
    RecordsThree(src, position, position + removed, n);
    ReconcileUnedited(src, src', position, removed, added);
    ReconcileInside(src, position, position + removed, position, removed, added);
    ReconcileAbove(src, src', position + removed, n, position, removed, added);
    ReconcileAround(below, inside, above, position, removed, added,
                    Records(src', 0, position), Records(src', position + added, |src'|));
  }

  lemma RecordsThree(src: seq<Item>, mid1: nat, mid2: nat, hi: nat)
    requires mid1 <= mid2 <= hi <= |src|
    ensures Records(src, 0, hi) == Records(src, 0, mid1) + Records(src, mid1, mid2) + Records(src, mid2, hi)
  {
    RecordsSplit(src, 0, mid1, hi);
    RecordsSplit(src, mid1, mid2, hi);
  }

  /** When the middle stretch is dropped entirely, reconciling the whole reconciles the two ends. */
  lemma ReconcileAround(x: seq<SortItem>, y: seq<SortItem>, z: seq<SortItem>, position: nat, removed: nat, added: nat,
                        rx: seq<SortItem>, rz: seq<SortItem>)
    requires Reconcile(x, position, removed, added) == rx && Reconcile(z, position, removed, added) == rz
    requires Reconcile(y, position, removed, added) == []
    ensures Reconcile(x + y + z, position, removed, added) == rx + rz
  {
    ReconcileAppend(x + y, z, position, removed, added);
    ReconcileAppend(x, y, position, removed, added);
    assert rx + [] == rx;
  }

  /** The records in front of an edit are the same records in the edited source. */
  lemma ReconcileUnedited(src: seq<Item>, src': seq<Item>, position: nat, removed: nat, added: nat)
    requires EditOf(src, src', position, removed, added)
    ensures Reconcile(Records(src, 0, position), position, removed, added) == Records(src', 0, position)
  {
    ReconcileBelow(src, 0, position, position, removed, added);
    assert src[0..position] == src[..position] == src'[..position] == src'[0..position];
    RecordsAgree(src, src', 0, position);
  }

  /**
   * The reconciler's correctness on permutations of the from-scratch build:
   * exactly `removed` records go, and with the added items appended in
   * source order the array is a permutation of the edited source's build.
   */
  lemma ReconcilePermutesRecords(s: seq<SortItem>, src: seq<Item>, src': seq<Item>,
                                 position: nat, removed: nat, added: nat)
    requires PermutesRecords(s, src)
    requires EditOf(src, src', position, removed, added)
    ensures |Reconcile(s, position, removed, added)| == |src| - removed
    ensures PermutesRecords(Reconcile(s, position, removed, added) + Records(src', position, position + added), src')
  {
    var r := Reconcile(s, position, removed, added);
    var n' := |src'|;
    var front, middle, back := Records(src', 0, position), Records(src', position, position + added),
                               Records(src', position + added, n');
    ReconcilePermutes(s, Records(src, 0, |src|), position, removed, added);
    ReconcileRecords(src, src', position, removed, added);
    assert multiset(r) == multiset(front) + multiset(back);
    assert |r| == |multiset(r)| == position + (n' - position - added);
    RecordsThree(src', position, position + added, n');
    MultisetRearrange(r, front, middle, back);
  }

  /** Appending `middle` to a permutation of `front + back` permutes `front + middle + back`. */
  lemma MultisetRearrange(r: seq<SortItem>, front: seq<SortItem>, middle: seq<SortItem>, back: seq<SortItem>)
    requires multiset(r) == multiset(front) + multiset(back)
    ensures multiset(r + middle) == multiset(front + middle + back)
  {
  }

  /**
   * The reconciler's correctness: an array materialized for `src` loses
   * exactly `removed` records, and with the added items appended in source
   * order it is materialized for the edited source again.
   */
  lemma ReconcileMaterialized(s: seq<SortItem>, src: seq<Item>, src': seq<Item>, position: nat, removed: nat, added: nat)
    requires Materialized(s, src)
    requires EditOf(src, src', position, removed, added)
    ensures |Reconcile(s, position, removed, added)| == |src| - removed
    ensures Materialized(Reconcile(s, position, removed, added) + Records(src', position, position + added), src')
  {
    MaterializedPermutes(s, src);
    ReconcilePermutesRecords(s, src, src', position, removed, added);
    MaterializedPermutes(Reconcile(s, position, removed, added) + Records(src', position, position + added), src');
  }

  /** The count the reconciler asserts: a materialized array loses exactly `removed` records. */
  lemma ReconcileLength(s: seq<SortItem>, src: seq<Item>, position: nat, removed: nat, added: nat)
    requires Materialized(s, src) && position + removed <= |src|
    ensures |s| == |src|
    ensures |Reconcile(s, position, removed, added)| == |s| - removed
  {
    var filler := seq(added, k => Item(0));
    var edited := src[..position] + filler + src[position + removed..];
    assert EditOf(src, edited, position, removed, added) by {
      assert edited[..position] == src[..position];
      assert edited[position + added..] == src[position + removed..];
    }
    ReconcileMaterialized(s, src, edited, position, removed, added);
  }

  /** With no record dropped the reconciled array shows the same items in the same order. */
  lemma {:induction false} ReconcileWithoutDrops(t: seq<SortItem>, position: nat, removed: nat, added: nat)
    requires NoDropIn(t, 0, |t|, position, removed)
    ensures |Reconcile(t, position, removed, added)| == |t|
    ensures View(Reconcile(t, position, removed, added)) == View(t)
    decreases |t|
  {
    if t != [] {
      var t' := t[..|t| - 1];
      assert NoDropIn(t', 0, |t'|, position, removed) by {
        forall k | 0 <= k < |t'| ensures !Dropped(t'[k], position, removed) {
          assert t'[k] == t[k];
        }
      }
      ReconcileWithoutDrops(t', position, removed, added);
      assert !Dropped(t[|t| - 1], position, removed);
      assert View(t) == View(t') + [t[|t| - 1].item];
    }
  }

  lemma ViewAppend(s: seq<SortItem>, t: seq<SortItem>)
    ensures View(s + t) == View(s) + View(t)
  {
  }

  /** Two arrays holding the same records show the same items, in some order. */
  lemma {:induction false} ViewPermutes(s: seq<SortItem>, t: seq<SortItem>)
    requires multiset(s) == multiset(t)
    ensures multiset(View(s)) == multiset(View(t))
    decreases |s|
  {
    if s == [] {
      assert |t| == |multiset(t)| == 0;
    } else {
      assert s[0] in multiset(t);
      var j :| 0 <= j < |t| && t[j] == s[0];
      var rest := t[..j] + t[j + 1..];
      assert t == t[..j] + [t[j]] + t[j + 1..];
      assert s == [s[0]] + s[1..];
      assert multiset(s) == multiset{s[0]} + multiset(s[1..]);
      assert multiset(t) == multiset(t[..j]) + multiset{t[j]} + multiset(t[j + 1..]);
      assert multiset(rest) == multiset(t[..j]) + multiset(t[j + 1..]);
      assert multiset(s[1..]) == multiset(s) - multiset{s[0]};
      assert multiset(rest) == multiset(t) - multiset{t[j]};
      ViewPermutes(s[1..], rest);
      ViewAppend([s[0]], s[1..]);
      ViewAppend(t[..j], [t[j]]);
      ViewAppend(t[..j] + [t[j]], t[j + 1..]);
      ViewAppend(t[..j], t[j + 1..]);
    }
  }

  /** The view of a from-scratch build is the source itself. */
  lemma ViewOfRecords(src: seq<Item>)
    ensures View(Records(src, 0, |src|)) == src
  {
  }

  /** A materialized array shows exactly the items of its source, in some order. */
  lemma MaterializedShowsSource(s: seq<SortItem>, src: seq<Item>)
    requires Materialized(s, src)
    ensures multiset(View(s)) == multiset(src)
  {
    MaterializedPermutes(s, src);
    ViewPermutes(s, Records(src, 0, |src|));
    ViewOfRecords(src);
  }

  /**
   * When something is dropped, the first `start` and the last `end` items of
   * the view are the same before and after reconciliation, and the two
   * untouched stretches do not overlap.
   */
  lemma ReconcileKeepsUnmodified(s: seq<SortItem>, position: nat, removed: nat, added: nat, start: nat, end: nat)
    requires UnmodifiedBounds(s, position, removed, start, end)
    requires !NoDropIn(s, 0, |s|, position, removed)
    ensures var r := Reconcile(s, position, removed, added);
      start + end < |s| && start + end <= |r| &&
      View(r)[..start] == View(s)[..start] &&
      View(r)[|r| - end..] == View(s)[|s| - end..]
  {
    var n := |s|;
    var head, mid, tail := s[..start], s[start..n - end], s[n - end..];
    assert s == head + mid + tail;
    assert NoDropIn(head, 0, |head|, position, removed) by {
      forall k | 0 <= k < |head| ensures !Dropped(head[k], position, removed) { assert head[k] == s[k]; }
    }
    assert NoDropIn(tail, 0, |tail|, position, removed) by {
      forall k | 0 <= k < |tail| ensures !Dropped(tail[k], position, removed) { assert tail[k] == s[n - end + k]; }
    }
    ReconcileBetween(head, mid, tail, position, removed, added);
    var vr, vs := View(Reconcile(s, position, removed, added)), View(s);
    var vm := View(Reconcile(mid, position, removed, added));
    assert vs[..start] == View(head) && vs[n - end..] == View(tail) by {
      ViewAppend(head + mid, tail);
      ViewAppend(head, mid);
    }
    assert vr[..start] == View(head) && vr[|vr| - end..] == View(tail);
  }

  /** Records around a stretch that none of them drops come through reconciliation unchanged. */
  lemma ReconcileBetween(head: seq<SortItem>, mid: seq<SortItem>, tail: seq<SortItem>,
                         position: nat, removed: nat, added: nat)
    requires NoDropIn(head, 0, |head|, position, removed) && NoDropIn(tail, 0, |tail|, position, removed)
    ensures View(Reconcile(head + mid + tail, position, removed, added)) ==
            View(head) + View(Reconcile(mid, position, removed, added)) + View(tail)
  {
    ReconcileWithoutDrops(head, position, removed, added);
    ReconcileWithoutDrops(tail, position, removed, added);
    ReconcileAppend(head + mid, tail, position, removed, added);
    ReconcileAppend(head, mid, position, removed, added);
    var rh, rm, rt := Reconcile(head, position, removed, added), Reconcile(mid, position, removed, added),
                      Reconcile(tail, position, removed, added);
    ViewAppend(rh + rm, rt);
    ViewAppend(rh, rm);
  }

  /** A materialized array reconciled with a real removal always drops something. */
  lemma RemovalDrops(s: seq<SortItem>, src: seq<Item>, src': seq<Item>, position: nat, removed: nat, added: nat)
    requires Materialized(s, src)
    requires EditOf(src, src', position, removed, added)
    requires removed > 0
    ensures !NoDropIn(s, 0, |s|, position, removed)
  {
    ReconcileMaterialized(s, src, src', position, removed, added);
    if NoDropIn(s, 0, |s|, position, removed) {
      ReconcileWithoutDrops(s, position, removed, added);
      assert false;
    }
  }
}
