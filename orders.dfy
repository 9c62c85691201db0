/**
 * What each sort option's comparator means for a list with no neighbours
 * out of order, which is what the query pipeline returns.
 */
module Orders {
  import opened Items
  import opened Sorting
  import opened Query

  /** Newest First: creation dates never increase along the list. */
  lemma NewestFirstOrder(s: seq<Item>, compare: (string, string) -> ComparisonResult)
    requires AdjacentSorted(s, Comparator(ByCreationDateDescending, compare))
    ensures forall i, j :: 0 <= i < j < |s| ==> s[i].creationDate >= s[j].creationDate
  {
    var le := (a: Item, b: Item) => a.creationDate >= b.creationDate;
    forall k | 0 < k < |s| ensures le(s[k - 1], s[k]) {
      assert !Comparator(ByCreationDateDescending, compare)(s[k], s[k - 1]);
    }
    AdjacentToPairwise(s, le);
  }

  /** Oldest First: creation dates never decrease along the list. */
  lemma OldestFirstOrder(s: seq<Item>, compare: (string, string) -> ComparisonResult)
    requires AdjacentSorted(s, Comparator(ByCreationDateAscending, compare))
    ensures forall i, j :: 0 <= i < j < |s| ==> s[i].creationDate <= s[j].creationDate
  {
    var le := (a: Item, b: Item) => a.creationDate <= b.creationDate;
    forall k | 0 < k < |s| ensures le(s[k - 1], s[k]) {
      assert !Comparator(ByCreationDateAscending, compare)(s[k], s[k - 1]);
    }
    AdjacentToPairwise(s, le);
  }

  /**
   * Earliest First: every task with a due date comes before every task
   * without one, and among dated tasks due dates never decrease.
   */
  lemma DueDateEarliestFirstOrder(s: seq<Item>, compare: (string, string) -> ComparisonResult)
    requires AdjacentSorted(s, Comparator(ByDueDateAscending, compare))
    ensures forall i, j :: 0 <= i < j < |s| && s[i].dueDate.None? ==> s[j].dueDate.None?
    ensures forall i, j :: 0 <= i < j < |s| && s[i].dueDate.Some? && s[j].dueDate.Some? ==>
              s[i].dueDate.value <= s[j].dueDate.value
  {
    var le := (a: Item, b: Item) =>
      && (a.dueDate.None? ==> b.dueDate.None?)
      && (a.dueDate.Some? && b.dueDate.Some? ==> a.dueDate.value <= b.dueDate.value);
    forall a, b, c | le(a, b) && le(b, c) ensures le(a, c) {
      if a.dueDate.Some? && c.dueDate.Some? {
        assert b.dueDate.Some?;
      }
    }
    forall k | 0 < k < |s| ensures le(s[k - 1], s[k]) {
      assert !Comparator(ByDueDateAscending, compare)(s[k], s[k - 1]);
    }
    AdjacentToPairwise(s, le);
  }

  /**
   * Latest First: tasks without a due date still come last, and among dated
   * tasks due dates never increase.
   */
  lemma DueDateLatestFirstOrder(s: seq<Item>, compare: (string, string) -> ComparisonResult)
    requires AdjacentSorted(s, Comparator(ByDueDateDescending, compare))
    ensures forall i, j :: 0 <= i < j < |s| && s[i].dueDate.None? ==> s[j].dueDate.None?
    ensures forall i, j :: 0 <= i < j < |s| && s[i].dueDate.Some? && s[j].dueDate.Some? ==>
              s[i].dueDate.value >= s[j].dueDate.value
  {
    var le := (a: Item, b: Item) =>
      && (a.dueDate.None? ==> b.dueDate.None?)
      && (a.dueDate.Some? && b.dueDate.Some? ==> a.dueDate.value >= b.dueDate.value);
    forall a, b, c | le(a, b) && le(b, c) ensures le(a, c) {
      if a.dueDate.Some? && c.dueDate.Some? {
        assert b.dueDate.Some?;
      }
    }
    forall k | 0 < k < |s| ensures le(s[k - 1], s[k]) {
      assert !Comparator(ByDueDateDescending, compare)(s[k], s[k - 1]);
    }
    AdjacentToPairwise(s, le);
  }

  /** Completion Status: no completed task comes before an open one. */
  lemma CompletionStatusOrder(s: seq<Item>, compare: (string, string) -> ComparisonResult)
    requires AdjacentSorted(s, Comparator(ByCompletionStatus, compare))
    ensures forall i, j :: 0 <= i < j < |s| && s[i].isCompleted ==> s[j].isCompleted
  {
    var le := (a: Item, b: Item) => a.isCompleted ==> b.isCompleted;
    forall k | 0 < k < |s| ensures le(s[k - 1], s[k]) {
      assert !Comparator(ByCompletionStatus, compare)(s[k], s[k - 1]);
    }
    AdjacentToPairwise(s, le);
  }

  /**
   * Name (A-Z): no name compares descending to the next one; if the
   * comparison is a total preorder, no name compares descending to any later one.
   */
  lemma NameAscendingOrder(s: seq<Item>, compare: (string, string) -> ComparisonResult)
    requires Antisymmetric(compare)
    requires AdjacentSorted(s, Comparator(ByNameAscending, compare))
    ensures forall k :: 0 < k < |s| ==> compare(s[k - 1].name, s[k].name) != OrderedDescending
    ensures TotalPreorder(compare) ==>
              forall i, j :: 0 <= i < j < |s| ==> compare(s[i].name, s[j].name) != OrderedDescending
  {
    var le := (a: Item, b: Item) => compare(a.name, b.name) != OrderedDescending;
    forall k | 0 < k < |s| ensures le(s[k - 1], s[k]) {
      assert !Comparator(ByNameAscending, compare)(s[k], s[k - 1]);
      assert compare(s[k].name, s[k - 1].name) == OrderedAscending
         <==> compare(s[k - 1].name, s[k].name) == OrderedDescending;
    }
    if TotalPreorder(compare) {
      forall a, b, c | le(a, b) && le(b, c) ensures le(a, c) {
        assert compare(a.name, b.name) != OrderedDescending && compare(b.name, c.name) != OrderedDescending;
      }
      AdjacentToPairwise(s, le);
    }
  }

  /**
   * Name (Z-A): no name compares ascending to the next one; if the
   * comparison is a total preorder, no name compares ascending to any later one.
   */
  lemma NameDescendingOrder(s: seq<Item>, compare: (string, string) -> ComparisonResult)
    requires Antisymmetric(compare)
    requires AdjacentSorted(s, Comparator(ByNameDescending, compare))
    ensures forall k :: 0 < k < |s| ==> compare(s[k - 1].name, s[k].name) != OrderedAscending
    ensures TotalPreorder(compare) ==>
              forall i, j :: 0 <= i < j < |s| ==> compare(s[i].name, s[j].name) != OrderedAscending
  {
    var le := (a: Item, b: Item) => compare(a.name, b.name) != OrderedAscending;
    forall k | 0 < k < |s| ensures le(s[k - 1], s[k]) {
      assert !Comparator(ByNameDescending, compare)(s[k], s[k - 1]);
      assert compare(s[k - 1].name, s[k].name) == OrderedAscending
         <==> compare(s[k].name, s[k - 1].name) == OrderedDescending;
    }
    if TotalPreorder(compare) {
      forall a, b, c | le(a, b) && le(b, c) ensures le(a, c) {
        assert compare(a.name, b.name) == OrderedAscending <==> compare(b.name, a.name) == OrderedDescending;
        assert compare(b.name, c.name) == OrderedAscending <==> compare(c.name, b.name) == OrderedDescending;
        assert compare(a.name, c.name) == OrderedAscending <==> compare(c.name, a.name) == OrderedDescending;
      }
      AdjacentToPairwise(s, le);
    }
  }
}
