/**
 * The query pipeline of the task list (ToDoListApp/ContentView.swift): the
 * sort options, the category and search filters, and the sort that derives
 * the displayed list from the stored one.
 */
module Query {
  import opened Items
  import opened Sequences
  import opened Sorting

  /** The seven orders the list can be shown in. */
  datatype SortOption =
    | ByCreationDateDescending
    | ByCreationDateAscending
    | ByDueDateAscending
    | ByDueDateDescending
    | ByNameAscending
    | ByNameDescending
    | ByCompletionStatus
  {
    /**
     * The label of the option, which also serves as its identifier: the
     * raw-value initialiser maps it back to this option.
     */
    function RawValue(): (raw: string)
      ensures SortOptionFromRawValue(raw) == Some(this)
    {
      match this
      case ByCreationDateDescending => "Newest First"
      case ByCreationDateAscending => "Oldest First"
      case ByDueDateAscending => "Due Date (Earliest First)"
      case ByDueDateDescending => "Due Date (Latest First)"
      case ByNameAscending => "Name (A-Z)"
      case ByNameDescending => "Name (Z-A)"
      case ByCompletionStatus => "Completion Status"
    }
  }

  /** `SortOption(rawValue:)`: the option with that label, if there is one. */
  function SortOptionFromRawValue(raw: string): Option<SortOption> {
    if raw == "Newest First" then Some(ByCreationDateDescending)
    else if raw == "Oldest First" then Some(ByCreationDateAscending)
    else if raw == "Due Date (Earliest First)" then Some(ByDueDateAscending)
    else if raw == "Due Date (Latest First)" then Some(ByDueDateDescending)
    else if raw == "Name (A-Z)" then Some(ByNameAscending)
    else if raw == "Name (Z-A)" then Some(ByNameDescending)
    else if raw == "Completion Status" then Some(ByCompletionStatus)
    else None
  }

  /** `allCases`: the options in declaration order, each exactly once. */
  function AllSortOptions(): (all: seq<SortOption>)
    ensures forall o: SortOption :: o in all
    ensures forall i, j :: 0 <= i < j < |all| ==> all[i] != all[j]
  {
    var all := [ByCreationDateDescending, ByCreationDateAscending, ByDueDateAscending, ByDueDateDescending,
                ByNameAscending, ByNameDescending, ByCompletionStatus];
    assert forall o: SortOption :: o in all by {
      forall o: SortOption ensures o in all {
        assert o == all[0] || o == all[1] || o == all[2] || o == all[3] || o == all[4] || o == all[5] || o == all[6];
      }
    }
    all
  }

  /** The raw-value initialiser accepts exactly the seven labels. */
  lemma FromRawValueExact(raw: string)
    ensures SortOptionFromRawValue(raw).Some? <==> exists o: SortOption :: o.RawValue() == raw
  {
    if SortOptionFromRawValue(raw).Some? {
      assert SortOptionFromRawValue(raw).value.RawValue() == raw;
    }
  }

  /** No two options share an identifier. */
  lemma SortOptionsIdentified(o: SortOption, o': SortOption)
    ensures o.RawValue() == o'.RawValue() ==> o == o'
  {
  }

  /** The outcome of a three-way string comparison. */
  datatype ComparisonResult = OrderedAscending | OrderedSame | OrderedDescending

  /**
   * The locale-dependent string operations the pipeline relies on, left
   * abstract: `fold` maps a string to its case-folded form, and `compare` is
   * the case-insensitive three-way comparison.
   */
  datatype Locale = Locale(fold: string -> string, compare: (string, string) -> ComparisonResult)

  /** `a` compares ascending to `b` exactly when `b` compares descending to `a`. */
  ghost predicate Antisymmetric(compare: (string, string) -> ComparisonResult) {
    forall a, b :: compare(a, b) == OrderedAscending <==> compare(b, a) == OrderedDescending
  }

  /** The comparison orders strings by a total preorder. */
  ghost predicate TotalPreorder(compare: (string, string) -> ComparisonResult) {
    && Antisymmetric(compare)
    && forall a, b, c ::
         compare(a, b) != OrderedDescending && compare(b, c) != OrderedDescending ==>
           compare(a, c) != OrderedDescending
  }

  /** `needle` occurs in `haystack` as a contiguous substring. */
  predicate Contains(haystack: string, needle: string)
    decreases |haystack|
  {
    needle <= haystack || (haystack != [] && Contains(haystack[1..], needle))
  }

  /** `needle` sits in `haystack` starting at offset `i`. */
  predicate OccursAt(haystack: string, needle: string, i: int) {
    0 <= i <= |haystack| - |needle| && haystack[i..i + |needle|] == needle
  }

  /** An occurrence at offset 0 is a prefix. */
  lemma OccursAtStart(haystack: string, needle: string)
    ensures OccursAt(haystack, needle, 0) <==> needle <= haystack
  {
  }

  /** An occurrence in the tail is an occurrence one further along in the whole. */
  lemma OccursInTail(haystack: string, needle: string, i: int)
    requires haystack != [] && 0 <= i
    ensures OccursAt(haystack[1..], needle, i) <==> OccursAt(haystack, needle, i + 1)
  {
    if 0 <= i <= |haystack| - 1 - |needle| {
      assert haystack[1..][i..i + |needle|] == haystack[i + 1..i + 1 + |needle|];
    }
  }

  /** `Contains` holds exactly when the needle sits at some offset of the haystack. */
  lemma {:induction false} ContainsIffOccursAt(haystack: string, needle: string)
    ensures Contains(haystack, needle) <==> exists i :: OccursAt(haystack, needle, i)
    decreases |haystack|
  {
    OccursAtStart(haystack, needle);
    if haystack != [] && !(needle <= haystack) {
      var tail := haystack[1..];
      ContainsIffOccursAt(tail, needle);
      if Contains(tail, needle) {
        var i :| OccursAt(tail, needle, i);
        OccursInTail(haystack, needle, i);
      }
      forall i | OccursAt(haystack, needle, i) ensures Contains(tail, needle) {
        OccursInTail(haystack, needle, i - 1);
      }
    }
  }

  /** `localizedCaseInsensitiveContains`: containment after case folding. */
  predicate CaseInsensitiveContains(locale: Locale, s: string, text: string)
    ensures CaseInsensitiveContains(locale, s, text) <==>
              exists i :: OccursAt(locale.fold(s), locale.fold(text), i)
  {
    ContainsIffOccursAt(locale.fold(s), locale.fold(text));
    Contains(locale.fold(s), locale.fold(text))
  }

  /** A task matches the search text when its name or its details contain it. */
  predicate MatchesSearch(locale: Locale, text: string, it: Item)
    ensures MatchesSearch(locale, text, it) <==>
              || (exists i :: OccursAt(locale.fold(it.name), locale.fold(text), i))
              || (exists i :: OccursAt(locale.fold(it.details), locale.fold(text), i))
  {
    CaseInsensitiveContains(locale, it.name, text) || CaseInsensitiveContains(locale, it.details, text)
  }

  function CategoryIs(c: string): Item -> bool {
    (it: Item) => it.category == c
  }

  function SearchMatches(locale: Locale, text: string): Item -> bool {
    (it: Item) => MatchesSearch(locale, text, it)
  }

  /** `Array.filter`: the elements that pass `keep`, in their order. */
  function Filter(s: seq<Item>, keep: Item -> bool): (r: seq<Item>)
    ensures |r| <= |s|
    ensures forall x :: x in r ==> x in s && keep(x)
  {
    if s == [] then [] else Filter(s[..|s| - 1], keep) + (if keep(s[|s| - 1]) then [s[|s| - 1]] else [])
  }

  /** A filter keeps an element exactly when it was there and passes. */
  lemma {:induction false} FilterMembership(s: seq<Item>, keep: Item -> bool, x: Item)
    ensures x in Filter(s, keep) <==> x in s && keep(x)
  {
    if s != [] {
      FilterMembership(s[..|s| - 1], keep, x);
      assert s == s[..|s| - 1] + [s[|s| - 1]];
    }
  }

  /** A filter keeps every passing element as often as it occurs, and no other. */
  lemma {:induction false} FilterMultiplicity(s: seq<Item>, keep: Item -> bool, x: Item)
    ensures multiset(Filter(s, keep))[x] == if keep(x) then multiset(s)[x] else 0
  {
    if s != [] {
      FilterMultiplicity(s[..|s| - 1], keep, x);
      assert s == s[..|s| - 1] + [s[|s| - 1]];
    }
  }

  /** The flags "passes `keep`", position by position. */
  function Passing(s: seq<Item>, keep: Item -> bool): (live: seq<bool>)
    ensures |live| == |s| && forall i :: 0 <= i < |s| ==> (live[i] <==> keep(s[i]))
  {
    seq(|s|, i requires 0 <= i < |s| => keep(s[i]))
  }

  /**
   * A filter keeps the original relative order: it is the subsequence at the
   * passing positions (whose characterisation is `KeepAt`).
   */
  lemma {:induction false} FilterKeepsOrder(s: seq<Item>, keep: Item -> bool)
    ensures Filter(s, keep) == Keep(s, Passing(s, keep))
  {
    if s != [] {
      var n := |s| - 1;
      FilterKeepsOrder(s[..n], keep);
      assert Passing(s, keep)[..n] == Passing(s[..n], keep);
    }
  }

  /** The loop behind `Array.filter`. */
  method FilterItems(s: seq<Item>, keep: Item -> bool) returns (r: seq<Item>)
    ensures r == Filter(s, keep)
  {
    r := [];
    var i := 0;
    while i < |s|
      invariant 0 <= i <= |s|
      invariant r == Filter(s[..i], keep)
    {
      assert s[..i + 1][..i] == s[..i];
      if keep(s[i]) {
        r := r + [s[i]];
      }
      i := i + 1;
    }
    assert s[..i] == s;
  }

  /** The first stage: keep the selected category, if one is selected. */
  function CategoryStage(items: seq<Item>, selected: Option<string>): (r: seq<Item>)
    ensures |r| <= |items|
    ensures forall x :: x in r ==> x in items && (selected.Some? ==> x.category == selected.value)
  {
    match selected
    case None => items
    case Some(c) => Filter(items, CategoryIs(c))
  }

  /** The second stage: keep the tasks matching a non-empty search text. */
  function SearchStage(locale: Locale, s: seq<Item>, text: string): (r: seq<Item>)
    ensures |r| <= |s|
    ensures forall x :: x in r ==> x in s && (text != "" ==> MatchesSearch(locale, text, x))
  {
    if text == "" then s else Filter(s, SearchMatches(locale, text))
  }

  /** What the pipeline keeps before it sorts. */
  function Filtered(locale: Locale, items: seq<Item>, selected: Option<string>, text: string): seq<Item> {
    SearchStage(locale, CategoryStage(items, selected), text)
  }

  /** The filters of the pipeline, taken together. */
  predicate Shown(locale: Locale, selected: Option<string>, text: string, it: Item) {
    && (selected.Some? ==> it.category == selected.value)
    && (text != "" ==> MatchesSearch(locale, text, it))
  }

  /**
   * The category stage keeps exactly the tasks of the selected category (an
   * exact comparison), each as often as it occurs and in their order; without
   * a selection it keeps everything.
   */
  lemma CategoryStageExact(items: seq<Item>, selected: Option<string>, x: Item)
    ensures selected == None ==> CategoryStage(items, selected) == items
    ensures x in CategoryStage(items, selected) <==> x in items && (selected.Some? ==> x.category == selected.value)
    ensures multiset(CategoryStage(items, selected))[x]
              == if selected.None? || x.category == selected.value then multiset(items)[x] else 0
    ensures selected.Some? ==> CategoryStage(items, selected) == Keep(items, Passing(items, CategoryIs(selected.value)))
  {
    if selected.Some? {
      FilterMembership(items, CategoryIs(selected.value), x);
      FilterMultiplicity(items, CategoryIs(selected.value), x);
      FilterKeepsOrder(items, CategoryIs(selected.value));
    }
  }

  /**
   * An empty search text keeps everything; a non-empty one keeps exactly the
   * tasks whose name or details contain it under case folding, in order.
   */
  lemma SearchStageExact(locale: Locale, s: seq<Item>, text: string, x: Item)
    ensures text == "" ==> SearchStage(locale, s, text) == s
    ensures x in SearchStage(locale, s, text) <==> x in s && (text != "" ==> MatchesSearch(locale, text, x))
    ensures multiset(SearchStage(locale, s, text))[x]
              == if text == "" || MatchesSearch(locale, text, x) then multiset(s)[x] else 0
    ensures text != "" ==> SearchStage(locale, s, text) == Keep(s, Passing(s, SearchMatches(locale, text)))
  {
    if text != "" {
      FilterMembership(s, SearchMatches(locale, text), x);
      FilterMultiplicity(s, SearchMatches(locale, text), x);
      FilterKeepsOrder(s, SearchMatches(locale, text));
    }
  }

  /** Both stages together keep each shown task as often as it is stored, and nothing else. */
  lemma FilteredExact(locale: Locale, items: seq<Item>, selected: Option<string>, text: string, x: Item)
    ensures x in Filtered(locale, items, selected, text) <==> x in items && Shown(locale, selected, text, x)
    ensures multiset(Filtered(locale, items, selected, text))[x]
              == if Shown(locale, selected, text, x) then multiset(items)[x] else 0
  {
    CategoryStageExact(items, selected, x);
    SearchStageExact(locale, CategoryStage(items, selected), text, x);
  }

  /** The comparator each sort option passes to the sort: "a goes before b". */
  predicate InIncreasingOrder(option: SortOption, compare: (string, string) -> ComparisonResult, a: Item, b: Item)
    // Under either due-date option an undated task never goes first, and a dated one always goes before an undated one.
    ensures (option == ByDueDateAscending || option == ByDueDateDescending) ==>
              && (a.dueDate.None? ==> !InIncreasingOrder(option, compare, a, b))
              && (a.dueDate.Some? && b.dueDate.None? ==> InIncreasingOrder(option, compare, a, b))
    // Under Completion Status a completed task never goes first, and an open one goes before every completed one.
    ensures option == ByCompletionStatus ==>
              && (a.isCompleted ==> !InIncreasingOrder(option, compare, a, b))
              && (!a.isCompleted && b.isCompleted ==> InIncreasingOrder(option, compare, a, b))
  {
    match option
    case ByCreationDateDescending => a.creationDate > b.creationDate
    case ByCreationDateAscending => a.creationDate < b.creationDate
    case ByDueDateAscending =>
      (match a.dueDate
       case None => false
       case Some(d1) => (match b.dueDate case None => true case Some(d2) => d1 < d2))
    case ByDueDateDescending =>
      (match a.dueDate
       case None => false
       case Some(d1) => (match b.dueDate case None => true case Some(d2) => d1 > d2))
    case ByNameAscending => compare(a.name, b.name) == OrderedAscending
    case ByNameDescending => compare(a.name, b.name) == OrderedDescending
    case ByCompletionStatus => !a.isCompleted && b.isCompleted
  }

  function Comparator(option: SortOption, compare: (string, string) -> ComparisonResult): (Item, Item) -> bool {
    (a: Item, b: Item) => InIncreasingOrder(option, compare, a, b)
  }

  /** Every comparator is asymmetric, given an antisymmetric string comparison. */
  lemma ComparatorAsymmetric(option: SortOption, compare: (string, string) -> ComparisonResult)
    requires Antisymmetric(compare)
    ensures Asymmetric(Comparator(option, compare))
  {
  }

  /**
   * `filteredAndSortedItems`: copy the stored list, keep the selected
   * category, keep the tasks matching the search text, then sort by the
   * chosen option. The result holds each shown task as often as it is stored
   * and nothing else, and it has no neighbours out of order.
   */
  method FilteredAndSortedItems(
    locale: Locale, items: seq<Item>, selected: Option<string>, searchText: string, option: SortOption)
    returns (r: seq<Item>)
    requires Antisymmetric(locale.compare)
    ensures multiset(r) == multiset(Filtered(locale, items, selected, searchText))
    ensures forall x :: x in r <==> x in items && Shown(locale, selected, searchText, x)
    ensures AdjacentSorted(r, Comparator(option, locale.compare))
  {
    var tempItems := items;
    if selected.Some? {
      tempItems := FilterItems(tempItems, CategoryIs(selected.value));
    }
    if searchText != "" {
      tempItems := FilterItems(tempItems, SearchMatches(locale, searchText));
    }
    assert tempItems == Filtered(locale, items, selected, searchText);
    ComparatorAsymmetric(option, locale.compare);
    r := SortBy(tempItems, Comparator(option, locale.compare));
    forall x ensures x in r <==> x in items && Shown(locale, selected, searchText, x) {
      FilteredExact(locale, items, selected, searchText, x);
      assert x in r <==> x in multiset(r);
    }
  }
}
