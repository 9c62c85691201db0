/**
 * The category picker's list (`uniqueCategories` in
 * ToDoListApp/ContentView.swift): every category in use, once, ascending.
 */
module Categories {
  import opened Items

  /** `String <`, as lexicographic order on characters. */
  predicate Less(a: string, b: string)
    ensures Less(a, b) ==> a != b
  {
    if a == [] then b != []
    else if b == [] then false
    else a[0] < b[0] || (a[0] == b[0] && Less(a[1..], b[1..]))
  }

  lemma {:induction false} LessIrreflexive(a: string)
    ensures !Less(a, a)
  {
    if a != [] {
      LessIrreflexive(a[1..]);
    }
  }

  lemma {:induction false} LessTransitive(a: string, b: string, c: string)
    requires Less(a, b) && Less(b, c)
    ensures Less(a, c)
  {
    if a != [] && b != [] && c != [] && a[0] == b[0] == c[0] {
      LessTransitive(a[1..], b[1..], c[1..]);
    }
  }

  /** Of two different strings, one is less than the other. */
  lemma {:induction false} LessTotal(a: string, b: string)
    requires a != b
    ensures Less(a, b) || Less(b, a)
  {
    if a != [] && b != [] && a[0] == b[0] {
      assert a == [a[0]] + a[1..] && b == [b[0]] + b[1..];
      LessTotal(a[1..], b[1..]);
    }
  }

  predicate StrictlyAscending(xs: seq<string>) {
    forall i, j :: 0 <= i < j < |xs| ==> Less(xs[i], xs[j])
  }

  /** The categories in use among `items`. */
  function CategorySet(items: seq<Item>): set<string> {
    set it | it in items :: it.category
  }

  /**
   * Adds `c` to a strictly ascending list unless it is already there; the
   * result is strictly ascending and holds exactly the old elements and `c`.
   */
  function Insert(xs: seq<string>, c: string): (r: seq<string>)
    requires StrictlyAscending(xs)
    ensures StrictlyAscending(r)
    ensures forall y :: y in r <==> y in xs || y == c
  {
    if xs == [] then [c]
    else if c == xs[0] then xs
    else if Less(c, xs[0]) then
      assert forall j :: 0 < j < |xs| ==> Less(c, xs[j]) by {
        forall j | 0 < j < |xs| { LessTransitive(c, xs[0], xs[j]); }
      }
      [c] + xs
    else
      var rest := Insert(xs[1..], c);
      LessTotal(c, xs[0]);
      assert forall y :: y in rest ==> Less(xs[0], y);
      [xs[0]] + rest
  }

  /**
   * `uniqueCategories`: the categories of all stored tasks, each once, in
   * ascending order. Only the stored list is an argument, so the selected
   * category and the search text play no part.
   */
  function UniqueCategories(items: seq<Item>): (r: seq<string>)
    ensures StrictlyAscending(r)
    ensures forall c :: c in r <==> c in CategorySet(items)
  {
    if items == [] then []
    else
      var init := items[..|items| - 1];
      var r := Insert(UniqueCategories(init), items[|items| - 1].category);
      assert items == init + [items[|items| - 1]];
      assert CategorySet(items) == CategorySet(init) + {items[|items| - 1].category};
      r
  }

  /** A strictly ascending list has no duplicates. */
  lemma NoDuplicates(xs: seq<string>)
    requires StrictlyAscending(xs)
    ensures forall i, j :: 0 <= i < j < |xs| ==> xs[i] != xs[j]
  {
    forall i, j | 0 <= i < j < |xs| ensures xs[i] != xs[j] {
      LessIrreflexive(xs[i]);
    }
  }

  /** The head of a strictly ascending list is below every other element. */
  lemma HeadIsLeast(xs: seq<string>, y: string)
    requires StrictlyAscending(xs) && y in xs
    ensures y == xs[0] || Less(xs[0], y)
  {
  }

  /**
   * A strictly ascending list is determined by its elements, so the list is
   * the one `Array(Set(...)).sorted()` gives, whatever the set's own order.
   */
  lemma {:induction false} AscendingUnique(xs: seq<string>, ys: seq<string>)
    requires StrictlyAscending(xs) && StrictlyAscending(ys)
    requires forall y :: y in xs <==> y in ys
    ensures xs == ys
  {
    if xs != [] {
      assert xs[0] in ys;
    }
    if ys != [] {
      assert ys[0] in xs;
    }
    if xs != [] && ys != [] {
      var x, y := xs[0], ys[0];
      HeadIsLeast(ys, x);
      HeadIsLeast(xs, y);
      if x != y {
        LessTransitive(x, y, x);
        LessIrreflexive(x);
      }
      forall z ensures z in xs[1..] <==> z in ys[1..] {
        LessIrreflexive(z);
        if z in xs[1..] {
          var i :| 1 <= i < |xs| && xs[i] == z;
          assert z != x by { assert Less(xs[0], xs[i]); }
          assert z in ys;
        }
        if z in ys[1..] {
          var j :| 1 <= j < |ys| && ys[j] == z;
          assert z != y by { assert Less(ys[0], ys[j]); }
          assert z in xs;
        }
      }
      AscendingUnique(xs[1..], ys[1..]);
      assert xs == [x] + xs[1..] && ys == [y] + ys[1..];
    }
  }

  /** Categories B, A, A give the list A, B. */
  lemma UniqueCategoriesExample(a: Item, b: Item, c: Item)
    requires a.category == "B" && b.category == "A" && c.category == "A"
    ensures UniqueCategories([a, b, c]) == ["A", "B"]
  {
    var r := UniqueCategories([a, b, c]);
    assert Less("A", "B");
    assert CategorySet([a, b, c]) == {"A", "B"};
    AscendingUnique(r, ["A", "B"]);
  }
}
