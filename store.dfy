/**
 * The task list's state and the operations that change it
 * (ToDoListApp/ContentView.swift): the stored tasks, the quick-add text field,
 * adding, deleting and completing tasks.
 */
module Store {
  import opened Items
  import opened Sequences
  import opened Query

  /** The name a task added from the toolbar gets (a localised string in the app). */
  const ToolbarTaskName: string := "New Task from Toolbar"

  /** The stored list once the tasks at `offsets` are gone, as `deleteItems` leaves it. */
  function AfterDelete(items: seq<Item>, offsets: set<nat>): (r: seq<Item>)
    requires forall i :: i in offsets ==> i < |items|
    ensures |r| == |items| - |offsets|
    ensures forall x :: x in r ==> x in items
  {
    KeepSurvivors(items, offsets);
    Keep(items, Survivors(|items|, offsets))
  }

  /** The tasks shown at `offsets` of a displayed list. */
  function Picked(shown: seq<Item>, offsets: set<nat>): set<Item>
    requires forall i :: i in offsets ==> i < |shown|
  {
    set i | i in offsets :: shown[i]
  }

  function NotIn(gone: set<Item>): Item -> bool {
    (it: Item) => it !in gone
  }

  class TaskStore {
    /** The stored tasks, in the order the view's query lists them. */
    var items: seq<Item>
    /** The contents of the quick-add text field. */
    var newTaskName: string

    constructor ()
      ensures items == [] && newTaskName == ""
    {
      items := [];
      newTaskName := "";
    }

    /**
     * `addItem`: stores one task with the placeholder name, created `now`,
     * and default fields. The new task goes first, where the query's
     * newest-first order shows it.
     */
    method AddItem(now: Timestamp)
      modifies this
      ensures items == [NewItem(ToolbarTaskName, creationDate := now)] + old(items)
      ensures newTaskName == old(newTaskName)
    {
      var newItem := NewItem(ToolbarTaskName, creationDate := now);
      items := [newItem] + items;
    }

    /**
     * `submitNewTask`: with an empty text field nothing changes; otherwise one
     * task named by the field, created `now`, with default fields, is stored
     * and the field is cleared.
     */
    method SubmitNewTask(now: Timestamp)
      modifies this
      ensures old(newTaskName) == "" ==> items == old(items) && newTaskName == old(newTaskName)
      ensures old(newTaskName) != "" ==>
                && items == [NewItem(old(newTaskName), creationDate := now)] + old(items)
                && newTaskName == ""
    {
      if newTaskName == "" {
        return;
      }
      var newItem := NewItem(newTaskName, creationDate := now);
      items := [newItem] + items;
      newTaskName := "";
    }

    /**
     * `deleteItems`: removes the tasks at `offsets` of the stored list (not of
     * the displayed one). Each offset marks its task deleted; the stored list
     * then drops the marked tasks (the query refreshing after the deletions).
     */
    method DeleteItems(offsets: set<nat>)
      requires forall i :: i in offsets ==> i < |items|
      modifies this
      ensures items == AfterDelete(old(items), offsets)
      ensures newTaskName == old(newTaskName)
    {
      var live := seq(|items|, _ => true);
      var pending := offsets;
      while pending != {}
        invariant pending <= offsets
        invariant |live| == |items|
        invariant forall i :: 0 <= i < |live| ==> (live[i] <==> i !in offsets - pending)
        decreases pending
      {
        var index :| index in pending;
        live := live[index := false];
        pending := pending - {index};
      }
      assert live == Survivors(|items|, offsets);
      items := Keep(items, live);
    }

    /**
     * The corrected deletion: removes the tasks shown at `offsets` of the
     * displayed list `shown`, wherever they sit in the stored list.
     */
    method DeleteShownItems(shown: seq<Item>, offsets: set<nat>)
      requires forall i :: i in offsets ==> i < |shown|
      modifies this
      ensures items == Filter(old(items), NotIn(Picked(shown, offsets)))
      ensures newTaskName == old(newTaskName)
    {
      var gone: set<Item> := {};
      var pending := offsets;
      while pending != {}
        invariant pending <= offsets
        invariant gone == Picked(shown, offsets - pending)
        decreases pending
      {
        var index :| index in pending;
        gone := gone + {shown[index]};
        pending := pending - {index};
      }
      assert gone == Picked(shown, offsets);
      items := FilterItems(items, NotIn(gone));
    }

    /** The completion button: flips the completion flag of one task and nothing else. */
    method ToggleCompleted(index: nat)
      requires index < |items|
      modifies this
      ensures items == old(items)[index := old(items)[index].(isCompleted := !old(items)[index].isCompleted)]
      ensures newTaskName == old(newTaskName)
    {
      var it := items[index];
      items := items[index := it.(isCompleted := !it.isCompleted)];
    }
  }

  /**
   * `deleteItems` removes exactly the tasks at `offsets`: the rest stay, in
   * their order, and the list shrinks by the number of offsets.
   */
  lemma AfterDeleteExact(items: seq<Item>, offsets: set<nat>)
    requires forall i :: i in offsets ==> i < |items|
    ensures |AfterDelete(items, offsets)| == |LiveIndices(Survivors(|items|, offsets))| == |items| - |offsets|
    ensures forall i: nat :: i in LiveIndices(Survivors(|items|, offsets)) <==> i < |items| && i !in offsets
    ensures forall k :: 0 <= k < |AfterDelete(items, offsets)| ==>
              && LiveIndices(Survivors(|items|, offsets))[k] < |items|
              && AfterDelete(items, offsets)[k] == items[LiveIndices(Survivors(|items|, offsets))[k]]
  {
    KeepSurvivors(items, offsets);
  }

  /** The corrected deletion removes the picked tasks and keeps every other one. */
  lemma DeleteShownExact(items: seq<Item>, shown: seq<Item>, offsets: set<nat>, x: Item)
    requires forall i :: i in offsets ==> i < |shown|
    ensures x in Filter(items, NotIn(Picked(shown, offsets))) <==>
              x in items && forall i :: i in offsets ==> x != shown[i]
  {
  }

  /**
   * The swipe-to-delete offsets index the displayed list, but `deleteItems`
   * applies them to the stored list. With the Home category selected, the
   * list shows only "Buy milk"; deleting its first row removes "Write
   * report", which is not shown, and keeps "Buy milk". The corrected deletion
   * removes "Buy milk".
   */
  lemma DeleteItemsMissesDisplayedRow(locale: Locale)
    ensures var work := NewItem("Write report", creationDate := 2, category := "Work");
            var home := NewItem("Buy milk", creationDate := 1, category := "Home");
            && Filtered(locale, [work, home], Some("Home"), "") == [home]
            && AfterDelete([work, home], {0}) == [home]
            && Filter([work, home], NotIn(Picked([home], {0}))) == [work]
  {
    var work := NewItem("Write report", creationDate := 2, category := "Work");
    var home := NewItem("Buy milk", creationDate := 1, category := "Home");
    var both := [work, home];
    assert both[..1] == [work] && [work][..0] == [];
    assert Filter([work], CategoryIs("Home")) == [];
    assert Filtered(locale, both, Some("Home"), "") == [home];
    var live := Survivors(2, {0});
    assert live == [false, true];
    assert live[..1] == [false] && [false][..0] == [];
    assert Keep([work], [false]) == [];
    assert Picked([home], {0}) == {home};
    assert Filter([work], NotIn({home})) == [work];
  }
}
