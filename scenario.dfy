/** Uses of the screen's actions that follow from their contracts alone. */
module TodoScenario {
  import opened TodoItem
  import opened TodoDisplay
  import opened TodoStore

  /** Pressing toggle-all twice gives back the list and the flag exactly as they were. */
  method ToggleAllTwice(v: TodosView)
    requires v.Valid()
    modifies v`todos, v`isAllSelected
    ensures v.Valid()
    ensures v.todos == old(v.todos) && v.isAllSelected == old(v.isAllSelected)
    ensures v.text == old(v.text) && v.activeTab == old(v.activeTab) && v.nextId == old(v.nextId)
  {
    v.ToggleAll();
    v.ToggleAll();
    FlipAllTwice(old(v.todos));
  }

  /** A fresh screen after typing and adding "Buy milk", then "Walk dog". */
  method AddTwo() returns (v: TodosView)
    ensures fresh(v) && v.Valid()
    ensures |v.todos| == 2
    ensures v.todos[0].text == "Buy milk" && !v.todos[0].isComplete
    ensures v.todos[1].text == "Walk dog" && !v.todos[1].isComplete
  {
    v := new TodosView();
    v.SetText("Buy milk");
    v.AddTodo();
    v.SetText("Walk dog");
    v.AddTodo();
  }

  /** With the first of two items done: one left, "Completed" shows the first, clearing keeps the second. */
  lemma OneDoneOneLeft(milk: Item, dog: Item)
    requires milk.isComplete && !dog.isComplete
    ensures ItemsLeft([milk, dog]) == 1
    ensures Visible([milk, dog], "Completed") == [milk]
    ensures Filter([milk, dog], IsActive) == [dog]
  {
    assert [milk, dog][1..] == [dog] && [dog][1..] == [];
    VisibleOther([milk, dog], "Completed");
  }

  /** Two items added, the first checked, the "Completed" tab selected, then the
      completed ones cleared: one item is left, the tab shows the first item only,
      and after clearing only the second item remains, under tab "All". */
  method BuyMilkWalkDog() returns (added: nat, left: nat, shown: seq<string>, remaining: seq<string>, tab: string)
    ensures added == 2 && left == 1
    ensures shown == ["Buy milk"]
    ensures remaining == ["Walk dog"] && tab == "All"
  {
    var v := AddTwo();
    added := |v.todos|;
    FindIndexUnique(v.todos, v.todos[0].id, 0);
    v.ToggleComplete(v.todos[0].id);
    var milk, dog := v.todos[0], v.todos[1];
    assert v.todos == [milk, dog];
    OneDoneOneLeft(milk, dog);
    left := ItemsLeft(v.todos);
    v.SelectTab("Completed");
    shown := Texts(Visible(v.todos, v.activeTab));
    v.ClearCompleted();
    remaining := Texts(v.todos);
    tab := v.activeTab;
  }
}
