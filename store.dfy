/** The state of the to-do screen and the actions its buttons and fields perform on it. */
module TodoStore {
  import opened TodoItem

  /** The screen's state: the input buffer, the list, the toggle-all flag and the
      selected tab. `nextId` stands for the supply of fresh identifiers. */
  class TodosView {
    var text: string
    var todos: seq<Item>
    var isAllSelected: bool
    var activeTab: string
    var nextId: nat

    /** Ids are unique and were all handed out before `nextId`. */
    ghost predicate Valid()
      reads this
    {
      IdsUnique(todos) && forall i :: 0 <= i < |todos| ==> todos[i].id < nextId
    }

    /** The screen as it first appears: empty buffer, empty list, tab "All". */
    constructor ()
      ensures Valid()
      ensures text == "" && todos == [] && !isAllSelected && activeTab == "All"
    {
      text := "";
      todos := [];
      isAllSelected := false;
      activeTab := "All";
      nextId := 0;
    }

    /** The input field's binding: the buffer takes what was typed. */
    method SetText(newText: string)
      requires Valid()
      modifies this`text
      ensures Valid()
      ensures text == newText
    {
      text := newText;
    }

    /** The "+" button: an empty buffer does nothing; otherwise a new item with the
        buffer's text, neither done nor being edited, goes at the end and the buffer is cleared. */
    method AddTodo()
      requires Valid()
      modifies this`todos, this`text, this`nextId
      ensures Valid()
      ensures old(text) == "" ==> todos == old(todos) && text == old(text) && nextId == old(nextId)
      ensures old(text) != "" ==>
        && todos == old(todos) + [Item(old(nextId), old(text), false, false)]
        && text == ""
        && nextId == old(nextId) + 1
    {
      if text == "" {
        return;
      }
      todos := todos + [Item(nextId, text, false, false)];
      nextId := nextId + 1;
      text := "";
    }

    /** The row's delete button: the first item carrying `id` goes, the others stay in order. */
    method RemoveTodoItem(id: nat)
      requires Valid()
      modifies this`todos
      ensures Valid()
      ensures todos == RemoveFirst(old(todos), id)
    {
      match FindIndex(todos, id) {
        case None =>
          RemoveFirstAbsent(todos, id);
        case Some(index) =>
          RemoveFirstAt(todos, id, index);
          CutKeepsIdsUnique(todos, index);
          ghost var before := todos;
          todos := todos[..index] + todos[index + 1..];
          forall i | 0 <= i < |todos| ensures todos[i].id < nextId {
            assert todos[i] in before;
          }
      }
    }

    /** The toggle-all button: every item's own completion flag is negated, then the button's flag. */
    method ToggleAll()
      requires Valid()
      modifies this`todos, this`isAllSelected
      ensures Valid()
      ensures todos == FlipAll(old(todos))
      ensures isAllSelected == !old(isAllSelected)
    {
      var index := 0;
      while index < |todos|
        invariant 0 <= index <= |todos| == |old(todos)|
        invariant forall k :: 0 <= k < index ==> todos[k] == Toggled(old(todos)[k])
        invariant forall k :: index <= k < |todos| ==> todos[k] == old(todos)[k]
        invariant isAllSelected == old(isAllSelected)
      {
        todos := todos[index := todos[index].(isComplete := !todos[index].isComplete)];
        index := index + 1;
      }
      isAllSelected := !isAllSelected;
    }

    /** The row's checkbox: the completion flag of the item carrying `id` is negated. */
    method ToggleComplete(id: nat)
      requires Valid()
      modifies this`todos
      ensures Valid()
      ensures FindIndex(old(todos), id).None? ==> todos == old(todos)
      ensures FindIndex(old(todos), id).Some? ==>
        var i := FindIndex(old(todos), id).value;
        todos == old(todos)[i := Toggled(old(todos)[i])]
    {
      match FindIndex(todos, id) {
        case None =>
        case Some(index) =>
          todos := todos[index := todos[index].(isComplete := !todos[index].isComplete)];
      }
    }

    /** Tapping a row's text: the item carrying `id` enters edit mode. */
    method BeginEdit(id: nat)
      requires Valid()
      modifies this`todos
      ensures Valid()
      ensures FindIndex(old(todos), id).None? ==> todos == old(todos)
      ensures FindIndex(old(todos), id).Some? ==>
        var i := FindIndex(old(todos), id).value;
        todos == old(todos)[i := old(todos)[i].(isEditing := true)]
    {
      match FindIndex(todos, id) {
        case None =>
        case Some(index) =>
          todos := todos[index := todos[index].(isEditing := true)];
      }
    }

    /** The row's "Save" button: the item carrying `id` leaves edit mode; its text is not checked. */
    method SaveEdit(id: nat)
      requires Valid()
      modifies this`todos
      ensures Valid()
      ensures FindIndex(old(todos), id).None? ==> todos == old(todos)
      ensures FindIndex(old(todos), id).Some? ==>
        var i := FindIndex(old(todos), id).value;
        todos == old(todos)[i := old(todos)[i].(isEditing := false)]
    {
      match FindIndex(todos, id) {
        case None =>
        case Some(index) =>
          todos := todos[index := todos[index].(isEditing := false)];
      }
    }

    /** The row's edit field: the text of the item carrying `id` becomes `newText`, empty or not. */
    method EditText(id: nat, newText: string)
      requires Valid()
      modifies this`todos
      ensures Valid()
      ensures FindIndex(old(todos), id).None? ==> todos == old(todos)
      ensures FindIndex(old(todos), id).Some? ==>
        var i := FindIndex(old(todos), id).value;
        todos == old(todos)[i := old(todos)[i].(text := newText)]
    {
      match FindIndex(todos, id) {
        case None =>
        case Some(index) =>
          todos := todos[index := todos[index].(text := newText)];
      }
    }

    /** The "All", "Active" and "Completed" buttons select a tab. */
    method SelectTab(tab: string)
      requires Valid()
      modifies this`activeTab
      ensures Valid()
      ensures activeTab == tab
    {
      activeTab := tab;
    }

    /** The "Clear completed" button: the tab goes back to "All", the toggle-all flag is
        cleared and every item done is removed, the rest keeping their order. */
    method ClearCompleted()
      requires Valid()
      modifies this`todos, this`activeTab, this`isAllSelected
      ensures Valid()
      ensures activeTab == "All" && !isAllSelected
      ensures todos == Filter(old(todos), IsActive)
    {
      activeTab := "All";
      isAllSelected := false;
      FilterKeepsIdsUnique(todos, IsActive);
      ghost var before := todos;
      todos := Filter(todos, IsActive);
      forall i | 0 <= i < |todos| ensures todos[i].id < nextId {
        assert todos[i] in before;
      }
    }
  }
}
