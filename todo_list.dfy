/** `components/TodoList.tsx`: the to-do list, its completed-first ordering and its edits. */
module TodoList {
  import opened Wrappers
  import opened Seqs
  import opened Strings

  /** A to-do item. The optional fields link an item generated from a goal's action back to
      it; TodoList's edits copy them along unchanged. */
  datatype Todo = Todo(
    id: string,
    text: string,
    completed: bool,
    actionId: Option<string>,
    goalId: Option<string>,
    goalTitle: Option<string>)

  /** A plain item, not linked to any action. */
  function Plain(id: string, text: string, completed: bool): Todo {
    Todo(id, text, completed, None, None, None)
  }

  /** The ten items the list starts with. */
  const DefaultTodos: seq<Todo> := [
    Plain("1", "Work on copilotIQ", true),
    Plain("2", "Chat gpt therapy", false),
    Plain("3", "Cortex fu", false),
    Plain("4", "Work on simple plan web", false),
    Plain("5", "Time with God", false),
    Plain("6", "Duolingo", false),
    Plain("7", "Continue reading nutrition app document", false),
    Plain("8", "Continue working on tripby spreadsheet", false),
    Plain("9", "Call Juan Pablo Apriori", false),
    Plain("10", "Stretch and mobility", false)]

  // ---------------------------------------------------------------------------------------
  // Completed-first ordering

  /** The comparator every sort of the list uses: completed before incomplete, else a tie. */
  function Compare(a: Todo, b: Todo): int {
    if a.completed && !b.completed then -1
    else if !a.completed && b.completed then 1
    else 0
  }

  /** Inserts `x` in front of the first element that does not sort strictly before it, so
      that ties keep their order. */
  function Insert(x: Todo, s: seq<Todo>): seq<Todo> {
    if s == [] || Compare(s[0], x) >= 0 then [x] + s
    else [s[0]] + Insert(x, s[1..])
  }

  /** `Array.prototype.sort` with `Compare`: a stable sort, here by insertion. */
  function SortTodos(s: seq<Todo>): seq<Todo> {
    if s == [] then [] else Insert(s[0], SortTodos(s[1..]))
  }

  function IsDone(t: Todo): bool { t.completed }
  function IsOpen(t: Todo): bool { !t.completed }

  /** Every completed item comes before every incomplete one. */
  predicate CompletedFirst(s: seq<Todo>) {
    forall i, j :: 0 <= i < j < |s| && s[j].completed ==> s[i].completed
  }

  predicate AllDone(s: seq<Todo>) {
    forall i :: 0 <= i < |s| ==> s[i].completed
  }

  predicate AllOpen(s: seq<Todo>) {
    forall i :: 0 <= i < |s| ==> !s[i].completed
  }

  /** An incomplete item inserted into "done items, then open items" lands first among the
      open ones. */
  lemma {:induction false} InsertOpen(x: Todo, d: seq<Todo>, o: seq<Todo>)
    requires !x.completed
    requires AllDone(d) && AllOpen(o)
    ensures Insert(x, d + o) == d + ([x] + o)
    decreases |d|
  {
    if d == [] {
      assert d + o == o;
    } else {
      InsertOpen(x, d[1..], o);
      assert (d + o)[0] == d[0] && (d + o)[1..] == d[1..] + o;
    }
  }

  /** A completed item inserted into "done items, then open items" lands first. */
  lemma InsertDone(x: Todo, d: seq<Todo>, o: seq<Todo>)
    requires x.completed
    ensures Insert(x, d + o) == ([x] + d) + o
  {
    assert [x] + (d + o) == ([x] + d) + o;
  }

  /** The sort puts the completed items first and the incomplete ones after, each group in
      its original order. */
  lemma {:induction false} SortIsPartition(s: seq<Todo>)
    ensures SortTodos(s) == Filter(IsDone, s) + Filter(IsOpen, s)
    decreases |s|
  {
    if s != [] {
      SortIsPartition(s[1..]);
      InsertIntoPartition(s);
    }
  }

  /** Inserting the head into the partition of the tail gives the partition of the list. */
  lemma InsertIntoPartition(s: seq<Todo>)
    requires s != []
    ensures Insert(s[0], Filter(IsDone, s[1..]) + Filter(IsOpen, s[1..]))
         == Filter(IsDone, s) + Filter(IsOpen, s)
  {
    var d, o := Filter(IsDone, s[1..]), Filter(IsOpen, s[1..]);
    PartitionStep(s);
    if s[0].completed {
      InsertDone(s[0], d, o);
    } else {
      GroupsUniform(s[1..]);
      InsertOpen(s[0], d, o);
    }
  }

  /** One step of both filters. */
  lemma PartitionStep(s: seq<Todo>)
    requires s != []
    ensures s[0].completed ==> Filter(IsDone, s) == [s[0]] + Filter(IsDone, s[1..]) && Filter(IsOpen, s) == Filter(IsOpen, s[1..])
    ensures !s[0].completed ==> Filter(IsDone, s) == Filter(IsDone, s[1..]) && Filter(IsOpen, s) == [s[0]] + Filter(IsOpen, s[1..])
  {
  }

  /** The done group is all done and the open group all open. */
  lemma GroupsUniform(s: seq<Todo>)
    ensures AllDone(Filter(IsDone, s)) && AllOpen(Filter(IsOpen, s))
  {
    FilterMembers(IsDone, s);
    FilterMembers(IsOpen, s);
  }

  /** The partition of a list holds exactly its elements. */
  lemma {:induction false} PartitionMultiset(s: seq<Todo>)
    ensures multiset(Filter(IsDone, s) + Filter(IsOpen, s)) == multiset(s)
  {
    forall x: Todo ensures multiset(Filter(IsDone, s) + Filter(IsOpen, s))[x] == multiset(s)[x] {
      FilterMultiset(IsDone, s, x);
      FilterMultiset(IsOpen, s, x);
    }
  }

  /** A completed-first list is its own partition. */
  lemma {:induction false} CompletedFirstIsPartition(s: seq<Todo>)
    requires CompletedFirst(s)
    ensures s == Filter(IsDone, s) + Filter(IsOpen, s)
    decreases |s|
  {
    if s != [] {
      assert CompletedFirst(s[1..]) by {
        forall i, j | 0 <= i < j < |s[1..]| && s[1..][j].completed ensures s[1..][i].completed {
          assert s[i + 1] == s[1..][i] && s[j + 1] == s[1..][j];
        }
      }
      CompletedFirstIsPartition(s[1..]);
      if !s[0].completed {
        forall i | 0 <= i < |s[1..]| ensures !IsDone(s[1..][i]) {
          assert s[1..][i] == s[i + 1];
        }
        FilterNone(IsDone, s[1..]);
        FilterAll(IsOpen, s[1..]);
        assert Filter(IsOpen, s) == [s[0]] + s[1..];
      }
    }
  }

  /** The sort orders completed first, is a permutation, and is stable: within each group the
      order is the input's. Any list with these three properties is the sort's result. */
  lemma SortTodosCorrect(s: seq<Todo>, t: seq<Todo>)
    ensures var r := SortTodos(s);
      && CompletedFirst(r)
      && multiset(r) == multiset(s)
      && Filter(IsDone, r) == Filter(IsDone, s)
      && Filter(IsOpen, r) == Filter(IsOpen, s)
    ensures CompletedFirst(t) && Filter(IsDone, t) == Filter(IsDone, s) && Filter(IsOpen, t) == Filter(IsOpen, s)
      ==> t == SortTodos(s)
  {
    SortIsPartition(s);
    PartitionMultiset(s);
    var d, o := Filter(IsDone, s), Filter(IsOpen, s);
    var r: seq<Todo> := d + o;
    GroupsUniform(s);
    assert Filter(IsDone, r) == d && Filter(IsOpen, r) == o by {
      FilterConcat(IsDone, d, o);
      FilterConcat(IsOpen, d, o);
      FilterAll(IsDone, d);
      FilterNone(IsDone, o);
      FilterNone(IsOpen, d);
      FilterAll(IsOpen, o);
      assert d + [] == d && [] + o == o;
    }
    forall i, j | 0 <= i < j < |r| && r[j].completed ensures r[i].completed {
      if i < |d| {
        assert r[i] == d[i];
      }
    }
    if CompletedFirst(t) && Filter(IsDone, t) == d && Filter(IsOpen, t) == o {
      CompletedFirstIsPartition(t);
    }
  }

  // ---------------------------------------------------------------------------------------
  // Edits, as functions of the list

  function Ids(s: seq<Todo>): seq<string> {
    seq(|s|, i requires 0 <= i < |s| => s[i].id)
  }

  /** The list after flipping `completed` on every item with that id. */
  function Toggled(s: seq<Todo>, id: string): (r: seq<Todo>)
    ensures |r| == |s| && Ids(r) == Ids(s)
    ensures forall i :: 0 <= i < |s| ==>
      r[i] == if s[i].id == id then s[i].(completed := !s[i].completed) else s[i]
  {
    seq(|s|, i requires 0 <= i < |s| => if s[i].id == id then s[i].(completed := !s[i].completed) else s[i])
  }

  /** Toggling twice restores the list. */
  lemma ToggledTwice(s: seq<Todo>, id: string)
    ensures Toggled(Toggled(s, id), id) == s
  {
  }

  lemma IdsConcat(a: seq<Todo>, b: seq<Todo>)
    ensures Ids(a + b) == Ids(a) + Ids(b)
  {
  }

  /** The ids the done and open groups hold together are the ids of the list. */
  lemma {:induction false} PartitionIds(s: seq<Todo>)
    ensures multiset(Ids(Filter(IsDone, s) + Filter(IsOpen, s))) == multiset(Ids(s))
    decreases |s|
  {
    if s != [] {
      PartitionIds(s[1..]);
      var d, o := Filter(IsDone, s[1..]), Filter(IsOpen, s[1..]);
      PartitionStep(s);
      assert [s[0]] + s[1..] == s;
      IdsConcat([s[0]], s[1..]);
      IdsConcat(d, o);
      if s[0].completed {
        IdsConcat([s[0]] + d, o);
        IdsConcat([s[0]], d);
      } else {
        IdsConcat(d, [s[0]] + o);
        IdsConcat([s[0]], o);
      }
    }
  }

  /** `toggleTodo` keeps the ids: after flipping and sorting, every id occurs as often as
      before. */
  lemma ToggleKeepsIds(s: seq<Todo>, id: string)
    ensures multiset(Ids(SortTodos(Toggled(s, id)))) == multiset(Ids(s))
  {
    SortIsPartition(Toggled(s, id));
    PartitionIds(Toggled(s, id));
  }

  /** The list after `addTodo` with non-blank input: one more, incomplete item holding the
      trimmed text. */
  function WithTodoAdded(s: seq<Todo>, id: string, input: string): (r: seq<Todo>)
    requires Trim(input) != ""
  {
    SortTodos(s + [Plain(id, Trim(input), false)])
  }

  /** Adding contributes exactly the new item, placed first among the incomplete ones'
      tail: after every earlier item, incomplete and before nothing else. */
  lemma AddTodoShape(s: seq<Todo>, id: string, input: string)
    requires Trim(input) != ""
    ensures var x := Plain(id, Trim(input), false);
      && multiset(WithTodoAdded(s, id, input)) == multiset(s) + multiset{x}
      && WithTodoAdded(s, id, input) == Filter(IsDone, s) + Filter(IsOpen, s) + [x]
      && x.text != "" && !x.completed
  {
    AppendOpen(s, Plain(id, Trim(input), false));
  }

  lemma SeqAssoc(a: seq<Todo>, b: seq<Todo>, c: seq<Todo>)
    ensures a + (b + c) == a + b + c
  {
  }

  /** Sorting after appending an incomplete item puts that item last. */
  lemma AppendOpen(s: seq<Todo>, x: Todo)
    requires !x.completed
    ensures multiset(SortTodos(s + [x])) == multiset(s) + multiset{x}
    ensures SortTodos(s + [x]) == Filter(IsDone, s) + Filter(IsOpen, s) + [x]
  {
    var t := s + [x];
    SortIsPartition(t);
    PartitionMultiset(t);
    var d, o := Filter(IsDone, s), Filter(IsOpen, s);
    FilterSnoc(IsDone, s, x);
    FilterSnoc(IsOpen, s, x);
    assert !IsDone(x) && IsOpen(x);
    var a, b := Filter(IsDone, t), Filter(IsOpen, t);
    assert a == d + [] == d;
    assert b == o + [x];
    assert SortTodos(t) == a + b;
    SeqAssoc(d, o, [x]);
  }

  /** The text `saveEdit` stores: the trimmed edit, or the old text when the edit is blank. */
  function SavedText(current: string, edit: string): (text: string)
    ensures Trim(edit) != "" ==> text == Trim(edit)
    ensures Trim(edit) == "" ==> text == current
  {
    if Trim(edit) != "" then Trim(edit) else current
  }

  /** The list after `saveEdit`, before sorting: only items with that id change, and only in
      their text. */
  function Edited(s: seq<Todo>, id: string, edit: string): (r: seq<Todo>)
    ensures |r| == |s|
    ensures forall i :: 0 <= i < |s| ==>
      r[i] == if s[i].id == id then s[i].(text := SavedText(s[i].text, edit)) else s[i]
  {
    seq(|s|, i requires 0 <= i < |s| => if s[i].id == id then s[i].(text := SavedText(s[i].text, edit)) else s[i])
  }

  /** A blank edit changes nothing, and saving the same edit again changes nothing more. */
  lemma EditedProperties(s: seq<Todo>, id: string, edit: string)
    ensures Trim(edit) == "" ==> Edited(s, id, edit) == s
    ensures Edited(Edited(s, id, edit), id, edit) == Edited(s, id, edit)
  {
    var r := Edited(s, id, edit);
    if Trim(edit) == "" {
      assert forall i | 0 <= i < |s| :: r[i] == s[i];
    }
    var r2 := Edited(r, id, edit);
    assert forall i | 0 <= i < |s| :: r2[i] == r[i];
  }

  /** Keeps the items whose id differs. */
  function NotTodo(id: string): Todo -> bool {
    (t: Todo) => t.id != id
  }

  /** The list after `deleteTodo`. */
  function WithoutTodo(s: seq<Todo>, id: string): (r: seq<Todo>)
    ensures forall i :: 0 <= i < |r| ==> r[i].id != id
  {
    FilterMembers(NotTodo(id), s);
    Filter(NotTodo(id), s)
  }

  /** Deleting removes exactly the items with that id and keeps the others in order. */
  lemma WithoutTodoKeepsOthers(s: seq<Todo>, id: string, t: Todo)
    ensures multiset(WithoutTodo(s, id))[t] == if t.id == id then 0 else multiset(s)[t]
    ensures IsSubsequence(WithoutTodo(s, id), s)
  {
    FilterMultiset(NotTodo(id), s, t);
    FilterIsSubsequence(NotTodo(id), s);
  }

  // ---------------------------------------------------------------------------------------
  // The component's state

  datatype Key = Enter | Escape | OtherKey

  /** `id && editingId === id`: the key event comes from the item being edited. */
  predicate EditsItem(id: Option<string>, editingId: Option<string>) {
    id.Some? && id.value != "" && editingId == id
  }

  /** The state of `TodoList`: the items, the new-item input, and the item being edited. */
  class TodoListState {
    var todos: seq<Todo>
    var newTodo: string
    var isInputMode: bool
    var editingId: Option<string>
    var editingText: string

    /** The initial state: the ten default items, no input, nothing edited. */
    constructor()
      ensures todos == DefaultTodos && newTodo == "" && !isInputMode
      ensures editingId.None? && editingText == ""
    {
      todos := DefaultTodos;
      newTodo := "";
      isInputMode := false;
      editingId := None;
      editingText := "";
    }

    /** `toggleTodo`: flip the item, then sort completed-first. */
    method ToggleTodo(id: string)
      modifies this
      ensures todos == SortTodos(Toggled(old(todos), id))
      ensures newTodo == old(newTodo) && isInputMode == old(isInputMode)
      ensures editingId == old(editingId) && editingText == old(editingText)
    {
      todos := SortTodos(Toggled(todos, id));
    }

    /** `addTodo`: blank input is ignored; otherwise the trimmed text is added as an
        incomplete item, the list sorted, and the input cleared. */
    method AddTodo(id: string)
      modifies this
      ensures Trim(old(newTodo)) == "" ==> todos == old(todos) && newTodo == old(newTodo)
      ensures Trim(old(newTodo)) != "" ==> todos == WithTodoAdded(old(todos), id, old(newTodo)) && newTodo == ""
      ensures isInputMode == old(isInputMode)
      ensures editingId == old(editingId) && editingText == old(editingText)
    {
      if Trim(newTodo) != "" {
        todos := WithTodoAdded(todos, id, newTodo);
        newTodo := "";
      }
    }

    /** `startEditing`. */
    method StartEditing(t: Todo)
      modifies this
      ensures editingId == Some(t.id) && editingText == t.text
      ensures todos == old(todos) && newTodo == old(newTodo) && isInputMode == old(isInputMode)
    {
      editingId := Some(t.id);
      editingText := t.text;
    }

    /** The input's `onChange` while editing. */
    method SetEditingText(text: string)
      modifies this
      ensures editingText == text
      ensures todos == old(todos) && newTodo == old(newTodo) && isInputMode == old(isInputMode)
      ensures editingId == old(editingId)
    {
      editingText := text;
    }

    /** The new-item input's `onChange`. */
    method SetNewTodo(text: string)
      modifies this
      ensures newTodo == text
      ensures todos == old(todos) && isInputMode == old(isInputMode)
      ensures editingId == old(editingId) && editingText == old(editingText)
    {
      newTodo := text;
    }

    /** `saveEdit`: store the edited text, sort, and leave edit mode. */
    method SaveEdit(id: string)
      modifies this
      ensures todos == SortTodos(Edited(old(todos), id, old(editingText)))
      ensures editingId.None? && editingText == ""
      ensures newTodo == old(newTodo) && isInputMode == old(isInputMode)
    {
      todos := SortTodos(Edited(todos, id, editingText));
      editingId := None;
      editingText := "";
    }

    /** `deleteTodo`. */
    method DeleteTodo(id: string)
      modifies this
      ensures todos == WithoutTodo(old(todos), id)
      ensures newTodo == old(newTodo) && isInputMode == old(isInputMode)
      ensures editingId == old(editingId) && editingText == old(editingText)
    {
      todos := WithoutTodo(todos, id);
    }

    /** `handleDeleteWithConfirmation`: deletes only when the user confirms. */
    method DeleteWithConfirmation(id: string, confirmed: bool)
      modifies this
      ensures todos == if confirmed then WithoutTodo(old(todos), id) else old(todos)
      ensures newTodo == old(newTodo) && isInputMode == old(isInputMode)
      ensures editingId == old(editingId) && editingText == old(editingText)
    {
      if confirmed {
        DeleteTodo(id);
      }
    }

    /** `handleKeyDown`: Enter saves the edited item or adds the input; Escape abandons the
        edit or leaves input mode. `freshId` is the id a new item would get. */
    method HandleKeyDown(key: Key, id: Option<string>, freshId: string)
      modifies this
      ensures key == Enter && EditsItem(id, old(editingId)) ==>
        && todos == SortTodos(Edited(old(todos), id.value, old(editingText)))
        && editingId.None? && editingText == ""
        && newTodo == old(newTodo) && isInputMode == old(isInputMode)
      ensures key == Enter && !EditsItem(id, old(editingId)) && old(isInputMode) ==>
        && todos == (if Trim(old(newTodo)) != "" then WithTodoAdded(old(todos), freshId, old(newTodo)) else old(todos))
        && newTodo == (if Trim(old(newTodo)) != "" then "" else old(newTodo))
        && isInputMode == old(isInputMode)
        && editingId == old(editingId) && editingText == old(editingText)
      ensures key == Escape && EditsItem(id, old(editingId)) ==>
        && todos == old(todos) && editingId.None? && editingText == ""
        && newTodo == old(newTodo) && isInputMode == old(isInputMode)
      ensures key == Escape && !EditsItem(id, old(editingId)) && old(isInputMode) ==>
        && todos == old(todos) && !isInputMode && newTodo == ""
        && editingId == old(editingId) && editingText == old(editingText)
      ensures key == OtherKey || (!EditsItem(id, old(editingId)) && !old(isInputMode)) ==>
        && todos == old(todos) && newTodo == old(newTodo) && isInputMode == old(isInputMode)
        && editingId == old(editingId) && editingText == old(editingText)
    {
      if key == Enter {
        if EditsItem(id, editingId) {
          SaveEdit(id.value);
        } else if isInputMode {
          AddTodo(freshId);
        }
      } else if key == Escape {
        if EditsItem(id, editingId) {
          editingId := None;
          editingText := "";
        } else if isInputMode {
          isInputMode := false;
          newTodo := "";
        }
      }
    }

    /** The window key listener: "+" outside a text field enters input mode. */
    method HandlePlusKey(isPlusKey: bool, focusInTextField: bool)
      modifies this
      ensures isInputMode == (old(isInputMode) || (isPlusKey && !focusInTextField))
      ensures todos == old(todos) && newTodo == old(newTodo)
      ensures editingId == old(editingId) && editingText == old(editingText)
    {
      if isPlusKey && !focusInTextField && !isInputMode {
        isInputMode := true;
      }
    }

    /** `sortedTodos`: the list as displayed. */
    function SortedTodos(): (r: seq<Todo>)
      reads this
      ensures CompletedFirst(r) && multiset(r) == multiset(todos)
      ensures Filter(IsDone, r) == Filter(IsDone, todos) && Filter(IsOpen, r) == Filter(IsOpen, todos)
    {
      SortTodosCorrect(todos, todos);
      SortTodos(todos)
    }
  }
}
