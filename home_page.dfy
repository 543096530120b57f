/** `app/home/page.tsx`: the day view. It merges the stored to-do items with one item per
    action that applies on the selected day, turns edits of action items into completion
    toggles, and computes the day's progress and the confetti trigger. */
module HomePage {
  import opened Wrappers
  import opened Calendar
  import opened Seqs
  import opened Types
  import opened ProgressTracker
  import opened TodoList

  // ---------------------------------------------------------------------------------------
  // Action items of the selected day

  /** The item pushed for an action on the day whose key is `dateStr`. */
  function ActionItem(g: Goal, a: Action, dateStr: string): Todo {
    Todo("action-" + a.id + "-" + dateStr, a.name, HasCompletion(a.completions, dateStr),
         Some(a.id), Some(a.goalId), Some(g.title))
  }

  /** On the selected day's key, the item is completed exactly when the action is. */
  lemma ActionItemCompletion(g: Goal, a: Action, day: Time)
    ensures ActionItem(g, a, FormatDate(day)).completed == IsCompleted(a, day)
  {
  }

  /** The items of one goal's first actions, in action order. */
  function ActionItems(g: Goal, acts: seq<Action>, day: Time, dateStr: string): seq<Todo>
    decreases |acts|
  {
    if acts == [] then []
    else
      var last := acts[|acts| - 1];
      ActionItems(g, acts[..|acts| - 1], day, dateStr) + (if IsApplicable(last, day) then [ActionItem(g, last, dateStr)] else [])
  }

  /** The items of the first goals, goal by goal. */
  function DayItems(goals: seq<Goal>, day: Time, dateStr: string): seq<Todo>
    decreases |goals|
  {
    if goals == [] then []
    else
      var last := goals[|goals| - 1];
      DayItems(goals[..|goals| - 1], day, dateStr) + ActionItems(last, last.actions, day, dateStr)
  }

  /** An action list yields exactly the items of its applicable actions. */
  lemma {:induction false} ActionItemsMembers(g: Goal, acts: seq<Action>, day: Time, dateStr: string, t: Todo)
    ensures t in ActionItems(g, acts, day, dateStr) <==>
      exists j :: 0 <= j < |acts| && IsApplicable(acts[j], day) && t == ActionItem(g, acts[j], dateStr)
    decreases |acts|
  {
    if acts != [] {
      var n := |acts| - 1;
      ActionItemsMembers(g, acts[..n], day, dateStr, t);
      if t in ActionItems(g, acts, day, dateStr) && t !in ActionItems(g, acts[..n], day, dateStr) {
        assert IsApplicable(acts[n], day) && t == ActionItem(g, acts[n], dateStr);
      }
      if exists j :: 0 <= j < |acts| && IsApplicable(acts[j], day) && t == ActionItem(g, acts[j], dateStr) {
        var j :| 0 <= j < |acts| && IsApplicable(acts[j], day) && t == ActionItem(g, acts[j], dateStr);
        if j < n {
          assert acts[..n][j] == acts[j];
        }
      }
    }
  }

  /** An action of some goal yields an item iff it applies on the day; the item carries the
      action's name, its completion on that day and the links back to action and goal. */
  lemma DayItemsMembers(goals: seq<Goal>, day: Time, dateStr: string, t: Todo)
    ensures t in DayItems(goals, day, dateStr) <==>
      exists i, j :: 0 <= i < |goals| && 0 <= j < |goals[i].actions|
        && IsApplicable(goals[i].actions[j], day) && t == ActionItem(goals[i], goals[i].actions[j], dateStr)
  {
    if t in DayItems(goals, day, dateStr) {
      DayItemsSound(goals, day, dateStr, t);
    }
    if exists i, j :: 0 <= i < |goals| && 0 <= j < |goals[i].actions|
        && IsApplicable(goals[i].actions[j], day) && t == ActionItem(goals[i], goals[i].actions[j], dateStr) {
      var i, j :| 0 <= i < |goals| && 0 <= j < |goals[i].actions|
        && IsApplicable(goals[i].actions[j], day) && t == ActionItem(goals[i], goals[i].actions[j], dateStr);
      DayItemsComplete(goals, day, dateStr, i, j);
    }
  }

  /** Every item of the day comes from an applicable action of some goal. */
  lemma {:induction false} DayItemsSound(goals: seq<Goal>, day: Time, dateStr: string, t: Todo)
    requires t in DayItems(goals, day, dateStr)
    ensures exists i, j :: 0 <= i < |goals| && 0 <= j < |goals[i].actions|
              && IsApplicable(goals[i].actions[j], day) && t == ActionItem(goals[i], goals[i].actions[j], dateStr)
    decreases |goals|
  {
    var n := |goals| - 1;
    var pre, g := goals[..n], goals[n];
    assert DayItems(goals, day, dateStr) == DayItems(pre, day, dateStr) + ActionItems(g, g.actions, day, dateStr);
    if t in DayItems(pre, day, dateStr) {
      DayItemsSound(pre, day, dateStr, t);
      var i, j :| 0 <= i < |pre| && 0 <= j < |pre[i].actions|
        && IsApplicable(pre[i].actions[j], day) && t == ActionItem(pre[i], pre[i].actions[j], dateStr);
      assert pre[i] == goals[i];
    } else {
      ActionItemsMembers(g, g.actions, day, dateStr, t);
      var j :| 0 <= j < |g.actions| && IsApplicable(g.actions[j], day) && t == ActionItem(g, g.actions[j], dateStr);
      assert 0 <= n < |goals| && goals[n] == g;
    }
  }

  /** Every applicable action of every goal has its item among the day's items. */
  lemma {:induction false} DayItemsComplete(goals: seq<Goal>, day: Time, dateStr: string, i: int, j: int)
    requires 0 <= i < |goals| && 0 <= j < |goals[i].actions| && IsApplicable(goals[i].actions[j], day)
    ensures ActionItem(goals[i], goals[i].actions[j], dateStr) in DayItems(goals, day, dateStr)
    decreases |goals|
  {
    var n := |goals| - 1;
    var pre, g := goals[..n], goals[n];
    var t := ActionItem(goals[i], goals[i].actions[j], dateStr);
    assert DayItems(goals, day, dateStr) == DayItems(pre, day, dateStr) + ActionItems(g, g.actions, day, dateStr);
    if i < n {
      assert pre[i] == goals[i];
      DayItemsComplete(pre, day, dateStr, i, j);
    } else {
      ActionItemsMembers(g, g.actions, day, dateStr, t);
    }
  }

  /** Items come in goal order: the items of a list of goals are those of its first part
      followed by those of the rest. */
  lemma {:induction false} DayItemsConcat(a: seq<Goal>, b: seq<Goal>, day: Time, dateStr: string)
    ensures DayItems(a + b, day, dateStr) == DayItems(a, day, dateStr) + DayItems(b, day, dateStr)
    decreases |b|
  {
    if b == [] {
      assert a + b == a;
    } else {
      var n := |b| - 1;
      DayItemsConcat(a, b[..n], day, dateStr);
      assert (a + b)[..|a + b| - 1] == a + b[..n];
      assert (a + b)[|a + b| - 1] == b[n];
    }
  }

  /** One more action adds its item, if it applies, at the end. */
  lemma ActionItemsSnoc(g: Goal, acts: seq<Action>, a: Action, day: Time, dateStr: string)
    ensures ActionItems(g, acts + [a], day, dateStr)
      == ActionItems(g, acts, day, dateStr) + (if IsApplicable(a, day) then [ActionItem(g, a, dateStr)] else [])
  {
    assert (acts + [a])[..|acts|] == acts;
  }

  /** One more goal adds its items at the end. */
  lemma DayItemsSnoc(goals: seq<Goal>, g: Goal, day: Time, dateStr: string)
    ensures DayItems(goals + [g], day, dateStr) == DayItems(goals, day, dateStr) + ActionItems(g, g.actions, day, dateStr)
  {
    assert (goals + [g])[..|goals|] == goals;
  }

  /** The items of the selected day: none while the goals load. */
  function SelectedDayItems(goals: seq<Goal>, goalsLoading: bool, selected: Time): seq<Todo> {
    if goalsLoading then [] else DayItems(goals, StartOfDay(selected), FormatDate(StartOfDay(selected)))
  }

  /** `actionsForSelectedDate`: nothing while the goals load, else every goal's applicable
      actions, in goal order and action order within a goal. */
  method ActionsForSelectedDate(goals: seq<Goal>, goalsLoading: bool, selected: Time) returns (items: seq<Todo>)
    ensures items == SelectedDayItems(goals, goalsLoading, selected)
  {
    if goalsLoading {
      return [];
    }
    var day := StartOfDay(selected);
    var dateStr := FormatDate(day);
    items := CollectDayItems(goals, day, dateStr);
  }

  /** The outer `goals.forEach` of `actionsForSelectedDate`, on the day `day` keyed `dateStr`. */
  method CollectDayItems(goals: seq<Goal>, day: Time, dateStr: string) returns (items: seq<Todo>)
    ensures items == DayItems(goals, day, dateStr)
  {
    items := [];
    var i := 0;
    while i < |goals|
      invariant 0 <= i <= |goals|
      invariant items == DayItems(goals[..i], day, dateStr)
    {
      var g := goals[i];
      var goalItems := CollectGoalItems(g, day, dateStr);
      items := items + goalItems;
      DayItemsSnoc(goals[..i], g, day, dateStr);
      TakeSnoc(goals, i);
      i := i + 1;
    }
    assert goals[..i] == goals;
  }

  /** The inner `goal.actions.forEach`: one item per action that applies on `day`. */
  method CollectGoalItems(g: Goal, day: Time, dateStr: string) returns (items: seq<Todo>)
    ensures items == ActionItems(g, g.actions, day, dateStr)
  {
    items := [];
    var j := 0;
    while j < |g.actions|
      invariant 0 <= j <= |g.actions|
      invariant items == ActionItems(g, g.actions[..j], day, dateStr)
    {
      var action := g.actions[j];
      ActionItemsSnoc(g, g.actions[..j], action, day, dateStr);
      TakeSnoc(g.actions, j);
      if IsApplicable(action, day) {
        items := items + [ActionItem(g, action, dateStr)];
      }
      j := j + 1;
    }
    assert g.actions[..j] == g.actions;
  }

  // ---------------------------------------------------------------------------------------
  // The merged list

  /** `!todo.actionId`: an item not generated from an action (an empty id is falsy too). */
  function IsRegular(t: Todo): bool {
    t.actionId.None? || t.actionId.value == ""
  }

  /** `allTodos`: the regular items and the day's action items, completed first. */
  function AllTodos(todos: seq<Todo>, items: seq<Todo>): seq<Todo> {
    SortTodos(Filter(IsRegular, todos) + items)
  }

  /** The merged list is a permutation of the regular items followed by the action items,
      completed items first, each group in the order regular items then action items. */
  lemma AllTodosCorrect(todos: seq<Todo>, items: seq<Todo>)
    ensures var r := AllTodos(todos, items); var m := Filter(IsRegular, todos) + items;
      && CompletedFirst(r)
      && multiset(r) == multiset(m)
      && Filter(IsDone, r) == Filter(IsDone, m)
      && Filter(IsOpen, r) == Filter(IsOpen, m)
  {
    var m := Filter(IsRegular, todos) + items;
    SortTodosCorrect(m, m);
  }

  // ---------------------------------------------------------------------------------------
  // Edits coming back from the list

  /** A recorded call of `toggleActionCompletion(goalId, actionId, dateStr, completed)`. */
  datatype ToggleRequest = ToggleRequest(goalId: string, actionId: string, date: string, completed: bool)

  /** `updatedTodo.actionId && updatedTodo.goalId`. */
  predicate IsLinked(t: Todo) {
    t.actionId.Some? && t.actionId.value != "" && t.goalId.Some? && t.goalId.value != ""
  }

  /** `actionsForSelectedDate.find(...)`: the first item for the same action and goal. */
  function FindOriginal(items: seq<Todo>, t: Todo): (r: Option<Todo>)
    ensures r.None? <==> forall k :: 0 <= k < |items| ==> !(items[k].actionId == t.actionId && items[k].goalId == t.goalId)
    ensures r.Some? ==> r.value in items && r.value.actionId == t.actionId && r.value.goalId == t.goalId
    ensures r.Some? ==> exists k :: (0 <= k < |items| && r.value == items[k]
      && forall j :: 0 <= j < k ==> !(items[j].actionId == t.actionId && items[j].goalId == t.goalId))
  {
    if items == [] then None
    else if items[0].actionId == t.actionId && items[0].goalId == t.goalId then Some(items[0])
    else FindOriginal(items[1..], t)
  }

  /** The call an edited item triggers, if any: only a linked item whose original exists and
      whose completion changed. */
  function RequestFor(t: Todo, items: seq<Todo>, dateStr: string): Option<ToggleRequest> {
    if !IsLinked(t) then None
    else match FindOriginal(items, t)
      case Some(o) =>
        if o.completed != t.completed then Some(ToggleRequest(t.goalId.value, t.actionId.value, dateStr, t.completed))
        else None
      case None => None
  }

  /** The calls the first updated items trigger, in list order. */
  function ToggleRequests(updated: seq<Todo>, items: seq<Todo>, dateStr: string): seq<ToggleRequest>
    decreases |updated|
  {
    if updated == [] then []
    else
      var n := |updated| - 1;
      ToggleRequests(updated[..n], items, dateStr)
        + match RequestFor(updated[n], items, dateStr) case Some(r) => [r] case None => []
  }

  /** One more edited item adds its call, if any, at the end. */
  lemma ToggleRequestsSnoc(updated: seq<Todo>, t: Todo, items: seq<Todo>, dateStr: string)
    ensures ToggleRequests(updated + [t], items, dateStr)
      == ToggleRequests(updated, items, dateStr) + match RequestFor(t, items, dateStr) case Some(r) => [r] case None => []
  {
    assert (updated + [t])[..|updated|] == updated;
  }

  /** The loop of `handleTodosChange`: one call for each linked edited item whose completion
      differs from its original, in list order. */
  method CollectToggleRequests(updated: seq<Todo>, items: seq<Todo>, dateStr: string)
    returns (requests: seq<ToggleRequest>)
    ensures requests == ToggleRequests(updated, items, dateStr)
  {
    requests := [];
    var k := 0;
    while k < |updated|
      invariant 0 <= k <= |updated|
      invariant requests == ToggleRequests(updated[..k], items, dateStr)
    {
      var t := updated[k];
      ToggleRequestsSnoc(updated[..k], t, items, dateStr);
      TakeSnoc(updated, k);
      if IsLinked(t) {
        var original := FindOriginal(items, t);
        if original.Some? && original.value.completed != t.completed {
          requests := requests + [ToggleRequest(t.goalId.value, t.actionId.value, dateStr, t.completed)];
        }
      }
      k := k + 1;
    }
    assert updated[..k] == updated;
  }

  /** Every call stems from a linked edited item whose completion differs from its original
      projection, asks for that item's new value and names the selected day. */
  lemma {:induction false} RequestsAreChanges(updated: seq<Todo>, items: seq<Todo>, dateStr: string, r: ToggleRequest)
    requires r in ToggleRequests(updated, items, dateStr)
    ensures r.date == dateStr
    ensures exists k :: (0 <= k < |updated| && IsLinked(updated[k])
      && FindOriginal(items, updated[k]).Some?
      && FindOriginal(items, updated[k]).value.completed != updated[k].completed
      && r == ToggleRequest(updated[k].goalId.value, updated[k].actionId.value, dateStr, updated[k].completed))
    decreases |updated|
  {
    var n := |updated| - 1;
    var prev := ToggleRequests(updated[..n], items, dateStr);
    if r in prev {
      RequestsAreChanges(updated[..n], items, dateStr, r);
      var k :| 0 <= k < n && IsLinked(updated[..n][k])
        && FindOriginal(items, updated[..n][k]).Some?
        && FindOriginal(items, updated[..n][k]).value.completed != updated[..n][k].completed
        && r == ToggleRequest(updated[..n][k].goalId.value, updated[..n][k].actionId.value, dateStr, updated[..n][k].completed);
      assert updated[..n][k] == updated[k];
    } else {
      assert RequestFor(updated[n], items, dateStr) == Some(r);
    }
  }

  /** No action is listed twice for the same goal. */
  predicate DistinctLinks(items: seq<Todo>) {
    forall k, l :: 0 <= k < l < |items| ==> !(items[k].actionId == items[l].actionId && items[k].goalId == items[l].goalId)
  }

  /** Each item of a list without repeated links is its own original. */
  lemma {:induction false} FindOriginalSelf(items: seq<Todo>, k: nat)
    requires k < |items| && DistinctLinks(items)
    ensures FindOriginal(items, items[k]) == Some(items[k])
    decreases k
  {
    if k > 0 {
      assert DistinctLinks(items[1..]) by {
        forall a, b | 0 <= a < b < |items[1..]|
          ensures !(items[1..][a].actionId == items[1..][b].actionId && items[1..][a].goalId == items[1..][b].goalId)
        {
          assert items[1..][a] == items[a + 1] && items[1..][b] == items[b + 1];
        }
      }
      FindOriginalSelf(items[1..], k - 1);
      assert items[1..][k - 1] == items[k];
    }
  }

  /** Handing back the day's items unchanged triggers no call. */
  lemma {:induction false} UnchangedNoRequests(items: seq<Todo>, n: nat, dateStr: string)
    requires n <= |items| && DistinctLinks(items)
    ensures ToggleRequests(items[..n], items, dateStr) == []
    decreases n
  {
    if n > 0 {
      assert items[..n][..n - 1] == items[..n - 1];
      UnchangedNoRequests(items, n - 1, dateStr);
      FindOriginalSelf(items, n - 1);
      assert items[..n][n - 1] == items[n - 1];
    }
  }

  // ---------------------------------------------------------------------------------------
  // Progress and confetti

  /** `(completedTodos / totalTodos) * 100`, or 0 for an empty list. */
  function DayProgress(all: seq<Todo>): (p: real)
    ensures |all| == 0 ==> p == 0.0
    ensures |all| > 0 ==> Share(|Filter(IsDone, all)|, |all|, p)
  {
    if |all| > 0 then
      var c, n := |Filter(IsDone, all)|, |all|;
      ShareOf(c, n);
      ((c as real) / (n as real)) * 100.0
    else 0.0
  }

  /** `p` is `c` out of `n` as a percentage, between 0 and 100, and 100 only for the whole. */
  predicate Share(c: nat, n: nat, p: real) {
    && p * (n as real) == (c as real) * 100.0
    && (c <= n ==> 0.0 <= p <= 100.0)
    && (c <= n ==> (p == 100.0 <==> c == n))
  }

  /** A positive factor cancels. */
  lemma CancelReal(a: real, b: real, n: real)
    requires n > 0.0 && a * n == b * n
    ensures a == b
  {
  }

  lemma ShareOf(c: nat, n: nat)
    requires n > 0
    ensures Share(c, n, ((c as real) / (n as real)) * 100.0)
  {
    var cr, nr := c as real, n as real;
    var q := cr / nr;
    assert q * nr == cr;
    var p := q * 100.0;
    assert p * nr == (q * nr) * 100.0;
    if c <= n {
      assert 0.0 <= q <= 1.0;
      if p == 100.0 {
        assert q == 1.0;
      }
      if c == n {
        assert q * nr == 1.0 * nr;
        CancelReal(q, 1.0, nr);
      }
    }
  }

  /** The progress lies in 0..100 and is 100 exactly when the list is non-empty and every
      item is completed. */
  lemma DayProgressFull(all: seq<Todo>)
    ensures 0.0 <= DayProgress(all) <= 100.0
    ensures DayProgress(all) == 100.0 <==> |all| > 0 && forall i :: 0 <= i < |all| ==> all[i].completed
  {
    FilterLengthAll(IsDone, all);
  }

  /** The confetti condition. */
  predicate ConfettiFires(isToday: bool, progress: real, prevProgress: real, total: int) {
    isToday && progress == 100.0 && prevProgress < 100.0 && total > 0
  }

  /** The confetti fires exactly when, on today's view, the last open item was just
      completed: the list is non-empty, every item is done, and before it was not yet 100. */
  lemma ConfettiMeansAllDone(isToday: bool, all: seq<Todo>, prevProgress: real)
    ensures ConfettiFires(isToday, DayProgress(all), prevProgress, |all|) <==>
      isToday && prevProgress < 100.0 && |all| > 0 && forall i :: 0 <= i < |all| ==> all[i].completed
  {
    DayProgressFull(all);
  }

  // ---------------------------------------------------------------------------------------
  // The page's state

  /** What the load effect found under the to-do key. */
  datatype TodoRead = NothingStored | Unparsable | NotAList | ParsedList(list: seq<Todo>)

  datatype Direction = Up | Down

  datatype NavKey = ArrowUp | ArrowDown | OtherNavKey

  /** The state of `HomePage`: the stored items, the selected day, the previous progress
      remembered for the confetti, and the animation direction. */
  class HomePageState {
    var todos: seq<Todo>
    var isLoaded: bool
    var selectedDate: Time
    var prevProgress: real
    var confettiKey: nat
    var direction: Direction
    var prevDate: Time

    /** The first render: the default items, today selected, progress remembered as the
        progress of the first render's list. */
    constructor(now: Time, initialProgress: real)
      ensures todos == DefaultTodos && !isLoaded && selectedDate == now
      ensures prevProgress == initialProgress && confettiKey == 0
      ensures direction == Down && prevDate == now
    {
      todos := DefaultTodos;
      isLoaded := false;
      selectedDate := now;
      prevProgress := initialProgress;
      confettiKey := 0;
      direction := Down;
      prevDate := now;
    }

    /** The load effect: a non-empty stored list replaces the items, anything else restores
        the defaults; loading ends in every case. */
    method LoadTodos(read: TodoRead)
      modifies this
      ensures todos == if read.ParsedList? && |read.list| > 0 then read.list else DefaultTodos
      ensures isLoaded
      ensures selectedDate == old(selectedDate) && prevProgress == old(prevProgress)
      ensures confettiKey == old(confettiKey) && direction == old(direction) && prevDate == old(prevDate)
    {
      if read.ParsedList? && |read.list| > 0 {
        todos := read.list;
      } else {
        todos := DefaultTodos;
      }
      isLoaded := true;
    }

    /** The list shown for the selected day. */
    function Shown(goals: seq<Goal>, goalsLoading: bool): seq<Todo>
      reads this
    {
      AllTodos(todos, SelectedDayItems(goals, goalsLoading, selectedDate))
    }

    /** `handleTodosChange`: keep the regular items of the edited list and return, in list
        order, the completion toggles its action items ask for. */
    method HandleTodosChange(updated: seq<Todo>, goals: seq<Goal>, goalsLoading: bool)
      returns (requests: seq<ToggleRequest>)
      modifies this
      ensures todos == Filter(IsRegular, updated)
      ensures requests == ToggleRequests(updated, SelectedDayItems(goals, goalsLoading, selectedDate),
                                         FormatDate(StartOfDay(selectedDate)))
      ensures selectedDate == old(selectedDate) && isLoaded == old(isLoaded) && prevProgress == old(prevProgress)
      ensures confettiKey == old(confettiKey) && direction == old(direction) && prevDate == old(prevDate)
    {
      var selected := selectedDate;
      var items := ActionsForSelectedDate(goals, goalsLoading, selected);
      requests := CollectToggleRequests(updated, items, FormatDate(StartOfDay(selected)));
      todos := Filter(IsRegular, updated);
    }

    /** The confetti effect: fire on reaching 100 on today's view, then remember the
        progress. */
    method ConfettiEffect(now: Time, progress: real, total: int)
      modifies this
      ensures confettiKey == if ConfettiFires(DayOf(selectedDate) == DayOf(now), progress, old(prevProgress), total)
        then old(confettiKey) + 1 else old(confettiKey)
      ensures prevProgress == progress
      ensures todos == old(todos) && isLoaded == old(isLoaded) && selectedDate == old(selectedDate)
      ensures direction == old(direction) && prevDate == old(prevDate)
    {
      var isToday := StartOfDay(selectedDate) == StartOfDay(now);
      StartOfDayOrder(selectedDate, now);
      StartOfDayOrder(now, selectedDate);
      if isToday && progress == 100.0 && prevProgress < 100.0 && total > 0 {
        confettiKey := confettiKey + 1;
      }
      prevProgress := progress;
    }

    /** The direction effect: a later day slides down, an earlier one up, the same day keeps
        the direction. */
    method DirectionEffect()
      modifies this
      ensures direction == if Ms(selectedDate) > Ms(old(prevDate)) then Down
                           else if Ms(selectedDate) < Ms(old(prevDate)) then Up else old(direction)
      ensures prevDate == selectedDate
      ensures todos == old(todos) && isLoaded == old(isLoaded) && selectedDate == old(selectedDate)
      ensures prevProgress == old(prevProgress) && confettiKey == old(confettiKey)
    {
      if Ms(selectedDate) > Ms(prevDate) {
        direction := Down;
      } else if Ms(selectedDate) < Ms(prevDate) {
        direction := Up;
      }
      prevDate := selectedDate;
    }

    /** Option + arrow outside a text field moves the selection one day. */
    method HandleNavKey(key: NavKey, altKey: bool, focusInTextField: bool)
      modifies this
      ensures selectedDate == if altKey && !focusInTextField && key == ArrowUp then AddDays(old(selectedDate), -1)
                              else if altKey && !focusInTextField && key == ArrowDown then AddDays(old(selectedDate), 1)
                              else old(selectedDate)
      ensures todos == old(todos) && isLoaded == old(isLoaded) && prevProgress == old(prevProgress)
      ensures confettiKey == old(confettiKey) && direction == old(direction) && prevDate == old(prevDate)
    {
      if altKey && !focusInTextField {
        if key == ArrowUp {
          selectedDate := AddDays(selectedDate, -1);
        } else if key == ArrowDown {
          selectedDate := AddDays(selectedDate, 1);
        }
      }
    }

    /** Choosing a day in a navigator. */
    method SetSelectedDate(d: Time)
      modifies this
      ensures selectedDate == d
      ensures todos == old(todos) && isLoaded == old(isLoaded) && prevProgress == old(prevProgress)
      ensures confettiKey == old(confettiKey) && direction == old(direction) && prevDate == old(prevDate)
    {
      selectedDate := d;
    }
  }
}
