/** `lib/useGoals.ts`: the goal store. Loading migrates legacy goals and drops duplicate ids;
    the mutators replace the goal list by a map or filter over the previous one. Storage
    reads and writes are outside the model: what was read arrives as a `StorageRead`, and
    the ids and timestamps the hook would generate arrive as parameters. */
module GoalStore {
  import opened Wrappers
  import opened Calendar
  import opened Seqs
  import opened Types
  import opened ProgressTracker
  import opened ActionUtils

  // ---------------------------------------------------------------------------------------
  // Loading

  /** A goal as parsed from storage: older versions kept the actions under `habits`. */
  datatype StoredGoal = StoredGoal(
    id: string,
    title: string,
    actions: Option<seq<Action>>,
    habits: Option<seq<Action>>,
    createdAt: Time,
    targetDate: Option<Time>,
    completed: bool)

  /** The migration step of the load effect: a goal with `habits` and without `actions`
      gets its habits as actions and loses the `habits` field; any other goal is kept. */
  function Migrate(g: StoredGoal): (m: StoredGoal)
    ensures g.habits.Some? && g.actions.None? ==> m == g.(actions := g.habits, habits := None)
    ensures !(g.habits.Some? && g.actions.None?) ==> m == g
    ensures m.actions.Some? <==> g.actions.Some? || g.habits.Some?
  {
    if g.habits.Some? && g.actions.None? then
      var rest := g.(habits := None);
      rest.(actions := g.habits)
    else g
  }

  /** Migrating twice is migrating once. */
  lemma MigrateIdempotent(g: StoredGoal)
    ensures Migrate(Migrate(g)) == Migrate(g)
  {
  }

  /** The stored goal as a `Goal`; an absent action list reads as empty. */
  function AsGoal(g: StoredGoal): Goal {
    Goal(g.id, g.title, g.actions.GetOr([]), g.createdAt, g.targetDate, g.completed)
  }

  /** `findIndex(g => g.id === id)`: the first position holding that id, or -1. */
  function FindIndex(goals: seq<Goal>, id: string): (k: int)
    ensures -1 <= k < |goals|
    ensures k >= 0 ==> goals[k].id == id
    ensures forall j :: 0 <= j < |goals| && (k == -1 || j < k) ==> goals[j].id != id
  {
    if goals == [] then -1
    else if goals[0].id == id then 0
    else
      var k := FindIndex(goals[1..], id);
      if k == -1 then -1 else k + 1
  }

  /** The first `n` steps of `filter((goal, index, self) => index === self.findIndex(...))`:
      the goals among the first `n` that are the first occurrence of their id. */
  function KeepFirst(goals: seq<Goal>, n: nat): seq<Goal>
    requires n <= |goals|
  {
    if n == 0 then []
    else
      var i := n - 1;
      KeepFirst(goals, i) + (if IsFirstOfId(goals, i) then [goals[i]] else [])
  }

  /** The duplicate-removal step of the load effect. */
  function Dedupe(goals: seq<Goal>): seq<Goal> {
    KeepFirst(goals, |goals|)
  }

  /** `goals[i]` is the first goal carrying its id. */
  predicate IsFirstOfId(goals: seq<Goal>, i: int)
    requires 0 <= i < |goals|
  {
    FindIndex(goals, goals[i].id) == i
  }

  /** Everything `KeepFirst` keeps is a first occurrence from the prefix. */
  lemma {:induction false} KeepFirstKeepsFirsts(goals: seq<Goal>, n: nat)
    requires n <= |goals|
    ensures forall k :: 0 <= k < |KeepFirst(goals, n)| ==>
      exists i :: 0 <= i < n && IsFirstOfId(goals, i) && KeepFirst(goals, n)[k] == goals[i]
    decreases n
  {
    if n > 0 {
      var i := n - 1;
      KeepFirstKeepsFirsts(goals, i);
      var prev, r := KeepFirst(goals, i), KeepFirst(goals, n);
      assert r == prev + (if IsFirstOfId(goals, i) then [goals[i]] else []);
      forall k | 0 <= k < |r|
        ensures exists j :: 0 <= j < n && IsFirstOfId(goals, j) && r[k] == goals[j]
      {
        if k < |prev| {
          var j :| 0 <= j < i && IsFirstOfId(goals, j) && prev[k] == goals[j];
          assert 0 <= j < n && IsFirstOfId(goals, j) && r[k] == goals[j];
        } else {
          assert |r| != |prev|;
          assert IsFirstOfId(goals, i) && r[k] == goals[i];
        }
      }
      assert r == KeepFirst(goals, n);
    } else {
      assert KeepFirst(goals, n) == [];
    }
  }

  /** The goals `KeepFirst` keeps carry pairwise different ids. */
  lemma {:induction false} KeepFirstDistinct(goals: seq<Goal>, n: nat)
    requires n <= |goals|
    ensures forall k, l :: 0 <= k < l < |KeepFirst(goals, n)| ==> KeepFirst(goals, n)[k].id != KeepFirst(goals, n)[l].id
    decreases n
  {
    if n > 0 {
      var i := n - 1;
      KeepFirstDistinct(goals, i);
      KeepFirstKeepsFirsts(goals, i);
      var prev, r := KeepFirst(goals, i), KeepFirst(goals, n);
      assert r == prev + (if IsFirstOfId(goals, i) then [goals[i]] else []);
      if IsFirstOfId(goals, i) {
        forall k | 0 <= k < |prev| ensures prev[k].id != goals[i].id {
          assert exists m :: 0 <= m < i && IsFirstOfId(goals, m) && prev[k] == goals[m];
          var m :| 0 <= m < i && IsFirstOfId(goals, m) && prev[k] == goals[m];
        }
        assert r == prev + [goals[i]];
      } else {
        assert r == prev;
      }
    }
  }

  /** Every id of the prefix is kept. */
  lemma {:induction false} KeepFirstCovers(goals: seq<Goal>, n: nat)
    requires n <= |goals|
    ensures forall i :: 0 <= i < n ==>
      exists k :: 0 <= k < |KeepFirst(goals, n)| && KeepFirst(goals, n)[k].id == goals[i].id
    decreases n
  {
    if n > 0 {
      var i := n - 1;
      KeepFirstCovers(goals, i);
      var prev, r := KeepFirst(goals, i), KeepFirst(goals, n);
      assert r == prev + (if IsFirstOfId(goals, i) then [goals[i]] else []);
      forall idx | 0 <= idx < n ensures exists k :: 0 <= k < |r| && r[k].id == goals[idx].id {
        if idx < i {
          var k :| 0 <= k < |prev| && prev[k].id == goals[idx].id;
          assert r[k] == prev[k];
        } else if IsFirstOfId(goals, i) {
          assert r[|prev|] == goals[i];
        } else {
          var j := FindIndex(goals, goals[i].id);
          assert 0 <= j < i && goals[j].id == goals[i].id;
          var k :| 0 <= k < |prev| && prev[k].id == goals[j].id;
          assert r[k] == prev[k];
        }
      }
      assert r == KeepFirst(goals, n);
    }
  }

  /** `KeepFirst` keeps the input order. */
  lemma {:induction false} KeepFirstOrdered(goals: seq<Goal>, n: nat)
    requires n <= |goals|
    ensures IsSubsequence(KeepFirst(goals, n), goals[..n])
    decreases n
  {
    if n == 0 {
    } else {
      var i := n - 1;
      KeepFirstOrdered(goals, i);
      assert goals[..n] == goals[..i] + [goals[i]];
      var prev, r := KeepFirst(goals, i), KeepFirst(goals, n);
      if IsFirstOfId(goals, i) {
        assert r == prev + [goals[i]];
        SubsequenceSnocBoth(KeepFirst(goals, i), goals[..i], goals[i]);
      } else {
        assert r == prev;
        SubsequenceSnocRight(KeepFirst(goals, i), goals[..i], goals[i]);
      }
    }
  }

  /** Appending a kept element to both sides preserves the subsequence relation. */
  lemma {:induction false} SubsequenceSnocBoth<T>(a: seq<T>, b: seq<T>, x: T)
    requires IsSubsequence(a, b)
    ensures IsSubsequence(a + [x], b + [x])
    decreases |b|
  {
    if a == [] {
      IsSubsequenceOfSingleton(b, x);
      assert a + [x] == [x];
    } else if a[0] == b[0] && IsSubsequence(a[1..], b[1..]) {
      SubsequenceSnocBoth(a[1..], b[1..], x);
      assert (a + [x])[1..] == a[1..] + [x] && (b + [x])[1..] == b[1..] + [x];
    } else {
      SubsequenceSnocBoth(a, b[1..], x);
      assert (b + [x])[1..] == b[1..] + [x];
    }
  }

  /** Appending a dropped element to the longer side preserves the subsequence relation. */
  lemma {:induction false} SubsequenceSnocRight<T>(a: seq<T>, b: seq<T>, x: T)
    requires IsSubsequence(a, b)
    ensures IsSubsequence(a, b + [x])
    decreases |b|
  {
    if a != [] {
      if a[0] == b[0] && IsSubsequence(a[1..], b[1..]) {
        SubsequenceSnocRight(a[1..], b[1..], x);
      } else {
        SubsequenceSnocRight(a, b[1..], x);
      }
      assert (b + [x])[1..] == b[1..] + [x];
    }
  }

  /** `[x]` is a subsequence of any list ending in `x`. */
  lemma {:induction false} IsSubsequenceOfSingleton<T>(b: seq<T>, x: T)
    ensures IsSubsequence([x], b + [x])
    decreases |b|
  {
    if b != [] {
      IsSubsequenceOfSingleton(b[1..], x);
      assert (b + [x])[1..] == b[1..] + [x];
    }
  }

  /** Dedupe keeps the first goal of every id and nothing else, in input order: ids become
      distinct, no id is lost, and each kept goal is the first stored under its id. */
  lemma DedupeProperties(goals: seq<Goal>)
    ensures var r := Dedupe(goals);
      && (forall k, l :: 0 <= k < l < |r| ==> r[k].id != r[l].id)
      && (forall i :: 0 <= i < |goals| ==> exists k :: 0 <= k < |r| && r[k].id == goals[i].id)
      && (forall k :: 0 <= k < |r| ==>
            0 <= FindIndex(goals, r[k].id) && goals[FindIndex(goals, r[k].id)] == r[k])
      && IsSubsequence(r, goals)
  {
    var n := |goals|;
    KeepFirstKeepsFirsts(goals, n);
    KeepFirstDistinct(goals, n);
    KeepFirstCovers(goals, n);
    KeepFirstOrdered(goals, n);
    assert goals[..n] == goals;
  }

  /** A list without repeated ids passes through unchanged. */
  lemma {:induction false} KeepFirstDistinctIdentity(goals: seq<Goal>, n: nat)
    requires n <= |goals|
    requires forall i, j :: 0 <= i < j < |goals| ==> goals[i].id != goals[j].id
    ensures KeepFirst(goals, n) == goals[..n]
    decreases n
  {
    if n > 0 {
      var i := n - 1;
      KeepFirstDistinctIdentity(goals, i);
      assert FindIndex(goals, goals[i].id) == i;
      assert goals[..n] == goals[..i] + [goals[i]];
    }
  }

  /** Deduplicating twice is deduplicating once. */
  lemma DedupeIdempotent(goals: seq<Goal>)
    ensures Dedupe(Dedupe(goals)) == Dedupe(goals)
  {
    var r := Dedupe(goals);
    DedupeProperties(goals);
    KeepFirstDistinctIdentity(r, |r|);
    assert r[..|r|] == r;
  }

  /** What the load effect found in storage: nothing (or an empty string), something that
      does not parse as a list of goals, or a parsed list. */
  datatype StorageRead = Absent | Unparsable | Parsed(stored: seq<StoredGoal>)

  /** The goals the load effect installs from a parsed list. */
  function LoadedGoals(stored: seq<StoredGoal>): seq<Goal> {
    Dedupe(seq(|stored|, i requires 0 <= i < |stored| => AsGoal(Migrate(stored[i]))))
  }

  // ---------------------------------------------------------------------------------------
  // Example goals

  /** The four ids the hook generates for the example goals. */
  datatype SeedIds = SeedIds(goal1: string, goal2: string, action1: string, action2: string)

  /** The example goals with the given recurrences for their two actions; every timestamp is
      "now", and the second goal's target is thirty days ahead. */
  function SeedWith(ids: SeedIds, now: Time, r1: Recurrence, r2: Recurrence): seq<Goal> {
    [ Goal(ids.goal1, "Read \"Atomic Habits\" book",
           [Action(ids.action1, ids.goal1, "Read 10 pages", r1, now, [])], now, None, false),
      Goal(ids.goal2, "Run 30 minutes",
           [Action(ids.action2, ids.goal2, "Run 30 minutes", r2, now, [])], now, Some(AddDays(now, 30)), false) ]
  }

  /** The example goals as the source writes them: each recurrence is the bare string
      `'daily'` or `'weekly'`, so its `type` field is undefined. */
  function SeedAsWritten(ids: SeedIds, now: Time): seq<Goal> {
    SeedWith(ids, now, Recurrence(Unrecognised, None, None), Recurrence(Unrecognised, None, None))
  }

  /** As written, neither example action ever applies, and both are labelled "Daily". */
  lemma SeedAsWrittenNeverApplies(ids: SeedIds, now: Time, t: Time)
    ensures var gs := SeedAsWritten(ids, now);
      && !IsApplicable(gs[0].actions[0], t) && !IsApplicable(gs[1].actions[0], t)
      && FormatRecurrence(gs[1].actions[0].recurrence) == "Daily"
  {
  }

  /** The example goals as evidently intended: a daily action and a weekly one on the weekday
      of its creation (the weekday the recurrence dialog proposes for a new weekly rule). */
  function Seed(ids: SeedIds, now: Time): seq<Goal> {
    SeedWith(ids, now, Recurrence(Daily, None, None), Recurrence(Weekly, Some(Weekday(DayOf(now))), None))
  }

  /** The intended example actions have valid rules, belong to their goals and apply from
      their creation on, and the weekly one is labelled with its weekday. */
  lemma SeedApplies(ids: SeedIds, now: Time)
    ensures var gs := Seed(ids, now);
      && OwnsActions(gs[0]) && OwnsActions(gs[1])
      && ValidRecurrence(gs[0].actions[0].recurrence) && ValidRecurrence(gs[1].actions[0].recurrence)
      && IsApplicable(gs[0].actions[0], now) && IsApplicable(gs[1].actions[0], now)
      && FormatRecurrence(gs[1].actions[0].recurrence) == "Every " + DayNames[Weekday(DayOf(now))]
  {
  }

  /** In any week after their creation the intended daily action applies on 7 days and the
      weekly one on 1. */
  lemma SeedWeeklyCounts(ids: SeedIds, now: Time, start: Time)
    requires Ms(now) <= Ms(start)
    ensures var gs := Seed(ids, now);
      && CountApplicable(gs[0].actions[0].recurrence, now, start, 7) == 7
      && CountApplicable(gs[1].actions[0].recurrence, now, start, 7) == 1
  {
    var gs := Seed(ids, now);
    var r1, r2 := gs[0].actions[0].recurrence, gs[1].actions[0].recurrence;
    WeekCount(r1, now, start);
    DaysPerWeekByKind(r1);
    WeekCount(r2, now, start);
    DaysPerWeekByKind(r2);
  }

  // ---------------------------------------------------------------------------------------
  // Goal operations

  /** `Omit<Goal, 'id' | 'createdAt' | 'actions'>`. */
  datatype GoalDraft = GoalDraft(title: string, targetDate: Option<Time>, completed: bool)

  function NewGoal(d: GoalDraft, id: string, now: Time): Goal {
    Goal(id, d.title, [], now, d.targetDate, d.completed)
  }

  /** The list after `createGoal`: the new goal, without actions, appended at the end. */
  function WithGoalCreated(goals: seq<Goal>, d: GoalDraft, id: string, now: Time): (r: seq<Goal>)
    ensures |r| == |goals| + 1 && r[..|goals|] == goals
    ensures r[|goals|] == NewGoal(d, id, now) && r[|goals|].actions == []
  {
    goals + [NewGoal(d, id, now)]
  }

  /** `Partial<Goal>`: each field is either left alone (`None`) or set. Setting the target to
      `Some(None)` clears it, as spreading an explicit `undefined` does. */
  datatype GoalPatch = GoalPatch(
    id: Option<string>,
    title: Option<string>,
    actions: Option<seq<Action>>,
    createdAt: Option<Time>,
    targetDate: Option<Option<Time>>,
    completed: Option<bool>)

  /** `{ ...goal, ...goalData }`. */
  function ApplyGoalPatch(g: Goal, p: GoalPatch): Goal {
    Goal(p.id.GetOr(g.id), p.title.GetOr(g.title), p.actions.GetOr(g.actions),
         p.createdAt.GetOr(g.createdAt), p.targetDate.GetOr(g.targetDate), p.completed.GetOr(g.completed))
  }

  /** Merging the same fields twice is merging them once. */
  lemma ApplyGoalPatchIdempotent(g: Goal, p: GoalPatch)
    ensures ApplyGoalPatch(ApplyGoalPatch(g, p), p) == ApplyGoalPatch(g, p)
  {
  }

  /** The list after `updateGoal`: the fields merged into every goal with that id. */
  function WithGoalUpdated(goals: seq<Goal>, id: string, p: GoalPatch): (r: seq<Goal>)
    ensures |r| == |goals|
    ensures forall i :: 0 <= i < |goals| ==>
      r[i] == if goals[i].id == id then ApplyGoalPatch(goals[i], p) else goals[i]
  {
    seq(|goals|, i requires 0 <= i < |goals| => if goals[i].id == id then ApplyGoalPatch(goals[i], p) else goals[i])
  }

  /** Updating twice with the same fields is updating once: after the first update no goal
      still carries the id unless the patch kept it, and merged goals are fixed points. */
  lemma UpdateGoalIdempotent(goals: seq<Goal>, id: string, p: GoalPatch)
    ensures WithGoalUpdated(WithGoalUpdated(goals, id, p), id, p) == WithGoalUpdated(goals, id, p)
  {
    var once := WithGoalUpdated(goals, id, p);
    forall i | 0 <= i < |goals|
      ensures WithGoalUpdated(once, id, p)[i] == once[i]
    {
      ApplyGoalPatchIdempotent(goals[i], p);
    }
  }

  /** `g => g.id !== id`. */
  function NotGoal(id: string): Goal -> bool {
    (g: Goal) => g.id != id
  }

  /** `a => a.id !== actionId`. */
  function NotAction(actionId: string): Action -> bool {
    (a: Action) => a.id != actionId
  }

  /** The list after `deleteGoal`: the goals with other ids, in order. */
  function WithGoalDeleted(goals: seq<Goal>, id: string): (r: seq<Goal>)
    ensures forall i :: 0 <= i < |r| ==> r[i].id != id
  {
    FilterMembers(NotGoal(id), goals);
    Filter(NotGoal(id), goals)
  }

  /** Deleting removes exactly the goals with that id, their actions with them, and keeps the
      rest in order and with their multiplicity. */
  lemma DeleteGoalKeepsOthers(goals: seq<Goal>, id: string, g: Goal)
    ensures multiset(WithGoalDeleted(goals, id))[g] == if g.id == id then 0 else multiset(goals)[g]
    ensures IsSubsequence(WithGoalDeleted(goals, id), goals)
  {
    FilterMultiset(NotGoal(id), goals, g);
    FilterIsSubsequence(NotGoal(id), goals);
  }

  /** `getGoal`: the first goal with that id. */
  function FindGoal(goals: seq<Goal>, id: string): (r: Option<Goal>)
    ensures r.None? <==> forall i :: 0 <= i < |goals| ==> goals[i].id != id
    ensures r.Some? ==> r.value.id == id && r.value == goals[FindIndex(goals, id)]
  {
    var k := FindIndex(goals, id);
    if k == -1 then None else Some(goals[k])
  }

  /** A goal created with a fresh id is found under it; after deletion nothing is. */
  lemma GetAfterCreateAndDelete(goals: seq<Goal>, d: GoalDraft, id: string, now: Time)
    requires forall i :: 0 <= i < |goals| ==> goals[i].id != id
    ensures FindGoal(WithGoalCreated(goals, d, id, now), id) == Some(NewGoal(d, id, now))
    ensures FindGoal(WithGoalDeleted(WithGoalCreated(goals, d, id, now), id), id) == None
  {
  }

  // ---------------------------------------------------------------------------------------
  // Action operations

  /** `Omit<Action, 'id' | 'goalId' | 'createdAt'>`. */
  datatype ActionDraft = ActionDraft(name: string, recurrence: Recurrence, completions: seq<Completion>)

  function NewAction(d: ActionDraft, id: string, goalId: string, now: Time): Action {
    Action(id, goalId, d.name, d.recurrence, now, d.completions)
  }

  /** The list after `addAction`: the new action, carrying the goal's id, appended to every
      goal with that id. */
  function WithActionAdded(goals: seq<Goal>, goalId: string, d: ActionDraft, id: string, now: Time): (r: seq<Goal>)
    ensures |r| == |goals|
    ensures forall i :: 0 <= i < |goals| ==>
      r[i] == if goals[i].id == goalId then goals[i].(actions := goals[i].actions + [NewAction(d, id, goalId, now)])
              else goals[i]
  {
    seq(|goals|, i requires 0 <= i < |goals| =>
      if goals[i].id == goalId then goals[i].(actions := goals[i].actions + [NewAction(d, id, goalId, now)])
      else goals[i])
  }

  /** `Partial<Action>`. */
  datatype ActionPatch = ActionPatch(
    id: Option<string>,
    goalId: Option<string>,
    name: Option<string>,
    recurrence: Option<Recurrence>,
    createdAt: Option<Time>,
    completions: Option<seq<Completion>>)

  /** `{ ...action, ...actionData }`. */
  function ApplyActionPatch(a: Action, p: ActionPatch): Action {
    Action(p.id.GetOr(a.id), p.goalId.GetOr(a.goalId), p.name.GetOr(a.name),
           p.recurrence.GetOr(a.recurrence), p.createdAt.GetOr(a.createdAt), p.completions.GetOr(a.completions))
  }

  /** The actions of one goal after `updateAction`. */
  function UpdateActions(actions: seq<Action>, actionId: string, p: ActionPatch): (r: seq<Action>)
    ensures |r| == |actions|
    ensures forall j :: 0 <= j < |actions| ==>
      r[j] == if actions[j].id == actionId then ApplyActionPatch(actions[j], p) else actions[j]
  {
    seq(|actions|, j requires 0 <= j < |actions| =>
      if actions[j].id == actionId then ApplyActionPatch(actions[j], p) else actions[j])
  }

  /** The list after `updateAction`: only matching actions inside matching goals change. */
  function WithActionUpdated(goals: seq<Goal>, goalId: string, actionId: string, p: ActionPatch): (r: seq<Goal>)
    ensures |r| == |goals|
    ensures forall i :: 0 <= i < |goals| ==>
      r[i] == if goals[i].id == goalId then goals[i].(actions := UpdateActions(goals[i].actions, actionId, p))
              else goals[i]
  {
    seq(|goals|, i requires 0 <= i < |goals| =>
      if goals[i].id == goalId then goals[i].(actions := UpdateActions(goals[i].actions, actionId, p))
      else goals[i])
  }

  /** The list after `deleteAction`: matching actions removed from matching goals only. */
  function WithActionDeleted(goals: seq<Goal>, goalId: string, actionId: string): (r: seq<Goal>)
    ensures |r| == |goals|
    ensures forall i :: 0 <= i < |goals| ==>
      r[i] == if goals[i].id == goalId then goals[i].(actions := Filter(NotAction(actionId), goals[i].actions))
              else goals[i]
  {
    seq(|goals|, i requires 0 <= i < |goals| =>
      if goals[i].id == goalId then goals[i].(actions := Filter(NotAction(actionId), goals[i].actions))
      else goals[i])
  }

  /** Every goal owns its actions. */
  predicate AllOwnActions(goals: seq<Goal>) {
    forall i :: 0 <= i < |goals| ==> OwnsActions(goals[i])
  }

  /** Creating goals and adding, deleting and (id-preserving) updating actions keep every
      action attached to the goal that holds it. */
  lemma OperationsKeepOwnership(goals: seq<Goal>, gd: GoalDraft, ad: ActionDraft, p: ActionPatch,
                                goalId: string, actionId: string, id: string, now: Time)
    requires AllOwnActions(goals)
    requires p.goalId.None? || p.goalId == Some(goalId)
    ensures AllOwnActions(WithGoalCreated(goals, gd, id, now))
    ensures AllOwnActions(WithActionAdded(goals, goalId, ad, id, now))
    ensures AllOwnActions(WithActionUpdated(goals, goalId, actionId, p))
    ensures AllOwnActions(WithActionDeleted(goals, goalId, actionId))
  {
    var added := WithActionAdded(goals, goalId, ad, id, now);
    forall i | 0 <= i < |goals| ensures OwnsActions(added[i]) {
      if goals[i].id == goalId {
        var acts := added[i].actions;
        assert acts == goals[i].actions + [NewAction(ad, id, goalId, now)];
        forall j | 0 <= j < |acts| ensures acts[j].goalId == added[i].id {
          if j < |goals[i].actions| {
            assert acts[j] == goals[i].actions[j];
          }
        }
      }
    }
    var deleted := WithActionDeleted(goals, goalId, actionId);
    forall i | 0 <= i < |goals| ensures OwnsActions(deleted[i]) {
      if goals[i].id == goalId {
        var acts := deleted[i].actions;
        FilterMembers(NotAction(actionId), goals[i].actions);
        forall j | 0 <= j < |acts| ensures acts[j].goalId == deleted[i].id {
          assert acts[j] in goals[i].actions;
        }
      }
    }
  }

  /** Deleting goals, and updating goals without touching their ids or actions, keep every
      action attached to the goal that holds it. */
  lemma GoalOperationsKeepOwnership(goals: seq<Goal>, id: string, p: GoalPatch)
    requires AllOwnActions(goals)
    requires p.id.None? && p.actions.None?
    ensures AllOwnActions(WithGoalDeleted(goals, id))
    ensures AllOwnActions(WithGoalUpdated(goals, id, p))
  {
    var deleted := WithGoalDeleted(goals, id);
    FilterMembers(NotGoal(id), goals);
    forall i | 0 <= i < |deleted| ensures OwnsActions(deleted[i]) {
      assert deleted[i] in goals;
    }
  }

  // ---------------------------------------------------------------------------------------
  // The hook's state

  /** The state of `useGoals`: the goal list and the loading flag. */
  class GoalStoreState {
    var goals: seq<Goal>
    var isLoading: bool

    /** The initial state: no goals, loading. */
    constructor()
      ensures goals == [] && isLoading
    {
      goals := [];
      isLoading := true;
    }

    /** The load effect: a parsed list is migrated and deduplicated, an absent one replaced by
        the example goals as the source writes them (whose actions never apply), an
        unparsable one leaves the state as it was; loading ends in every case. */
    method Load(read: StorageRead, ids: SeedIds, now: Time)
      modifies this
      ensures goals == match read
        case Parsed(stored) => LoadedGoals(stored)
        case Absent => SeedAsWritten(ids, now)
        case Unparsable => old(goals)
      ensures !isLoading
    {
      match read {
        case Parsed(stored) =>
          goals := LoadedGoals(stored);
        case Absent =>
          goals := SeedAsWritten(ids, now);
        case Unparsable =>
      }
      isLoading := false;
    }

    method CreateGoal(d: GoalDraft, id: string, now: Time) returns (g: Goal)
      modifies this
      ensures g == NewGoal(d, id, now)
      ensures goals == WithGoalCreated(old(goals), d, id, now)
      ensures isLoading == old(isLoading)
    {
      g := NewGoal(d, id, now);
      goals := WithGoalCreated(goals, d, id, now);
    }

    method UpdateGoal(id: string, p: GoalPatch)
      modifies this
      ensures goals == WithGoalUpdated(old(goals), id, p)
      ensures isLoading == old(isLoading)
    {
      goals := WithGoalUpdated(goals, id, p);
    }

    method DeleteGoal(id: string)
      modifies this
      ensures goals == WithGoalDeleted(old(goals), id)
      ensures isLoading == old(isLoading)
    {
      goals := WithGoalDeleted(goals, id);
    }

    /** `getGoal`: the first goal with that id, if any. */
    function GetGoal(id: string): (r: Option<Goal>)
      reads this
      ensures r.None? <==> forall i :: 0 <= i < |goals| ==> goals[i].id != id
      ensures r.Some? ==> exists k :: (0 <= k < |goals| && r.value == goals[k] && r.value.id == id
        && forall j :: 0 <= j < k ==> goals[j].id != id)
    {
      FindGoal(goals, id)
    }

    method AddAction(goalId: string, d: ActionDraft, id: string, now: Time)
      modifies this
      ensures goals == WithActionAdded(old(goals), goalId, d, id, now)
      ensures isLoading == old(isLoading)
    {
      goals := WithActionAdded(goals, goalId, d, id, now);
    }

    method UpdateAction(goalId: string, actionId: string, p: ActionPatch)
      modifies this
      ensures goals == WithActionUpdated(old(goals), goalId, actionId, p)
      ensures isLoading == old(isLoading)
    {
      goals := WithActionUpdated(goals, goalId, actionId, p);
    }

    method DeleteAction(goalId: string, actionId: string)
      modifies this
      ensures goals == WithActionDeleted(old(goals), goalId, actionId)
      ensures isLoading == old(isLoading)
    {
      goals := WithActionDeleted(goals, goalId, actionId);
    }
  }
}
