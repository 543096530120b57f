/** The records of `lib/types.ts`, completed with the fields the code reads but the type
    declarations omit: an action's `completions` and a goal's `completed` flag. Timestamps
    (`createdAt`, `targetDate`) are held already parsed, as local `Calendar.Time` values. */
module Types {
  import opened Wrappers
  import opened Calendar

  /** `ActionRecurrenceType`, plus the case the code meets when `type` is absent or holds
      anything else (a recurrence stored as a bare string has no `type` field at all). */
  datatype RecurrenceType = Daily | Weekdays | Weekly | Custom | Unrecognised

  /** `ActionRecurrence`: both day fields are optional. */
  datatype Recurrence = Recurrence(kind: RecurrenceType, weeklyDay: Option<int>, customDays: Option<seq<int>>)

  /** A weekday number as the type comments fix it: 0 = Sunday, ..., 6 = Saturday. */
  predicate IsDayNumber(d: int) {
    0 <= d <= 6
  }

  predicate ValidDays(days: seq<int>) {
    forall i :: 0 <= i < |days| ==> IsDayNumber(days[i])
  }

  /** The constraints the type comments state: one of the four kinds, `weeklyDay` in 0..6
      and every `customDays` entry in 0..6. */
  predicate ValidRecurrence(r: Recurrence) {
    && r.kind != Unrecognised
    && (r.weeklyDay.Some? ==> IsDayNumber(r.weeklyDay.value))
    && (r.customDays.Some? ==> ValidDays(r.customDays.value))
  }

  /** One completion record of an action: a `YYYY-MM-DD` day key and a flag. */
  datatype Completion = Completion(date: string, completed: bool)

  /** `Action`; a missing `completions` list reads like an empty one everywhere in the code. */
  datatype Action = Action(
    id: string,
    goalId: string,
    name: string,
    recurrence: Recurrence,
    createdAt: Time,
    completions: seq<Completion>)

  /** `Goal`; a missing `completed` flag reads as false. */
  datatype Goal = Goal(
    id: string,
    title: string,
    actions: seq<Action>,
    createdAt: Time,
    targetDate: Option<Time>,
    completed: bool)

  /** Every action of the goal carries the goal's id as its `goalId`. */
  predicate OwnsActions(g: Goal) {
    forall i :: 0 <= i < |g.actions| ==> g.actions[i].goalId == g.id
  }
}
