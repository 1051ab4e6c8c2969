/** The records of the habit tracker: a habit and one day's logged entry for a habit.
    Optional fields of the source records are `Option`s here. */
module Models {
  import opened Wrappers

  /** How often a habit is due; exactly one of the two. */
  datatype Frequency = Daily | Custom

  /** A weekday index, 0 = Sunday .. 6 = Saturday. */
  type Weekday = d: int | 0 <= d <= 6

  datatype TargetKind = Count | Minutes

  /** The quantitative goal of a habit: a kind and a numeric amount. */
  datatype Target = Target(kind: TargetKind, value: real)

  datatype Habit = Habit(
    id: string,
    title: string,
    frequency: Frequency,
    customDays: Option<seq<Weekday>>,
    target: Option<Target>,
    archived: Option<bool>,
    createdAt: string)  // ISO timestamp, opaque here

  datatype Entry = Entry(
    id: string,
    habitId: string,
    date: string,        // calendar-day key yyyy-MM-dd
    value: Option<real>,
    completed: bool,
    createdAt: string)   // ISO timestamp, opaque here

  /** The truthiness test `h.archived`: an absent flag reads as not archived. */
  predicate IsArchived(h: Habit) {
    h.archived == Some(true)
  }
}
