/** The records of src/types/index.ts. A log's `completedDate` is the
    `YYYY-MM-DD` string of a day; the model keeps the day number it names
    (DateUtils.FormatDate turns it back into the string). */
module Types {
  import opened Wrappers
  import opened CivilCalendar

  datatype Category = Health | Fitness | Productivity | Learning | Mindfulness | Social | Other

  /** A habit; `archivedAt` is absent until the habit is archived. */
  datatype Habit = Habit(
    id: string,
    name: string,
    description: string,
    category: Category,
    color: string,
    createdAt: string,
    archivedAt: Option<string>)

  /** One completion of a habit on one day. */
  datatype HabitLog = HabitLog(
    id: string,
    habitId: string,
    completedDate: Day,
    notes: Option<string>,
    createdAt: string)

  /** The statistics record the service returns for one habit. */
  datatype HabitStats = HabitStats(
    habitId: string,
    currentStreak: nat,
    longestStreak: nat,
    totalCompletions: nat,
    completionRate7Days: int,
    completionRate30Days: int,
    completionRate90Days: int)

  /** `!h.archivedAt`: a habit is active when `archivedAt` is missing or the
      empty string (both are falsy in JavaScript). */
  predicate IsActive(h: Habit)
  {
    h.archivedAt.None? || h.archivedAt.value == ""
  }
}
