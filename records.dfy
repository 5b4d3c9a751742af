/** The persistent records the progression engine reads and writes, and the
    first-match queries (`.filter(...).first()`) it runs over them. Every table
    is a sequence ordered by primary key, so a row's id is its index. */
module Records {
  import opened Wrappers


  /** `validated_data.get(key, default)`: the submitted value, else the default. */
  function GetOr<T>(o: Option<T>, default: T): (r: T)
    ensures o.None? ==> r == default
    ensures o.Some? ==> r == o.value
  {
    match o
    case Some(v) => v
    case None => default
  }

  /** The `difficulty_level` strings of an exercise variant. */
  datatype Difficulty = Beginner | Intermediate | Advanced

  /** An `Exercise` row: one difficulty-levelled variant inside a category. */
  datatype Variant = Variant(id: nat, name: string, category: nat, level: Difficulty)

  /** A `UserExercise` row. `deactivated` is `date_deactivated` (None is NULL). */
  datatype Assignment = Assignment(
    user: nat,
    variant: Variant,
    sets: int,
    reps: int,
    pain: int,
    completed: bool,
    active: bool,
    deactivated: Option<int>)

  /** A `Report` row (one day of a user's activity) with its
      `exercises_completed` many-to-many set of assignment ids. */
  datatype Report = Report(user: nat, date: int, exercisesCompleted: set<nat>)

  /** A `ReportExercise` row: one exercise's outcome inside a report. */
  datatype Entry = Entry(report: nat, assignment: nat, sets: int, reps: int, pain: int)

  /** The index of the first element satisfying `p` (a query's `.first()`
      in ascending id order). */
  function FirstWhere<T>(s: seq<T>, p: T -> bool): (r: Option<nat>)
    ensures r.Some? ==> r.value < |s| && p(s[r.value])
    ensures r.Some? ==> forall j :: 0 <= j < r.value ==> !p(s[j])
    ensures r.None? ==> forall j :: 0 <= j < |s| ==> !p(s[j])
    decreases |s|
  {
    if s == [] then None
    else if p(s[0]) then Some(0)
    else
      match FirstWhere(s[1..], p)
      case None => None
      case Some(k) => Some(k + 1)
  }

  /** The index of the last element satisfying `p` (`.order_by('-id').first()`). */
  function LastWhere<T>(s: seq<T>, p: T -> bool): (r: Option<nat>)
    ensures r.Some? ==> r.value < |s| && p(s[r.value])
    ensures r.Some? ==> forall j :: r.value < j < |s| ==> !p(s[j])
    ensures r.None? ==> forall j :: 0 <= j < |s| ==> !p(s[j])
    decreases |s|
  {
    if s == [] then None
    else if p(s[|s| - 1]) then Some(|s| - 1)
    else LastWhere(s[..|s| - 1], p)
  }
}
