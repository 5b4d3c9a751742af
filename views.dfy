/** The exercise-progression rules of the Django API: the difficulty state
    machine applied after a completion, the reuse-or-create of the retargeted
    assignment, the consistent-low-pain window, the lazy daily reset, and the
    completion flow of `UserExerciseViewSet.update`. */
module Views {
  import opened Wrappers
  import opened Records

  /** `pain_level >= 4` triggers a move down. */
  const HighPain: int := 4
  /** `timedelta(days=1)` in microseconds, the resolution of Python datetimes. */
  const Day: int := 86_400_000_000

  // ---------------------------------------------------------------------
  // Difficulty transitions (the `match` on difficulty strings)
  // ---------------------------------------------------------------------

  /** One level up; Advanced has none. */
  function Higher(d: Difficulty): (r: Option<Difficulty>)
    ensures r.None? <==> d == Advanced
  {
    match d
    case Beginner => Some(Intermediate)
    case Intermediate => Some(Advanced)
    case Advanced => None
  }

  /** One level down; moving down then up returns to `d`. */
  function Lower(d: Difficulty): (r: Option<Difficulty>)
    ensures r.None? <==> d == Beginner
    ensures r.Some? ==> Higher(r.value) == Some(d) && r.value != d
  {
    match d
    case Advanced => Some(Intermediate)
    case Intermediate => Some(Beginner)
    case Beginner => None
  }

  // ---------------------------------------------------------------------
  // Queries
  // ---------------------------------------------------------------------

  /** `UserExercise.objects.filter(user=user, is_active=True)` rows whose
      exercise is called `name`. */
  function ActiveNamed(user: nat, name: string): Assignment -> bool
  {
    (a: Assignment) => a.user == user && a.active && a.variant.name == name
  }

  /** `UserExercise.objects.filter(user=user, exercise=v)`. */
  function HasVariant(user: nat, v: Variant): Assignment -> bool
  {
    (a: Assignment) => a.user == user && a.variant == v
  }

  /** `Exercise.objects.filter(category=c, difficulty_level=l)`. */
  function AtLevel(category: nat, level: Difficulty): Variant -> bool
  {
    (v: Variant) => v.category == category && v.level == level
  }

  /** `Report.objects.filter(user=user, date=day)`. */
  function ReportOn(user: nat, day: int): Report -> bool
  {
    (rep: Report) => rep.user == user && rep.date == day
  }

  /** The date of every report, by report id. */
  function Dates(reports: seq<Report>): (r: seq<int>)
    ensures |r| == |reports|
    ensures forall i :: 0 <= i < |reports| ==> r[i] == reports[i].date
  {
    seq(|reports|, i requires 0 <= i < |reports| => reports[i].date)
  }

  /** `ReportExercise.objects.filter(user_exercise=a, report__date=day)`. */
  function EntryOn(dates: seq<int>, a: nat, day: int): Entry -> bool
  {
    (e: Entry) => e.assignment == a && e.report < |dates| && dates[e.report] == day
  }

  /** The catalog lookup `.filter(category=.., difficulty_level=..).first()`. */
  function FindVariant(catalog: seq<Variant>, category: nat, level: Difficulty): (r: Option<Variant>)
    ensures r.Some? ==> r.value in catalog && r.value.category == category && r.value.level == level
    ensures r.None? <==> forall v :: v in catalog ==> !(v.category == category && v.level == level)
    ensures r.Some? ==>
      exists k :: 0 <= k < |catalog| && catalog[k] == r.value && (forall j :: 0 <= j < k ==> !AtLevel(category, level)(catalog[j]))
  {
    match FirstWhere(catalog, AtLevel(category, level))
    case None => None
    case Some(k) => Some(catalog[k])
  }

  // ---------------------------------------------------------------------
  // The transition decided for one completion
  // ---------------------------------------------------------------------

  /** What a progression helper decides: no active assignment of that name,
      keep the matched `source`, the high-pain-at-Beginner message, or a move
      of `source` to `target`. */
  datatype Decision = NoMatch | Keep(source: nat) | Floor(source: nat) | Move(source: nat, target: Variant)

  /** `update_exercise_level_based_on_pain`: the first active assignment whose
      exercise is called `name` moves one level down on high pain. */
  function DecideDecrease(rows: seq<Assignment>, catalog: seq<Variant>, user: nat, pain: int, name: string): (d: Decision)
    ensures d.NoMatch? <==> forall j :: 0 <= j < |rows| ==> !ActiveNamed(user, name)(rows[j])
    ensures !d.NoMatch? ==>
      && d.source < |rows| && ActiveNamed(user, name)(rows[d.source])
      && forall j :: 0 <= j < d.source ==> !ActiveNamed(user, name)(rows[j])
    ensures d.Floor? <==> !d.NoMatch? && pain >= HighPain && rows[d.source].variant.level == Beginner
    ensures d.Move? ==> pain >= HighPain
  {
    match FirstWhere(rows, ActiveNamed(user, name))
    case None => NoMatch
    case Some(i) =>
      if pain < HighPain then Keep(i)
      else
        match Lower(rows[i].variant.level)
        case None => Floor(i)
        case Some(l) =>
          match FindVariant(catalog, rows[i].variant.category, l)
          case None => Keep(i)
          case Some(v) => Move(i, v)
  }

  /** `increase_difficulty`: the first active assignment whose exercise is
      called `name` moves one level up; Advanced, or a missing variant, keeps
      the source. */
  function DecideIncrease(rows: seq<Assignment>, catalog: seq<Variant>, user: nat, name: string): (d: Decision)
    ensures d.NoMatch? <==> forall j :: 0 <= j < |rows| ==> !ActiveNamed(user, name)(rows[j])
    ensures !d.NoMatch? ==>
      && d.source < |rows| && ActiveNamed(user, name)(rows[d.source])
      && forall j :: 0 <= j < d.source ==> !ActiveNamed(user, name)(rows[j])
    ensures d.Move? ==> rows[d.source].variant.level != Advanced
    ensures !d.Floor?
  {
    match FirstWhere(rows, ActiveNamed(user, name))
    case None => NoMatch
    case Some(i) =>
      match Higher(rows[i].variant.level)
      case None => Keep(i)
      case Some(h) =>
        match FindVariant(catalog, rows[i].variant.category, h)
        case None => Keep(i)
        case Some(v) => Move(i, v)
  }

  /** A decrease moves exactly one level down inside the same category, only
      on high pain, and only from the first active assignment of that name. */
  lemma DecreaseMovesOneLevelDown(rows: seq<Assignment>, catalog: seq<Variant>, user: nat, pain: int, name: string)
    ensures var d := DecideDecrease(rows, catalog, user, pain, name);
      d.Move? ==>
        && pain >= HighPain
        && d.source < |rows| && ActiveNamed(user, name)(rows[d.source])
        && d.target in catalog
        && d.target.category == rows[d.source].variant.category
        && Lower(rows[d.source].variant.level) == Some(d.target.level)
  {
  }

  /** Low pain never moves, and neither does a catalog without the lower
      variant; high pain on a Beginner assignment gives the floor message. */
  lemma DecreaseCases(rows: seq<Assignment>, catalog: seq<Variant>, user: nat, pain: int, name: string)
    ensures var d := DecideDecrease(rows, catalog, user, pain, name);
      match FirstWhere(rows, ActiveNamed(user, name))
      case None => d == NoMatch
      case Some(i) =>
        && (pain < HighPain ==> d == Keep(i))
        && (pain >= HighPain && rows[i].variant.level == Beginner ==> d == Floor(i))
        && (pain >= HighPain && rows[i].variant.level != Beginner ==>
              (d.Move? <==> exists v :: v in catalog && AtLevel(rows[i].variant.category, Lower(rows[i].variant.level).value)(v)))
  {
    match FirstWhere(rows, ActiveNamed(user, name))
    case None =>
    case Some(i) =>
      if pain >= HighPain && rows[i].variant.level != Beginner {
        var l := Lower(rows[i].variant.level).value;
        var f := FindVariant(catalog, rows[i].variant.category, l);
        if f.Some? {
          assert f.value in catalog && AtLevel(rows[i].variant.category, l)(f.value);
        }
      }
  }

  /** An increase goes Beginner to Intermediate and Intermediate to Advanced
      in the same category, and always keeps an Advanced source. It moves
      exactly when the source has a next level up and the catalog holds a
      variant of that category at that level. */
  lemma IncreaseMovesOneLevelUp(rows: seq<Assignment>, catalog: seq<Variant>, user: nat, name: string)
    ensures var d := DecideIncrease(rows, catalog, user, name);
      && (d.Move? ==>
            && d.source < |rows| && ActiveNamed(user, name)(rows[d.source])
            && d.target in catalog
            && d.target.category == rows[d.source].variant.category
            && Higher(rows[d.source].variant.level) == Some(d.target.level))
      && ((d.Keep? && FindVariant(catalog, rows[d.source].variant.category, Intermediate).Some?
            && FindVariant(catalog, rows[d.source].variant.category, Advanced).Some?)
            ==> rows[d.source].variant.level == Advanced)
      && !d.Floor?
    ensures var d := DecideIncrease(rows, catalog, user, name);
      match FirstWhere(rows, ActiveNamed(user, name))
      case None => d == NoMatch
      case Some(i) =>
        d.Move? <==>
          && Higher(rows[i].variant.level).Some?
          && exists v :: v in catalog && AtLevel(rows[i].variant.category, Higher(rows[i].variant.level).value)(v)
  {
    match FirstWhere(rows, ActiveNamed(user, name))
    case None =>
    case Some(i) =>
      if Higher(rows[i].variant.level).Some? {
        var h := Higher(rows[i].variant.level).value;
        var f := FindVariant(catalog, rows[i].variant.category, h);
        if f.Some? {
          assert f.value in catalog && AtLevel(rows[i].variant.category, h)(f.value);
        }
      }
  }

  // ---------------------------------------------------------------------
  // Reuse-or-create of the retargeted assignment
  // ---------------------------------------------------------------------

  /** No user has two rows for the same exercise variant. */
  ghost predicate NoDuplicateRows(rows: seq<Assignment>)
  {
    forall i, j :: 0 <= i < j < |rows| && rows[i].user == rows[j].user ==> rows[i].variant != rows[j].variant
  }

  /** Every row of `before` is still in `after` with the same user and
      variant (rows are only appended or have their other fields changed). */
  ghost predicate KeysKept(before: seq<Assignment>, after: seq<Assignment>)
  {
    && |before| <= |after|
    && forall j :: 0 <= j < |before| ==> after[j].user == before[j].user && after[j].variant == before[j].variant
  }

  /** Saving a row back without changing its user or variant keeps the
      (user, variant) pairs unique. */
  lemma WriteBackKeepsRowsUnique(rows: seq<Assignment>, id: nat, a: Assignment)
    requires NoDuplicateRows(rows) && id < |rows|
    requires rows[id].user == a.user && rows[id].variant == a.variant
    ensures NoDuplicateRows(rows[id := a])
    ensures KeysKept(rows, rows[id := a])
  {
  }

  /** The reused row: pain cleared, not completed, active again;
      `date_deactivated` is left as it was. */
  function Reactivated(a: Assignment): (r: Assignment)
    ensures r.user == a.user && r.variant == a.variant && r.sets == a.sets && r.reps == a.reps
    ensures r.deactivated == a.deactivated
    ensures r.pain == 0 && !r.completed && r.active
  {
    a.(pain := 0, completed := false, active := true)
  }

  /** The retarget of lines 86-101 and 172-187: reuse the first row of
      (`user`, `target`) if there is one, else create one copying sets and reps
      from the `template` row. Returns the new table and the target row id. */
  function Upsert(rows: seq<Assignment>, user: nat, target: Variant, template: nat): (res: (seq<Assignment>, nat))
    requires template < |rows|
    ensures res.1 < |res.0|
    ensures res.0[res.1].user == user && res.0[res.1].variant == target
    ensures res.0[res.1].active && res.0[res.1].pain == 0 && !res.0[res.1].completed
    ensures |rows| <= |res.0| <= |rows| + 1
    ensures forall j :: 0 <= j < |rows| && j != res.1 ==> res.0[j] == rows[j]
    ensures forall j :: 0 <= j < |rows| ==> res.0[j].user == rows[j].user && res.0[j].variant == rows[j].variant
  {
    match FirstWhere(rows, HasVariant(user, target))
    case Some(k) => (rows[k := Reactivated(rows[k])], k)
    case None =>
      (rows + [Assignment(user, target, rows[template].sets, rows[template].reps, 0, false, true, None)], |rows|)
  }

  /** Reuse happens exactly when the user already has a row for the target
      variant (active or not); then it is the first such row, nothing is
      appended, and `date_deactivated` is not cleared. Otherwise the one new
      row copies sets and reps from the template. */
  lemma UpsertReusesOrCreates(rows: seq<Assignment>, user: nat, target: Variant, template: nat)
    requires template < |rows|
    ensures var (rows', id) := Upsert(rows, user, target, template);
      && ((exists j :: 0 <= j < |rows| && HasVariant(user, target)(rows[j])) <==> |rows'| == |rows|)
      && (|rows'| == |rows| ==>
            && id < |rows| && HasVariant(user, target)(rows[id])
            && (forall j :: 0 <= j < id ==> !HasVariant(user, target)(rows[j]))
            && rows'[id] == Reactivated(rows[id]))
      && (|rows'| == |rows| + 1 ==>
            && id == |rows| && rows'[..|rows|] == rows
            && rows'[id] == Assignment(user, target, rows[template].sets, rows[template].reps, 0, false, true, None))
  {
    match FirstWhere(rows, HasVariant(user, target))
    case Some(k) =>
    case None =>
      var (rows', id) := Upsert(rows, user, target, template);
      assert rows'[..|rows|] == rows;
  }

  /** The retarget never creates a duplicate (user, variant) row; afterwards
      the user has exactly one row for the target. */
  lemma UpsertKeepsRowsUnique(rows: seq<Assignment>, user: nat, target: Variant, template: nat)
    requires template < |rows| && NoDuplicateRows(rows)
    ensures var (rows', id) := Upsert(rows, user, target, template);
      && NoDuplicateRows(rows')
      && forall j :: 0 <= j < |rows'| && HasVariant(user, target)(rows'[j]) ==> j == id
  {
    var (rows', id) := Upsert(rows, user, target, template);
    UpsertReusesOrCreates(rows, user, target, template);
    if |rows'| == |rows| + 1 {
      assert forall j :: 0 <= j < |rows| ==> rows'[j] == rows[j];
    }
  }

  /** The rows after one decision: a move reuses or creates its target row,
      any other decision leaves the rows as they are. Also returns the row
      moved to. */
  function Applied(rows: seq<Assignment>, user: nat, d: Decision): (seq<Assignment>, Option<nat>)
  {
    if d.Move? && d.source < |rows| then
      var (rows', id) := Upsert(rows, user, d.target, d.source); (rows', Some(id))
    else (rows, None)
  }

  /** A decision only reactivates one existing row or appends one fresh row
      of the user, and keeps rows unique. */
  lemma AppliedFacts(rows: seq<Assignment>, user: nat, d: Decision)
    ensures var (rows', m) := Applied(rows, user, d);
      && KeysKept(rows, rows') && |rows'| <= |rows| + 1
      && (m.None? ==> rows' == rows)
      && (m.Some? ==>
            && d.Move? && m.value < |rows'| && rows'[m.value].user == user && rows'[m.value].variant == d.target
            && rows'[m.value].active && rows'[m.value].pain == 0 && !rows'[m.value].completed)
      && (forall j :: 0 <= j < |rows| && rows'[j] != rows[j] ==> rows'[j] == Reactivated(rows[j]))
      && (forall j :: |rows| <= j < |rows'| ==>
            rows'[j].user == user && rows'[j].active && rows'[j].pain == 0 && !rows'[j].completed)
      && (NoDuplicateRows(rows) ==> NoDuplicateRows(rows'))
  {
    if d.Move? && d.source < |rows| {
      UpsertReusesOrCreates(rows, user, d.target, d.source);
      if NoDuplicateRows(rows) {
        UpsertKeepsRowsUnique(rows, user, d.target, d.source);
      }
    }
  }

  /** Two decisions in a row: the same facts as for one, with at most two
      rows appended. */
  lemma AppliedTwice(rows: seq<Assignment>, user: nat, d1: Decision, d2: Decision)
    ensures var (rows1, m1) := Applied(rows, user, d1);
      var (rows2, m2) := Applied(rows1, user, d2);
      && KeysKept(rows, rows2) && |rows2| <= |rows| + 2
      && (m2.None? ==> rows2 == rows1)
      && (forall j :: 0 <= j < |rows| && rows2[j] != rows[j] ==> rows2[j] == Reactivated(rows[j]))
      && (forall j :: |rows| <= j < |rows2| ==>
            rows2[j].user == user && rows2[j].active && rows2[j].pain == 0 && !rows2[j].completed)
      && (NoDuplicateRows(rows) ==> NoDuplicateRows(rows2))
  {
    AppliedFacts(rows, user, d1);
    var (rows1, m1) := Applied(rows, user, d1);
    AppliedFacts(rows1, user, d2);
    var (rows2, m2) := Applied(rows1, user, d2);
    forall j | 0 <= j < |rows| && rows2[j] != rows[j] ensures rows2[j] == Reactivated(rows[j]) {
      if rows1[j] != rows[j] {
        assert rows1[j] == Reactivated(rows[j]);
      }
    }
  }

  /** Lines 351-363 and 395-400 of `update`: the decrease on the submitted
      pain, then the increase when the low-pain `window` holds, judged on the
      rows the decrease left. Returns the new rows, the row the submitted one
      is retargeted to (the increase's move, or else the decrease's), and the
      two decisions. */
  function Progressed(rows: seq<Assignment>, catalog: seq<Variant>, user: nat, pain: int, name: string, window: bool)
    : (res: (seq<Assignment>, Option<nat>, Decision, Option<Decision>))
    ensures res.2 == DecideDecrease(rows, catalog, user, pain, name)
    ensures res.3.Some? <==> window
    ensures res.1.Some? <==> res.2.Move? || (res.3.Some? && res.3.value.Move?)
    ensures KeysKept(rows, res.0) && |res.0| <= |rows| + 2
    ensures forall j :: 0 <= j < |rows| && res.0[j] != rows[j] ==> res.0[j] == Reactivated(rows[j])
    ensures forall j :: |rows| <= j < |res.0| ==>
      res.0[j].user == user && res.0[j].active && res.0[j].pain == 0 && !res.0[j].completed
    ensures res.1.Some? ==>
      && res.1.value < |res.0| && res.0[res.1.value].user == user
      && res.0[res.1.value].active && res.0[res.1.value].pain == 0 && !res.0[res.1.value].completed
    ensures NoDuplicateRows(rows) ==> NoDuplicateRows(res.0)
  {
    var decrease := DecideDecrease(rows, catalog, user, pain, name);
    var (rows1, m1) := Applied(rows, user, decrease);
    AppliedFacts(rows, user, decrease);
    if !window then (rows1, m1, decrease, None)
    else
      var increase := DecideIncrease(rows1, catalog, user, name);
      var (rows2, m2) := Applied(rows1, user, increase);
      AppliedFacts(rows1, user, increase);
      AppliedTwice(rows, user, decrease, increase);
      (rows2, if m2.Some? then m2 else m1, decrease, Some(increase))
  }

  // ---------------------------------------------------------------------
  // The consistent-low-pain window
  // ---------------------------------------------------------------------

  /** The entries of assignment `a`, newest (highest id) first. */
  function NewestFirst(entries: seq<Entry>, a: nat): (r: seq<Entry>)
    ensures |r| == CountFor(entries, a)
    ensures forall k :: 0 <= k < |r| ==> r[k].assignment == a
    decreases |entries|
  {
    if entries == [] then []
    else
      var last := entries[|entries| - 1];
      var older := NewestFirst(entries[..|entries| - 1], a);
      if last.assignment == a then [last] + older else older
  }

  /** The ids of the entries of `a`, newest first. */
  function NewestIds(entries: seq<Entry>, a: nat): (ids: seq<nat>)
    ensures |ids| == CountFor(entries, a)
    ensures forall k :: 0 <= k < |ids| ==> ids[k] < |entries|
    decreases |entries|
  {
    if entries == [] then []
    else
      var n := |entries| - 1;
      var older := NewestIds(entries[..n], a);
      if entries[n].assignment == a then [n] + older else older
  }

  /** The ids come in strictly decreasing order. */
  lemma {:induction false} NewestIdsOrdered(entries: seq<Entry>, a: nat)
    ensures forall k, l :: 0 <= k < l < |NewestIds(entries, a)| ==> NewestIds(entries, a)[k] > NewestIds(entries, a)[l]
    decreases |entries|
  {
    if entries != [] {
      var n := |entries| - 1;
      var older := NewestIds(entries[..n], a);
      NewestIdsOrdered(entries[..n], a);
      if entries[n].assignment == a {
        var ids := NewestIds(entries, a);
        assert ids == [n] + older;
        forall k, l | 0 <= k < l < |ids| ensures ids[k] > ids[l] {
          assert ids[l] == older[l - 1] && older[l - 1] < n;
          if k > 0 {
            assert ids[k] == older[k - 1];
          }
        }
      } else {
        assert NewestIds(entries, a) == older;
      }
    }
  }

  /** Every entry of `a` has its id listed. */
  lemma {:induction false} NewestIdsComplete(entries: seq<Entry>, a: nat)
    ensures forall j :: 0 <= j < |entries| && entries[j].assignment == a ==> j in NewestIds(entries, a)
    decreases |entries|
  {
    if entries != [] {
      var n := |entries| - 1;
      var older := NewestIds(entries[..n], a);
      var ids := NewestIds(entries, a);
      NewestIdsComplete(entries[..n], a);
      assert forall j :: j in older ==> j in ids;
      forall j | 0 <= j < |entries| && entries[j].assignment == a ensures j in ids {
        if j < n {
          assert entries[..n][j] == entries[j];
        }
      }
    }
  }

  /** The listed ids are those of the entries `NewestFirst` returns. */
  lemma {:induction false} NewestIdsPick(entries: seq<Entry>, a: nat)
    ensures var ids := NewestIds(entries, a);
      forall k :: 0 <= k < |ids| ==> entries[ids[k]] == NewestFirst(entries, a)[k]
    decreases |entries|
  {
    if entries != [] {
      var n := |entries| - 1;
      var init := entries[..n];
      var older := NewestIds(init, a);
      var ids := NewestIds(entries, a);
      NewestIdsPick(init, a);
      forall k | 0 <= k < |older| ensures entries[older[k]] == NewestFirst(init, a)[k] {
        assert entries[older[k]] == init[older[k]];
      }
      if entries[n].assignment == a {
        assert ids == [n] + older;
        assert NewestFirst(entries, a) == [entries[n]] + NewestFirst(init, a);
        forall k | 0 < k < |ids| ensures entries[ids[k]] == NewestFirst(entries, a)[k] {
          assert ids[k] == older[k - 1];
        }
      }
    }
  }

  /** `NewestFirst` lists exactly the entries of `a`, each once, in
      decreasing id order. */
  lemma NewestIdsExact(entries: seq<Entry>, a: nat)
    ensures var ids := NewestIds(entries, a);
      && (forall k :: 0 <= k < |ids| ==> entries[ids[k]] == NewestFirst(entries, a)[k])
      && (forall k, l :: 0 <= k < l < |ids| ==> ids[k] > ids[l])
      && (forall j :: 0 <= j < |entries| && entries[j].assignment == a ==> j in ids)
  {
    NewestIdsPick(entries, a);
    NewestIdsOrdered(entries, a);
    NewestIdsComplete(entries, a);
  }

  /** `s[:n]` in Python. */
  function Take<T>(s: seq<T>, n: nat): (r: seq<T>)
    ensures |r| == if |s| < n then |s| else n
    ensures r == s[..|r|]
  {
    if |s| <= n then s else s[..n]
  }

  /** `has_consistent_low_pain`: the `numReports` newest entries of `a` exist
      and all have pain below `maxPain`. */
  function HasConsistentLowPain(entries: seq<Entry>, a: nat, numReports: nat := 3, maxPain: int := 4): (ok: bool)
    ensures ok <==>
      |NewestFirst(entries, a)| >= numReports && (forall k :: 0 <= k < numReports ==> NewestFirst(entries, a)[k].pain < maxPain)
  {
    var recent := Take(NewestFirst(entries, a), numReports);
    if |recent| < numReports then false
    else forall k :: 0 <= k < |recent| ==> recent[k].pain < maxPain
  }

  /** The number of entries of assignment `a`. */
  function CountFor(entries: seq<Entry>, a: nat): (r: nat)
    ensures r <= |entries|
    decreases |entries|
  {
    if entries == [] then 0
    else CountFor(entries[..|entries| - 1], a) + (if entries[|entries| - 1].assignment == a then 1 else 0)
  }

  /** Every entry of `a` that is among its `numReports` newest (at most
      `numReports` entries of `a` from it to the end) has pain below
      `maxPain`. */
  ghost predicate NewestBelow(entries: seq<Entry>, a: nat, numReports: nat, maxPain: int)
  {
    forall i :: 0 <= i < |entries| && entries[i].assignment == a && CountFor(entries[i..], a) <= numReports
      ==> entries[i].pain < maxPain
  }

  /** Counting from `i` over `older + [last]`. */
  lemma SuffixCount(entries: seq<Entry>, a: nat, i: nat)
    requires i < |entries| - 1
    ensures CountFor(entries[i..], a) ==
      CountFor(entries[..|entries| - 1][i..], a) + (if entries[|entries| - 1].assignment == a then 1 else 0)
  {
    assert entries[i..][..|entries[i..]| - 1] == entries[..|entries| - 1][i..];
  }

  /** The newest entry concerns another assignment: nothing changes. */
  lemma WindowStepOther(entries: seq<Entry>, a: nat, numReports: nat, maxPain: int)
    requires |entries| > 0 && entries[|entries| - 1].assignment != a
    ensures var older := entries[..|entries| - 1];
      && CountFor(entries, a) == CountFor(older, a)
      && HasConsistentLowPain(entries, a, numReports, maxPain) == HasConsistentLowPain(older, a, numReports, maxPain)
      && NewestBelow(entries, a, numReports, maxPain) == NewestBelow(older, a, numReports, maxPain)
  {
    var older := entries[..|entries| - 1];
    forall i | 0 <= i < |entries| - 1
      ensures CountFor(entries[i..], a) == CountFor(older[i..], a) && entries[i] == older[i]
    {
      SuffixCount(entries, a, i);
    }
  }

  /** The newest entry concerns `a`: it is the head of the window and the
      rest is the older window one shorter. */
  lemma WindowStepSame(entries: seq<Entry>, a: nat, numReports: nat, maxPain: int)
    requires |entries| > 0 && entries[|entries| - 1].assignment == a && numReports > 0
    ensures var older := entries[..|entries| - 1];
      var last := entries[|entries| - 1];
      && CountFor(entries, a) == CountFor(older, a) + 1
      && (HasConsistentLowPain(entries, a, numReports, maxPain) <==>
            last.pain < maxPain && HasConsistentLowPain(older, a, numReports - 1, maxPain))
      && (NewestBelow(entries, a, numReports, maxPain) <==>
            last.pain < maxPain && NewestBelow(older, a, numReports - 1, maxPain))
  {
    var n := |entries|;
    var older := entries[..n - 1];
    var last := entries[n - 1];
    var recent := Take(NewestFirst(entries, a), numReports);
    var rest := Take(NewestFirst(older, a), numReports - 1);
    assert recent == [last] + rest;
    assert (forall k :: 0 <= k < |recent| ==> recent[k].pain < maxPain) <==>
      last.pain < maxPain && (forall k :: 0 <= k < |rest| ==> rest[k].pain < maxPain)
    by {
      assert |recent| == |rest| + 1 && recent[0] == last;
      assert forall k :: 0 <= k < |rest| ==> recent[k + 1] == rest[k];
      if last.pain < maxPain && (forall k :: 0 <= k < |rest| ==> rest[k].pain < maxPain) {
        forall k | 0 <= k < |recent| ensures recent[k].pain < maxPain {
          if k > 0 { assert recent[k] == rest[k - 1]; }
        }
      }
    }
    assert CountFor(entries[n - 1..], a) == 1 by {
      assert entries[n - 1..][..0] == [];
    }
    forall i | 0 <= i < n - 1
      ensures CountFor(entries[i..], a) == CountFor(older[i..], a) + 1 && entries[i] == older[i]
    {
      SuffixCount(entries, a, i);
    }
    if NewestBelow(entries, a, numReports, maxPain) {
      assert last.pain < maxPain;
      forall i | 0 <= i < |older| && older[i].assignment == a && CountFor(older[i..], a) <= numReports - 1
        ensures older[i].pain < maxPain
      {
        assert entries[i] == older[i];
      }
    }
    if last.pain < maxPain && NewestBelow(older, a, numReports - 1, maxPain) {
      forall i | 0 <= i < n && entries[i].assignment == a && CountFor(entries[i..], a) <= numReports
        ensures entries[i].pain < maxPain
      {
        if i < n - 1 {
          assert older[i] == entries[i];
        }
      }
    }
  }

  /** With an empty window, no entry of `a` is among its 0 newest. */
  lemma WindowEmpty(entries: seq<Entry>, a: nat, maxPain: int)
    ensures NewestBelow(entries, a, 0, maxPain)
    decreases |entries|
  {
    if entries != [] {
      var n := |entries|;
      var older := entries[..n - 1];
      WindowEmpty(older, a, maxPain);
      assert CountFor(entries[n - 1..], a) == CountFor(entries[n - 1..][..0], a) + (if entries[n - 1].assignment == a then 1 else 0);
      assert entries[n - 1..][..0] == [];
      forall i | 0 <= i < n - 1
        ensures CountFor(entries[i..], a) >= CountFor(older[i..], a) && entries[i] == older[i]
      {
        SuffixCount(entries, a, i);
      }
    }
  }

  /** The window in terms of entry ids: it holds iff `a` has at least
      `numReports` entries and every entry of `a` among its `numReports`
      newest has pain below `maxPain`. */
  lemma {:induction false} ConsistentLowPainIff(entries: seq<Entry>, a: nat, numReports: nat, maxPain: int)
    ensures HasConsistentLowPain(entries, a, numReports, maxPain) <==>
      CountFor(entries, a) >= numReports && NewestBelow(entries, a, numReports, maxPain)
    decreases |entries|
  {
    if numReports == 0 {
      WindowEmpty(entries, a, maxPain);
    } else if entries == [] {
    } else if entries[|entries| - 1].assignment != a {
      WindowStepOther(entries, a, numReports, maxPain);
      ConsistentLowPainIff(entries[..|entries| - 1], a, numReports, maxPain);
    } else {
      WindowStepSame(entries, a, numReports, maxPain);
      ConsistentLowPainIff(entries[..|entries| - 1], a, numReports - 1, maxPain);
    }
  }

  /** Fewer than `numReports` entries never pass the window. */
  lemma FewEntriesNeverPass(entries: seq<Entry>, a: nat, numReports: nat, maxPain: int)
    requires CountFor(entries, a) < numReports
    ensures !HasConsistentLowPain(entries, a, numReports, maxPain)
  {
    ConsistentLowPainIff(entries, a, numReports, maxPain);
  }

  /** A new high-pain entry closes the window; with it low, the window is the
      older window one shorter. */
  lemma NewestEntryDecides(entries: seq<Entry>, e: Entry, numReports: nat, maxPain: int)
    requires numReports > 0
    ensures HasConsistentLowPain(entries + [e], e.assignment, numReports, maxPain) <==>
      e.pain < maxPain && HasConsistentLowPain(entries, e.assignment, numReports - 1, maxPain)
  {
    var all := entries + [e];
    assert all[..|all| - 1] == entries;
    WindowStepSame(all, e.assignment, numReports, maxPain);
  }

  /** Lines 365-385 of `update`: the newest entry of `a` on day `today` gets
      the new sets, reps and pain; without one, a new entry in `report` is
      appended. Returns the new table and the id of the written entry. */
  function RecordedEntries(entries: seq<Entry>, dates: seq<int>, report: nat, a: nat, today: int,
                           sets: int, reps: int, pain: int): (res: (seq<Entry>, nat))
    requires report < |dates| && dates[report] == today
    ensures res.1 < |res.0| && |entries| <= |res.0| <= |entries| + 1
    ensures res.0[res.1].assignment == a && EntryOn(dates, a, today)(res.0[res.1])
    ensures res.0[res.1].sets == sets && res.0[res.1].reps == reps && res.0[res.1].pain == pain
    ensures forall j :: 0 <= j < |entries| && j != res.1 ==> res.0[j] == entries[j]
    ensures res.1 == |entries| || res.0[res.1].report == entries[res.1].report
  {
    match LastWhere(entries, EntryOn(dates, a, today))
    case None => (entries + [Entry(report, a, sets, reps, pain)], |entries|)
    case Some(j) => (entries[j := entries[j].(sets := sets, reps := reps, pain := pain)], j)
  }

  /** An entry is appended exactly when `a` has none on that day; otherwise
      the newest one (highest id) is the one rewritten, its report kept. */
  lemma RecordedEntriesUpdatesNewest(entries: seq<Entry>, dates: seq<int>, report: nat, a: nat, today: int,
                                     sets: int, reps: int, pain: int)
    requires report < |dates| && dates[report] == today
    ensures var (entries', k) := RecordedEntries(entries, dates, report, a, today, sets, reps, pain);
      && ((exists j :: 0 <= j < |entries| && EntryOn(dates, a, today)(entries[j])) <==> k < |entries|)
      && (k < |entries| ==>
            && EntryOn(dates, a, today)(entries[k])
            && (forall j :: k < j < |entries| ==> !EntryOn(dates, a, today)(entries[j]))
            && entries' == entries[k := entries[k].(sets := sets, reps := reps, pain := pain)])
      && (k == |entries| ==> entries' == entries + [Entry(report, a, sets, reps, pain)])
  {
  }

  // ---------------------------------------------------------------------
  // The lazy daily reset
  // ---------------------------------------------------------------------

  /** `reset_user_exercises` in views: the reset fires when the user was never
      reset or strictly more than a day has passed. */
  predicate DueStrict(lastReset: Option<int>, now: int)
  {
    lastReset.None? || now - lastReset.value > Day
  }

  /** Clear `completed` and zero `pain_level` on the active rows of every
      user in `users`; all other rows are kept. */
  function ResetRows(rows: seq<Assignment>, users: set<nat>): (r: seq<Assignment>)
    ensures |r| == |rows|
    ensures forall i :: 0 <= i < |rows| ==>
      r[i] == if rows[i].user in users && rows[i].active then rows[i].(completed := false, pain := 0) else rows[i]
  {
    seq(|rows|, i requires 0 <= i < |rows| =>
      if rows[i].user in users && rows[i].active then rows[i].(completed := false, pain := 0) else rows[i])
  }

  /** Resetting keeps every row's owner, variant and activity, so it keeps
      rows unique, touches only the active rows of the users reset, and a
      second reset changes nothing. */
  lemma ResetRowsProperties(rows: seq<Assignment>, users: set<nat>)
    ensures NoDuplicateRows(rows) ==> NoDuplicateRows(ResetRows(rows, users))
    ensures ResetRows(ResetRows(rows, users), users) == ResetRows(rows, users)
    ensures forall i :: 0 <= i < |rows| && (rows[i].user !in users || !rows[i].active) ==> ResetRows(rows, users)[i] == rows[i]
    ensures forall i :: 0 <= i < |rows| && rows[i].user in users && rows[i].active ==>
      var a := ResetRows(rows, users)[i]; !a.completed && a.pain == 0 && a.active
  {
  }

  /** Resetting one user after a set of users is resetting the set with that
      user added, so users can be reset one at a time in any order. */
  lemma ResetRowsCompose(rows: seq<Assignment>, users: set<nat>, u: nat)
    ensures ResetRows(ResetRows(rows, users), {u}) == ResetRows(rows, users + {u})
  {
  }

  /** After a reset at `now`, a reset at the same `now` does not fire. */
  lemma ResetNotDueAgain(now: int)
    ensures !DueStrict(Some(now), now)
  {
  }

  // ---------------------------------------------------------------------
  // The defects of the helpers as written (see README, Findings)
  // ---------------------------------------------------------------------

  /** What a Python helper hands back to its caller. */
  datatype PyReturn = ReturnsNone | ReturnsRow(id: nat) | Raises(error: PyError)
  datatype PyError = TypeError | UnboundLocalError

  /** `update_exercise_level_based_on_pain` as written: the Beginner branch
      builds `JsonResponse({'exercise': <Exercise>, ...})`, and serialising a
      model instance raises TypeError. */
  function DecreaseReturnAsWritten(d: Decision, moved: Option<nat>): PyReturn
  {
    match d
    case Floor(_) => Raises(TypeError)
    case Move(_, _) => if moved.Some? then ReturnsRow(moved.value) else ReturnsNone
    case _ => ReturnsNone
  }

  /** `increase_difficulty` as written: when no target is found (Advanced, or
      a catalog gap) `new_user_exercise` is never bound and the return raises. */
  function IncreaseReturnAsWritten(d: Decision, moved: Option<nat>): PyReturn
  {
    match d
    case Keep(_) => Raises(UnboundLocalError)
    case Move(_, _) => if moved.Some? then ReturnsRow(moved.value) else ReturnsNone
    case _ => ReturnsNone
  }

  /** High pain on a Beginner assignment raises as written. */
  lemma FloorRaisesAsWritten(rows: seq<Assignment>, catalog: seq<Variant>, user: nat, pain: int, name: string, i: nat)
    requires FirstWhere(rows, ActiveNamed(user, name)) == Some(i)
    requires rows[i].variant.level == Beginner && pain >= HighPain
    ensures DecreaseReturnAsWritten(DecideDecrease(rows, catalog, user, pain, name), None) == Raises(TypeError)
  {
  }

  /** Increasing an Advanced assignment raises as written. */
  lemma CeilingRaisesAsWritten(rows: seq<Assignment>, catalog: seq<Variant>, user: nat, name: string, i: nat)
    requires FirstWhere(rows, ActiveNamed(user, name)) == Some(i)
    requires rows[i].variant.level == Advanced
    ensures IncreaseReturnAsWritten(DecideIncrease(rows, catalog, user, name), None) == Raises(UnboundLocalError)
  {
  }

  /** Corrected: increasing an Advanced assignment keeps the source row. */
  lemma CeilingKeepsSource(rows: seq<Assignment>, catalog: seq<Variant>, user: nat, name: string, i: nat)
    requires FirstWhere(rows, ActiveNamed(user, name)) == Some(i)
    requires rows[i].variant.level == Advanced
    ensures DecideIncrease(rows, catalog, user, name) == Keep(i)
  {
  }

  /** Corrected: high pain on a Beginner assignment is the floor message. */
  lemma FloorKeepsRows(rows: seq<Assignment>, catalog: seq<Variant>, user: nat, pain: int, name: string, i: nat)
    requires FirstWhere(rows, ActiveNamed(user, name)) == Some(i)
    requires rows[i].variant.level == Beginner && pain >= HighPain
    ensures DecideDecrease(rows, catalog, user, pain, name) == Floor(i)
  {
  }

  // ---------------------------------------------------------------------
  // The database the views act on
  // ---------------------------------------------------------------------

  /** At most one report per user and day. */
  ghost predicate OneReportPerDay(reports: seq<Report>)
  {
    forall i, j :: 0 <= i < j < |reports| && reports[i].user == reports[j].user ==> reports[i].date != reports[j].date
  }

  /** Lines 357-360 of `update`: today's report of `user`, created when
      missing. Returns the new table and the report's id. */
  function TodaysReport(reports: seq<Report>, user: nat, today: int): (res: (seq<Report>, nat))
    ensures res.1 < |res.0| && res.0[res.1].user == user && res.0[res.1].date == today
    ensures res.1 < |reports| <==> exists k :: 0 <= k < |reports| && reports[k].user == user && reports[k].date == today
    ensures res.1 < |reports| ==> res.0 == reports
    ensures res.1 >= |reports| ==> res.0 == reports + [Report(user, today, {})]
    ensures OneReportPerDay(reports) ==> OneReportPerDay(res.0)
  {
    match FirstWhere(reports, ReportOn(user, today))
    case Some(k) => (reports, k)
    case None => (reports + [Report(user, today, {})], |reports|)
  }

  /** Today's report with `a` added to its completed exercises (lines 357-360
      and 394); no other report changes. */
  function CompletedIn(reports: seq<Report>, user: nat, today: int, a: nat): (res: (seq<Report>, nat))
    ensures var (open, k) := TodaysReport(reports, user, today);
      && res.1 == k && |res.0| == |open|
      && res.0[k].user == user && res.0[k].date == today
      && res.0[k].exercisesCompleted == open[k].exercisesCompleted + {a}
      && forall j :: 0 <= j < |res.0| && j != k ==> res.0[j] == open[j]
  {
    var (open, k) := TodaysReport(reports, user, today);
    (open[k := open[k].(exercisesCompleted := open[k].exercisesCompleted + {a})], k)
  }

  /** The fields a completion submits; absent ones keep the row's value. */
  datatype Submission = Submission(
    completed: Option<bool>,
    sets: Option<int>,
    reps: Option<int>,
    pain: Option<int>,
    exercise: Option<Variant>)

  /** How `update` ends: 404, 400 for an unknown exercise, an integrity error
      for a second row of the same exercise, the early return for a
      non-completed submission, or a saved completion with the decisions
      taken, the retarget row, the report and the entry written. */
  datatype UpdateResult =
    | NotFound
    | Invalid
    | IntegrityError
    | NotCompleted
    | Saved(decrease: Decision, increase: Option<Decision>, retarget: Option<nat>, report: nat, entry: nat)

  class Store {
    /** `UserExercise` rows, by id. */
    var rows: seq<Assignment>
    /** `Report` rows, by id. */
    var reports: seq<Report>
    /** `ReportExercise` rows, by id. */
    var entries: seq<Entry>
    /** `User.last_reset` of every user (a timestamp in microseconds). */
    var lastReset: map<nat, Option<int>>
    /** The `Exercise` catalog, by id; never changed here. */
    const catalog: seq<Variant>

    ghost predicate Valid()
      reads this
    {
      && NoDuplicateRows(rows)
      && OneReportPerDay(reports)
      && forall k :: 0 <= k < |entries| ==> entries[k].report < |reports|
    }

    constructor (catalog: seq<Variant>, users: set<nat>)
      ensures Valid()
      ensures this.catalog == catalog && rows == [] && reports == [] && entries == []
      ensures lastReset == map u | u in users :: None
    {
      this.catalog := catalog;
      rows, reports, entries := [], [], [];
      lastReset := map u | u in users :: None;
    }

    /** `reset_user_exercises(user)` of views.py. */
    method ResetUserExercises(user: nat, now: int)
      requires Valid() && user in lastReset
      modifies this
      ensures Valid()
      ensures reports == old(reports) && entries == old(entries)
      ensures DueStrict(old(lastReset[user]), now) ==>
        rows == ResetRows(old(rows), {user}) && lastReset == old(lastReset)[user := Some(now)]
      ensures !DueStrict(old(lastReset[user]), now) ==> rows == old(rows) && lastReset == old(lastReset)
    {
      if DueStrict(lastReset[user], now) {
        ResetRowsProperties(rows, {user});
        rows := ResetRows(rows, {user});
        lastReset := lastReset[user := Some(now)];
      }
    }

    /** The `for user_exercise in user_exercises: if ...name == exercise_name`
        scan shared by both progression helpers. */
    method FindActiveNamed(user: nat, name: string) returns (found: Option<nat>)
      ensures found == FirstWhere(rows, ActiveNamed(user, name))
    {
      var i := 0;
      while i < |rows|
        invariant 0 <= i <= |rows|
        invariant forall j :: 0 <= j < i ==> !ActiveNamed(user, name)(rows[j])
      {
        if rows[i].user == user && rows[i].active && rows[i].variant.name == name {
          return Some(i);
        }
        i := i + 1;
      }
      return None;
    }

    /** Reuse or create the target row (lines 86-101 and 172-187). */
    method Retarget(user: nat, target: Variant, template: nat) returns (id: nat)
      requires Valid() && template < |rows|
      modifies this
      ensures Valid()
      ensures (rows, id) == Upsert(old(rows), user, target, template)
      ensures KeysKept(old(rows), rows)
      ensures reports == old(reports) && entries == old(entries) && lastReset == old(lastReset)
    {
      UpsertKeepsRowsUnique(rows, user, target, template);
      rows, id := Upsert(rows, user, target, template).0, Upsert(rows, user, target, template).1;
    }

    /** `update_exercise_level_based_on_pain(user, pain_level, exercise_name)`,
        with the Beginner branch returning the floor decision. */
    method UpdateExerciseLevelBasedOnPain(user: nat, pain: int, name: string) returns (d: Decision, moved: Option<nat>)
      requires Valid()
      modifies this
      ensures Valid()
      ensures d == DecideDecrease(old(rows), catalog, user, pain, name)
      ensures d.Move? <==> moved.Some?
      ensures d.Move? ==> (rows, moved.value) == Upsert(old(rows), user, d.target, d.source)
      ensures !d.Move? ==> rows == old(rows)
      ensures KeysKept(old(rows), rows)
      ensures reports == old(reports) && entries == old(entries) && lastReset == old(lastReset)
    {
      var found := FindActiveNamed(user, name);
      if found.None? {
        return NoMatch, None;
      }
      var i := found.value;
      var current := rows[i].variant;
      var newExercise: Option<Variant> := None;
      match current.level {
        case Advanced =>
          if pain >= HighPain {
            newExercise := FindVariant(catalog, current.category, Intermediate);
          }
        case Intermediate =>
          if pain >= HighPain {
            newExercise := FindVariant(catalog, current.category, Beginner);
          }
        case Beginner =>
          if pain >= HighPain {
            return Floor(i), None;
          }
      }
      if newExercise.Some? {
        var id := Retarget(user, newExercise.value, i);
        return Move(i, newExercise.value), Some(id);
      }
      return Keep(i), None;
    }

    /** `increase_difficulty(user, exercise_name)`, returning the kept source
        where the code returns an unbound name. */
    method IncreaseDifficulty(user: nat, name: string) returns (d: Decision, moved: Option<nat>)
      requires Valid()
      modifies this
      ensures Valid()
      ensures d == DecideIncrease(old(rows), catalog, user, name)
      ensures d.Move? <==> moved.Some?
      ensures d.Move? ==> (rows, moved.value) == Upsert(old(rows), user, d.target, d.source)
      ensures !d.Move? ==> rows == old(rows)
      ensures KeysKept(old(rows), rows)
      ensures reports == old(reports) && entries == old(entries) && lastReset == old(lastReset)
    {
      var found := FindActiveNamed(user, name);
      if found.None? {
        return NoMatch, None;
      }
      var i := found.value;
      var current := rows[i].variant;
      var newExercise: Option<Variant> := None;
      match current.level {
        case Advanced =>
        case Intermediate =>
          newExercise := FindVariant(catalog, current.category, Advanced);
        case Beginner =>
          newExercise := FindVariant(catalog, current.category, Intermediate);
      }
      if newExercise.Some? {
        var id := Retarget(user, newExercise.value, i);
        return Move(i, newExercise.value), Some(id);
      }
      return Keep(i), None;
    }

    /** Today's report of `user`, created when missing (lines 357-360). */
    method GetOrCreateReport(user: nat, today: int) returns (k: nat)
      requires Valid()
      modifies this
      ensures Valid()
      ensures k < |reports| && reports[k].user == user && reports[k].date == today
      ensures old(FirstWhere(reports, ReportOn(user, today))).Some? ==>
        reports == old(reports) && k == old(FirstWhere(reports, ReportOn(user, today))).value
      ensures old(FirstWhere(reports, ReportOn(user, today))).None? ==>
        reports == old(reports) + [Report(user, today, {})] && k == old(|reports|)
      ensures (reports, k) == TodaysReport(old(reports), user, today)
      ensures rows == old(rows) && entries == old(entries) && lastReset == old(lastReset)
    {
      var found := FirstWhere(reports, ReportOn(user, today));
      if found.Some? {
        k := found.value;
      } else {
        reports := reports + [Report(user, today, {})];
        k := |reports| - 1;
      }
    }

    /** Update the newest entry of assignment `a` on `today`, or create one in
        report `report` (lines 365-385). */
    method RecordEntry(report: nat, a: nat, today: int, sets: int, reps: int, pain: int) returns (k: nat)
      requires Valid() && report < |reports| && reports[report].date == today
      modifies this
      ensures Valid()
      ensures rows == old(rows) && reports == old(reports) && lastReset == old(lastReset)
      ensures (entries, k) == RecordedEntries(old(entries), Dates(reports), report, a, today, sets, reps, pain)
    {
      var latest := LastWhere(entries, EntryOn(Dates(reports), a, today));
      if latest.None? {
        entries := entries + [Entry(report, a, sets, reps, pain)];
        k := |entries| - 1;
      } else {
        k := latest.value;
        entries := entries[k := entries[k].(sets := sets, reps := reps, pain := pain)];
      }
    }

    /** `report.exercises_completed.add(instance)` (line 394). */
    method MarkCompleted(report: nat, a: nat)
      requires Valid() && report < |reports|
      modifies this
      ensures Valid()
      ensures reports == old(reports)[report := old(reports)[report].(exercisesCompleted := old(reports)[report].exercisesCompleted + {a})]
      ensures Dates(reports) == old(Dates(reports))
      ensures rows == old(rows) && entries == old(entries) && lastReset == old(lastReset)
    {
      reports := reports[report := reports[report].(exercisesCompleted := reports[report].exercisesCompleted + {a})];
      assert Dates(reports) == old(Dates(reports));
    }

    /** `instance.save()`: the whole loaded state of row `id` is written back. */
    method SaveRow(id: nat, a: Assignment)
      requires Valid() && id < |rows| && rows[id].user == a.user && rows[id].variant == a.variant
      modifies this
      ensures Valid()
      ensures rows == old(rows)[id := a] && KeysKept(old(rows), rows)
      ensures reports == old(reports) && entries == old(entries) && lastReset == old(lastReset)
    {
      WriteBackKeepsRowsUnique(rows, id, a);
      rows := rows[id := a];
    }

    /** Lines 351-363 of `update`: the decrease on the submitted pain, today's
        report, and the increase when the earlier entries form a low-pain
        window. The row moved to is the increase's when it moves, else the
        decrease's. Entries are untouched. */
    method Progress(user: nat, id: nat, name: string, pain: int, today: int)
      returns (decrease: Decision, increase: Option<Decision>, moved: Option<nat>, rep: nat)
      requires Valid() && id < |rows|
      modifies this
      ensures Valid()
      ensures (rows, moved, decrease, increase) ==
        Progressed(old(rows), catalog, user, pain, name, HasConsistentLowPain(old(entries), id))
      ensures (reports, rep) == TodaysReport(old(reports), user, today)
      ensures entries == old(entries) && lastReset == old(lastReset)
    {
      var m;
      decrease, m := UpdateExerciseLevelBasedOnPain(user, pain, name);
      assert (rows, m) == Applied(old(rows), user, decrease);
      rep := GetOrCreateReport(user, today);
      increase, moved := None, m;
      if HasConsistentLowPain(entries, id) {
        ghost var rows1 := rows;
        var d, m2 := IncreaseDifficulty(user, name);
        assert (rows, m2) == Applied(rows1, user, d);
        increase := Some(d);
        if m2.Some? {
          moved := m2;
        }
      }
    }

    /** Lines 365-400 of `update`: the entry, the save of the submitted row
        (active, then inactive after a move) and its mark in the report. */
    method WriteCompletion(id: nat, inst: Assignment, rep: nat, today: int, completedSets: int, completedReps: int,
                           pain: int, moved: bool)
      returns (k: nat)
      requires Valid() && id < |rows| && rows[id].user == inst.user && rows[id].variant == inst.variant
      requires rep < |reports| && reports[rep].date == today
      modifies this
      ensures Valid()
      ensures lastReset == old(lastReset)
      ensures rows == old(rows)[id := inst.(pain := pain, completed := true, active := !moved)]
      ensures reports == old(reports)[rep := old(reports)[rep].(exercisesCompleted := old(reports)[rep].exercisesCompleted + {id})]
      ensures (entries, k) == RecordedEntries(old(entries), Dates(reports), rep, id, today, completedSets, completedReps, inst.pain)
    {
      k := RecordEntry(rep, id, today, completedSets, completedReps, inst.pain);
      var saved := inst.(pain := pain, completed := true, active := true);
      SaveRow(id, saved);
      MarkCompleted(rep, id);
      if moved {
        SaveRow(id, saved.(active := false));
      }
    }

    /** Lines 349-400 of `update` for a completed submission on row `id`,
        whose loaded state is `inst`: decrease, today's report, the increase
        on a low-pain window, the entry, and the save of the row. */
    method RecordCompletion(user: nat, id: nat, inst: Assignment, completedSets: int, completedReps: int,
                            pain: int, today: int)
      returns (r: UpdateResult)
      requires Valid() && id < |rows| && rows[id] == inst
      modifies this
      ensures Valid()
      ensures lastReset == old(lastReset)
      ensures r.Saved?
      ensures var p := Progressed(old(rows), catalog, user, pain, inst.variant.name, HasConsistentLowPain(old(entries), id));
        && r.decrease == p.2 && r.increase == p.3 && r.retarget == p.1
        && rows == p.0[id := inst.(pain := pain, completed := true, active := p.1.None?)]
      ensures r.retarget.Some? && r.retarget.value != id ==>
        r.retarget.value < |rows| && rows[r.retarget.value].active && !rows[r.retarget.value].completed
      ensures (reports, r.report) == CompletedIn(old(reports), user, today, id)
      ensures (entries, r.entry) ==
        RecordedEntries(old(entries), Dates(reports), r.report, id, today, completedSets, completedReps, inst.pain)
    {
      var decrease, increase, moved, rep := Progress(user, id, inst.variant.name, pain, today);
      ghost var reports1 := reports;
      var k := WriteCompletion(id, inst, rep, today, completedSets, completedReps, pain, moved.Some?);
      r := Saved(decrease, increase, moved, rep, k);
    }

    /** `UserExerciseViewSet.update` for the authenticated `user` on row `id`.
        Only a move counts as a retarget: the floor message and a kept source
        leave the submitted row active. */
    method Update(user: nat, id: nat, sub: Submission, today: int) returns (r: UpdateResult)
      requires Valid()
      modifies this
      ensures Valid()
      ensures lastReset == old(lastReset)
      ensures r.NotFound? <==> !(id < old(|rows|) && old(rows)[id].user == user && old(rows)[id].active)
      ensures r.NotFound? || r.Invalid? || r.IntegrityError? ==>
        rows == old(rows) && reports == old(reports) && entries == old(entries)
      ensures r.NotCompleted? ==>
        && id < old(|rows|)
        && !GetOr(sub.completed, old(rows)[id].completed)
        && reports == old(reports) && entries == old(entries)
        && rows == old(rows)[id := old(rows)[id].(variant := GetOr(sub.exercise, old(rows)[id].variant))]
      ensures r.Saved? ==>
        && id < old(|rows|)
        && GetOr(sub.completed, old(rows)[id].completed)
        && var inst := old(rows)[id].(variant := GetOr(sub.exercise, old(rows)[id].variant));
           var pain := GetOr(sub.pain, old(rows)[id].pain);
           var p := Progressed(old(rows)[id := inst], catalog, user, pain, inst.variant.name,
                               HasConsistentLowPain(old(entries), id));
           && r.decrease == p.2 && r.increase == p.3 && r.retarget == p.1
           && rows == p.0[id := inst.(pain := pain, completed := true, active := p.1.None?)]
      ensures r.Saved? ==> (reports, r.report) == CompletedIn(old(reports), user, today, id)
      ensures r.Saved? ==>
        && id < old(|rows|)
        && r.report < |reports| && reports[r.report].date == today
        && (entries, r.entry) == RecordedEntries(old(entries), Dates(reports), r.report, id, today,
             GetOr(sub.sets, old(rows)[id].sets), GetOr(sub.reps, old(rows)[id].reps), old(rows)[id].pain)
    {
      if !(id < |rows| && rows[id].user == user && rows[id].active) {
        return NotFound;
      }
      var inst := rows[id];
      var completed := GetOr(sub.completed, inst.completed);
      var completedSets := GetOr(sub.sets, inst.sets);
      var completedReps := GetOr(sub.reps, inst.reps);
      if sub.exercise.Some? {
        if sub.exercise.value !in catalog {
          return Invalid;
        }
        if sub.exercise.value != inst.variant && FirstWhere(rows, HasVariant(user, sub.exercise.value)).Some? {
          return IntegrityError;
        }
      }
      inst := inst.(variant := GetOr(sub.exercise, inst.variant));
      rows := rows[id := inst];
      if !completed {
        return NotCompleted;
      }
      var pain := GetOr(sub.pain, inst.pain);
      r := RecordCompletion(user, id, inst, completedSets, completedReps, pain, today);
    }
  }
}
