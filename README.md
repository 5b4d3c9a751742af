# physio-tracker: exercise progression and its client screens

physio-tracker is a physiotherapy app. A Django REST API keeps each patient's
exercise assignments, daily reports and per-exercise report entries. A React
Native client shows them. This project models the parts that decide what
happens to a patient's exercises, and proves properties of them:

- **The progression engine** (`api/views.py`), in module `Views`:
  - a high pain level moves an assignment one difficulty level down;
  - a window of three low-pain entries moves it one level up;
  - the target assignment is reused or created, keeping (user, variant) rows unique;
  - the lazy 24-hour reset;
  - the completion flow of `UserExerciseViewSet.update`.

  The database is the class `Views.Store`. Its tables are sequences ordered by
  primary key, so a row's id is its index. `.first()` is the first match in id
  order, and `order_by('-id').first()` is the last match.
- **The daily reset command** (`api/management/commands/reset_exercises.py`),
  in module `ResetExercises`. It uses an inclusive threshold where `views.py`
  uses a strict one. The model proves which instants the two tests disagree on.
- **The two completion hooks** (`useExerciseUpdates.ts`, `useExerciseCompletion.ts`),
  in modules `ExerciseUpdates` and `ExerciseCompletion`, with the dropdown
  generators they share in `ExerciseForms`. Each hook is a class whose fields are
  the hook's state. The requests it sends are a log field. What `createApiInstance`
  and the server return are method parameters.
- **The sign-up screen** (`frontend/app/signup.tsx`), in module `Signup`:
  - its two regular expressions, proved equal to plain-language rules; the email
    one is checked by an automaton proved equivalent to the pattern;
  - the order of the checks before registering;
  - the trimmed request body;
  - the choice of error message.
- **The analytics hook** (`useAnalyticsData.ts`), in module `AnalyticsData`:
  - week navigation that never passes today;
  - the week title;
  - how a response or a failure updates the state.

  Dates are day numbers. The device calendar is a parameter `civil`.
- `IsoDates`: `toISOString().split("T")[0]`, shared by sign-up and analytics.

Times in the backend are integers. The reset clock counts microseconds, the
resolution of Python datetimes, and `timedelta(days=1)` is `Day`. Report dates
are day numbers.

Where the documented behaviour (docstrings, tests) and the code disagree, the model follows the code:

- **Promotion is not two-phase.** `update` promotes immediately when the low-pain
  window holds (views.py:362-363). Its response carries no `should_*` flags. The
  client's flag handling is modelled as written, so with this backend only the
  pain-based messages are reachable.
- **The window reads only earlier entries.** It is evaluated before today's entry
  is written, on the entries that already exist.
- **A deactivated source keeps its date.** A moved-away source is deactivated
  without setting `date_deactivated`.
- **A reused target keeps its date too.** A reused target row is reactivated
  without clearing `date_deactivated`.
- **The entry keeps the previous pain level.** The written entry takes the row's
  previous pain level (views.py:378 and 384), not the submitted one.
- **A decrease and an increase can both fire.** In one `update`, the decrease and
  then the increase can each retarget. The model runs them in sequence, as the
  code does. The increase is decided on the rows the decrease left.
- **The retarget row is never already completed.** Reuse and creation both leave
  the target row not completed, so the `new_user_exercise.completed` branch
  (views.py:396-397) never runs. `Views.Progressed` proves this.
- **The reset is not by calendar day.** It clears only active rows. `views.py`
  fires when strictly more than 24 hours have passed; the command fires at 24
  hours or more.
- **High pain on a Beginner assignment raises.** It does not signal removal; see
  Findings. The corrected model treats it as a `Floor` decision that changes nothing.

## Model

| member | source | states |
|---|---|---|
| Records.GetOr | api/views.py:340-342 | a field absent from the submission falls back to the row's current value; a present one wins |
| Records.FirstWhere | api/views.py:86-88 | `.first()`: the lowest-id row matching the filter, with no match before it; None exactly when no row matches |
| Records.LastWhere | api/views.py:366-369 | `order_by('-id').first()`: the highest-id match, with no match after it; None exactly when none matches |
| Views.Higher | api/views.py:148-166 | the level above; there is none exactly at Advanced |
| Views.Lower | api/views.py:54-70 | the level below; there is none exactly at Beginner, and going down then up returns to the same level |
| Views.FindVariant | api/views.py:59-62 | the catalog lookup returns a catalog variant of the requested category and level, and returns nothing exactly when no such variant exists. When several match, it returns the lowest-id one: no matching variant comes before it |
| Views.DecideDecrease | api/views.py:40-105 | no decision exactly when the user has no active row of that name. Otherwise the source is the lowest-id such row. The floor case happens exactly on pain of at least 4 at Beginner, and a move needs pain of at least 4 |
| Views.DecideIncrease | api/views.py:139-190 | no decision exactly when the user has no active row of that name. Otherwise the source is the lowest-id such row. A move never starts from Advanced, and the floor case never occurs |
| Views.DecreaseMovesOneLevelDown | api/views.py:45-70 | a decrease only happens on pain of at least 4. It starts from an active assignment of that name and targets a catalog variant of the same category exactly one level lower |
| Views.DecreaseCases | api/views.py:45-105 | no matching active row gives no decision. Low pain keeps the source. High pain at Beginner gives the floor case. High pain elsewhere moves exactly when the lower variant exists in the catalog |
| Views.IncreaseMovesOneLevelUp | api/views.py:139-166 | an increase targets a same-category variant exactly one level higher. It moves exactly when the first active row of that name has a next level up and the catalog holds a variant of its category at that level; with no such row it matches nothing. With both higher variants in the catalog, only an Advanced source is kept. An increase never takes the floor case |
| Views.Reactivated | api/views.py:87-92 | a reused row has pain 0, is not completed and is active; owner, variant, sets, reps and `date_deactivated` are unchanged |
| Views.Upsert | api/views.py:86-101 | the returned row belongs to the user, targets the variant, is active with pain 0 and not completed. At most one row is added. Every other row is unchanged, and no row changes owner or variant |
| Views.UpsertReusesOrCreates | api/views.py:86-101 | a row is reused exactly when the user already has one for the target, active or not. Then it is the first such row and nothing is appended. Otherwise the new row copies sets and reps from the source |
| Views.UpsertKeepsRowsUnique | api/views.py:172-187 | retargeting never creates a second row for the same user and variant; afterwards the returned row is the user's only row for the target |
| Views.AppliedFacts | api/views.py:86-101 | a decision changes existing rows only by reactivating them, appends at most one active, not completed row of the user with pain 0, and keeps (user, variant) rows unique; only a move changes anything |
| Views.AppliedTwice | api/views.py:351-363 | two decisions in a row change existing rows only by reactivation, append at most two fresh active rows of the user, and keep rows unique |
| Views.Progressed | api/views.py:351-400 | the decrease is decided on the rows as they were. The increase is attempted exactly when the window holds, on the rows the decrease left. A retarget happened exactly when either decision moved. The retarget row belongs to the user, is active, has pain 0 and is not completed, so the `new_user_exercise.completed` branch never runs. Existing rows change only by reactivation, at most two fresh rows are appended, and rows stay unique |
| Views.NewestFirst | api/views.py:116-118 | the entries of one assignment, newest first: exactly as many as the assignment has |
| Views.NewestIds | api/views.py:116-118 | the ids of the assignment's entries, newest first: one valid id per entry of the assignment |
| Views.NewestIdsExact | api/views.py:116-118 | `NewestFirst` is exactly the assignment's entries, each once, in strictly decreasing id order (`order_by('-id')`) |
| Views.HasConsistentLowPain | api/views.py:107-137 | the window holds exactly when the assignment has at least `num_reports` entries and its `num_reports` newest all have pain below `max_pain_level` |
| Views.Take | api/views.py:124 | the slice `[:n]`: a prefix of length min(n, size) |
| Views.ConsistentLowPainIff | api/views.py:107-137 | the window holds exactly when the assignment has at least `num_reports` entries and each of its `num_reports` newest entries has pain below `max_pain_level` |
| Views.FewEntriesNeverPass | api/views.py:131-134 | fewer entries than the window size never pass, whatever their pain |
| Views.NewestEntryDecides | api/views.py:116-137 | one new high-pain entry closes the window; a new low-pain entry leaves the older window one shorter to decide |
| Views.RecordedEntries | api/views.py:365-385 | the written entry is for this assignment on today's date and holds the given sets, reps and pain. At most one entry is appended; all others are unchanged, and an updated entry keeps its report |
| Views.RecordedEntriesUpdatesNewest | api/views.py:365-385 | an entry is appended exactly when the assignment has none dated today; otherwise the newest such entry is the one rewritten |
| Views.DueStrict | api/views.py:22 | the view's test: the reset fires when the user was never reset or strictly more than a day has passed (its partners are ResetNotDueAgain and ResetExercises.ThresholdsDiffer) |
| Views.TodaysReport | api/views.py:357-360 | the result is a report of the user dated today. An existing one is reused, and then nothing changes. Otherwise exactly one empty report is appended. At most one report per user and day is kept |
| Views.CompletedIn | api/views.py:357-394 | today's report, found or created, gains exactly this row in its completed exercises, and no other report changes |
| Views.ResetRows | api/views.py:24 | exactly the active rows of the reset users have `completed` cleared and pain set to 0; every other row is unchanged |
| Views.ResetRowsProperties | api/views.py:20-26 | resetting keeps (user, variant) rows unique and is idempotent. It leaves other users' rows and inactive rows untouched |
| Views.ResetRowsCompose | api/management/commands/reset_exercises.py:21-24 | resetting one more user after a set of users equals resetting the enlarged set, so the per-user loop is order-independent |
| Views.ResetNotDueAgain | api/views.py:22-25 | right after a reset at `now`, a second check at the same `now` does not fire |
| Views.FloorRaisesAsWritten | api/views.py:71-80 | as written, high pain on a Beginner assignment raises TypeError |
| Views.FloorKeepsRows | api/views.py:71-80 | corrected: high pain on a Beginner assignment is the floor decision on that row |
| Views.CeilingRaisesAsWritten | api/views.py:149-190 | as written, increasing an Advanced assignment reaches the return with its name unbound |
| Views.CeilingKeepsSource | api/views.py:149-190 | corrected: increasing an Advanced assignment keeps the source |
| Views.Store.ResetUserExercises | api/views.py:20-26 | when strictly more than a day has passed, or the user was never reset, the user's active rows are reset and `last_reset` becomes now; otherwise nothing changes |
| Views.Store.FindActiveNamed | api/views.py:45-47 | the loop finds the first active row of the user whose exercise has that name |
| Views.Store.Retarget | api/views.py:86-101 | the table becomes the reuse-or-create result and stays free of duplicate (user, variant) rows |
| Views.Store.UpdateExerciseLevelBasedOnPain | api/views.py:40-105 | the decision is the decrease decision on the rows as they were. Rows change only on a move, through reuse-or-create; reports, entries and reset times are untouched |
| Views.Store.IncreaseDifficulty | api/views.py:139-190 | the decision is the increase decision on the rows as they were. Rows change only on a move, through reuse-or-create; nothing else is touched |
| Views.Store.GetOrCreateReport | api/views.py:357-360 | the reports become `TodaysReport`'s result: the user's first report dated today, appended only when none exists |
| Views.Store.RecordEntry | api/views.py:365-385 | the entries table becomes the update-or-append result for this assignment and day |
| Views.Store.MarkCompleted | api/views.py:394 | the row id is added to the report's `exercises_completed`; no report's date changes |
| Views.Store.SaveRow | api/views.py:389-392 | the loaded state is written back over the row; row uniqueness is kept |
| Views.Store.Progress | api/views.py:351-363 | the new rows, the retarget row and both decisions are exactly `Progressed` of the rows as they were, with the window judged on the earlier entries. The reports become `TodaysReport`'s result. Entries and reset times are untouched |
| Views.Store.WriteCompletion | api/views.py:365-400 | the entry is updated or appended with the row's previous pain. Only the submitted row changes: it holds the submitted pain, is completed, and is inactive exactly after a move. Only the given report changes: it gains the row in its completed exercises |
| Views.Store.RecordCompletion | api/views.py:349-400 | the rows are `Progressed`'s with the submitted row saved: submitted pain, completed, active exactly when no retarget happened. The decisions and the retarget row are `Progressed`'s, and a retarget row other than the submitted one is active and not completed. The reports are `CompletedIn`'s: today's report, found or created, gains exactly this row. The entry has the completed sets and reps with the row's previous pain |
| Views.Store.Update | api/views.py:331-400 | an inactive or other user's row is not found, and nothing changes. An unknown exercise or a second row of the same exercise changes nothing. A non-completed submission saves only the exercise field. A completed one leaves exactly the state of RecordCompletion, applied to the row with the submitted exercise, with absent fields falling back to the row's values |
| ResetExercises.DueInclusive | api/management/commands/reset_exercises.py:9 | the command's test: the reset fires when the user was never reset or at least 24 hours have passed (its partner is ThresholdsDiffer) |
| ResetExercises.ThresholdsDiffer | api/management/commands/reset_exercises.py:9 | the command's inclusive 24-hour test fires whenever the view's strict test does, and the two differ exactly when exactly 24 hours have passed |
| ResetExercises.DueUsers | api/management/commands/reset_exercises.py:21-24 | the users due for a reset are exactly the known users whose last reset is absent or at least a day old |
| ResetExercises.ResetUserExercises | api/management/commands/reset_exercises.py:6-15 | a due user's active rows are reset and `last_reset` becomes now; a user not yet due is left alone |
| ResetExercises.Handle | api/management/commands/reset_exercises.py:21-24 | after the loop, the rows equal one reset of exactly the due users. Each user's `last_reset` is now if they were due and unchanged otherwise |
| ExerciseForms.Decimal | frontend/hooks/useExerciseUpdates.ts:212 | a number prints as a non-empty string of digits with no leading zero |
| ExerciseForms.ParseDecimalRoundTrip | frontend/hooks/useExerciseUpdates.ts:210-215 | a printed label parses back to its number, so distinct values never share a label |
| ExerciseForms.DropdownData | frontend/hooks/useExerciseUpdates.ts:210-215 | `maxValue` entries, or none for a negative value, valued 1..maxValue; each label reads back as its value and has no leading zero |
| ExerciseForms.PainLevelData | frontend/hooks/useExerciseUpdates.ts:218-223 | eleven entries valued 0..10, each label reading back as its value; only the label of 0 starts with a zero |
| ExerciseUpdates.SaveAccepted | frontend/hooks/useExerciseUpdates.ts:20 | the guard on missing reps or sets: zero reps or sets refuse the save, and any pain level passes (its partner is UpdatesHook.HandleSave) |
| ExerciseUpdates.FlagOutcome | frontend/hooks/useExerciseUpdates.ts:42-132 | remove outranks decrease, which outranks increase. With no flag, pain of at most 3 gives the encouragement and higher pain the plain success |
| ExerciseUpdates.UpdatesHook.HandleSave | frontend/hooks/useExerciseUpdates.ts:18-141 | zero reps or sets stop before any request, and any pain level, 0 included, passes. Without a client nothing is sent. Otherwise exactly one save is sent. A failed save leaves the dialogs as they were; a successful one closes the form and opens the removal dialog exactly on the remove flag |
| ExerciseUpdates.UpdatesHook.HandleRemovalConfirmation | frontend/hooks/useExerciseUpdates.ts:143-180 | a null or zero id stops before any request. The answer is sent as "yes" or "no". The dialog closes only after the request succeeds, and the alert follows the answer |
| ExerciseUpdates.UpdatesHook.HandleRemoval | frontend/hooks/useExerciseUpdates.ts:182-207 | a null or zero id stops before any request; a successful removal closes the dialog, and a failed one leaves it open |
| ExerciseCompletion.CompletionAccepted | frontend/hooks/useExerciseCompletion.ts:19 | the guard on missing reps, sets or pain: zero reps, sets or pain refuse the save (its partner is CompletionHook.HandleSave) |
| ExerciseCompletion.PainOutcome | frontend/hooks/useExerciseCompletion.ts:42-137 | pain above 3 offers a decrease. Otherwise the eligibility answer decides between the increase prompt and the encouragement, and plain success follows when that check fails |
| ExerciseCompletion.CompletionHook.HandleSave | frontend/hooks/useExerciseCompletion.ts:17-146 | zero reps, sets or pain stop before any request. A successful save closes the form and is followed by an eligibility request exactly when pain is at most 3 |
| IsoDates.DatePart | frontend/app/signup.tsx:73 | the text before the first 'T': a prefix of the input with no 'T' in it, followed by 'T' or the end |
| IsoDates.DatePartOfTimestamp | frontend/hooks/useAnalyticsData.ts:6-8 | on a `toISOString` timestamp the date part is its first ten characters, shaped YYYY-MM-DD |
| Signup.Scan | frontend/app/signup.tsx:129-131 | the one-pass reading of the password pattern; what it reports is stated by ScanFinds |
| Signup.ScanFinds | frontend/app/signup.tsx:129-131 | the one-pass scan reports each character class present exactly when some character belongs to it |
| Signup.ValidatePassword | frontend/app/signup.tsx:128-132 | a password passes exactly when it has at least 8 characters, all from the allowed set, with a lowercase letter, an uppercase letter, a digit and one of `@$!%*?&` |
| Signup.ValidateEmail | frontend/app/signup.tsx:135-138 | the email pattern as a left-to-right automaton; what it accepts is stated by ValidateEmailIff |
| Signup.ValidateEmailIff | frontend/app/signup.tsx:135-138 | an address passes exactly when some '@' splits it into a non-empty local part and a domain. Neither part has white space or '@', and the domain has a '.' that is neither its first nor its last character |
| Signup.ValidEmailShape | frontend/app/signup.tsx:136 | an accepted address has no white space, exactly one '@', and at least five characters |
| Signup.Trim | frontend/app/signup.tsx:79-83 | `trim()` returns a slice of its input, cut only of white space at either end, with no white space left at its ends |
| Signup.TrimIdempotent | frontend/app/signup.tsx:79-83 | trimming a trimmed value changes nothing |
| Signup.Join | frontend/app/signup.tsx:113-117 | `join(" ")` of no messages is empty, of one is that message, and otherwise as long as the messages plus one separator between each pair |
| Signup.JoinMessages | frontend/app/signup.tsx:113-117 | in the joined text, message `k` sits at offset `JoinOffset(k)`: the lengths of the messages before it plus one separator each |
| Signup.JoinSeparators | frontend/app/signup.tsx:113-117 | between neighbouring messages of the joined text there is exactly the separator; with JoinMessages and the length, every character is fixed |
| Signup.ErrorMessage | frontend/app/signup.tsx:109-121 | with no response body, the default text. Otherwise the first present of username, email and non-field errors, each joined; else a non-empty detail; else the default |
| Signup.InjuryField | frontend/app/signup.tsx:85 | an unset or zero injury type is sent as null, any other as itself |
| Signup.SignupForm.OnChangeEmail | frontend/app/signup.tsx:222-231 | the inline error is empty exactly when the typed address passes validation |
| Signup.FirstFailure | frontend/app/signup.tsx:35-67 | the checks run in order: email pattern, password pattern, confirmation, then the required fields. Each outcome occurs exactly when its check is the first to fail. When all pass, the email is non-empty and the password has at least 8 characters, so the later emptiness tests on them are redundant |
| Signup.RequestBody | frontend/app/signup.tsx:78-86 | the request body: names, username and email trimmed, the password as typed, the date part of the birth date, and the injury field |
| Signup.SignupForm.HandleRegister | frontend/app/signup.tsx:33-125 | a failing check is the outcome and sends nothing; only the email and password failures set their inline errors. Otherwise exactly one request carries the body, and the reply decides between success and the chosen failure message |
| AnalyticsData.InitialChart | frontend/hooks/useAnalyticsData.ts:30-33 | before data arrives, the chart has the seven weekday labels and one all-zero series of the same length |
| AnalyticsData.WindowStart | frontend/hooks/useAnalyticsData.ts:70-71 | the titled week counts seven days including both ends |
| AnalyticsData.WeekTitleFor | frontend/hooks/useAnalyticsData.ts:69-97 | "Current Week" exactly when the end date is today's calendar date. Otherwise one month name when the week's first and last days share a month, and two when they do not |
| AnalyticsData.NextWeekEnd | frontend/hooks/useAnalyticsData.ts:53-61 | a week forward, capped at today; the cap applies exactly when a week forward passes today |
| AnalyticsData.PreviousThenNext | frontend/hooks/useAnalyticsData.ts:44-66 | from an end date not after today, a week back then a week forward returns to the same date |
| AnalyticsData.SelectAverage | frontend/hooks/useAnalyticsData.ts:114-118 | the adherence chart shows the adherence average, the pain chart the pain average |
| AnalyticsData.AnalyticsView.constructor | frontend/hooks/useAnalyticsData.ts:29-40 | the first render is loading, with the zero chart, no history, no error, ending today, and titled "Current Week" |
| AnalyticsData.AnalyticsView.FetchData | frontend/hooks/useAnalyticsData.ts:100-167 | a body replaces chart, average and history. A failed request sets the error text and keeps the data. An earlier error is never cleared, and loading ends false |
| AnalyticsData.AnalyticsView.UpdateWeekTitle | frontend/hooks/useAnalyticsData.ts:69-97 | the title becomes the week title of the given end date, and nothing else changes |
| AnalyticsData.AnalyticsView.GoToPreviousWeek | frontend/hooks/useAnalyticsData.ts:44-50 | the end date moves back exactly seven days, and that week is requested and titled. The fetch's effects are FetchData's: a body replaces chart, average and history, a failure sets the error, and loading ends false |
| AnalyticsData.AnalyticsView.GoToNextWeek | frontend/hooks/useAnalyticsData.ts:53-66 | the end date moves forward a week but never past today, and that week is requested and titled. The fetch's effects are FetchData's, as for GoToPreviousWeek |

## Left out

- `print` calls and console logging, and the alerts' exact wording beyond the outcome they signal, are not modelled.
- Navigation (`navigation.goBack`, `router.replace`) and token storage after sign-up are not modelled.
- The "Yes"/"No" callbacks of the increase and decrease prompts are not modelled. These are the `confirm_increase` and `confirm_decrease` posts (useExerciseUpdates.ts:54-118, useExerciseCompletion.ts:52-131). They run after the modelled handler has returned.
- The backend routes the hooks call (`confirm_removal`, `remove_exercise`, `can_increase`, `confirm_*`) are not part of this model. Their results are parameters of the hook methods.
- `auth_check` (views.py:29-38), which calls the reset, is not modelled; the reset itself is.
- The rest of `views.py` is not modelled: login, registration, `create`, `ReportViewSet`, statistics and chat.
- Views.Store.Update: of the serializer's validation, only an unknown exercise (400) and a second row for the same exercise (integrity error) are modelled. Type and range checks on the other fields are not.
- Views.Store.Update: HTTP responses are reduced to the result kind; the echoed serializer data is not modelled.
- Views.DecideDecrease, Views.DecideIncrease: a `difficulty_level` outside the three names is not modelled, because the level is an enumerated type.
- Views.Store.FindActiveNamed: the loops over `UserExercise.objects.filter(user=user, is_active=True)` (views.py:45-47, 140-142) have no `order_by`, so the database may return rows in any order. The model scans in ascending id. When two active rows of the user share an exercise name, which one moves depends on the database's order, and that choice is not modelled.
- AnalyticsData.AnalyticsView.GoToPreviousWeek, AnalyticsData.AnalyticsView.GoToNextWeek: each awaited fetch is modelled as finishing before the next action. With quick navigation, responses that arrive out of order and overwrite a newer week's data are not modelled.
- ResetExercises.Handle: every user's check reads the same clock value `now`. The command reads the clock once per user, microseconds apart.
- Time zones are not modelled. The analytics hook, the Django `today` and `toISOString` (which is UTC) all use plain day numbers or strings. The hook's comparisons ignore time of day.
- IsoDates.DatePartOfTimestamp: covers only four-digit years. `toISOString` writes years outside 0-9999 with a sign and six digits.
- AnalyticsData.AnalyticsView.FetchData: the 401 branch (lines 124-147) is not modelled. That branch refreshes the token, retries once and sets no error; the model treats every thrown request as a failure that sets the error.
- AnalyticsData.AnalyticsView.FetchData: the response body's field types are taken as given, and the history items are generic.
- AnalyticsData.WeekTitleFor: month names are month numbers; the locale's short month name is not modelled.
- The mount effect (useAnalyticsData.ts:169-173) is the constructor followed by `FetchData` and `UpdateWeekTitle` for today, whose title is "Current Week" by `WeekTitleFor`.
- ExerciseCompletion.CompletionHook.HandleSave: the final `else` (useExerciseCompletion.ts:133-137) cannot be reached for a number, and the model proves it dead.
- ExerciseUpdates.UpdatesHook.HandleSave: a response without a body, which would throw while reading the flags, is not modelled.
- Signup.ErrorMessage: the server's field errors are lists of strings. A non-array value, whose `join` would throw, is not modelled.
- Signup.SignupForm.HandleRegister: `dateOfBirth` is kept as its ISO string. The date picker and the injury-type list are not modelled.
- Several expectations in `api/tests.py` disagree with `views.py`. They are not modelled as behaviour:
  - the `should_*` response flags (tests.py:418-451, 489-491);
  - the `"consider_removal"` result (tests.py:997);
  - the increase returning the Advanced row (tests.py:1035-1039);
  - sets and reps being written to the row (tests.py:411-413).

## Findings

| source | as written | input that shows it | evidently intended | confidence | as-written member | corrected member |
|---|---|---|---|---|---|---|
| api/views.py:71-80 | on pain of at least 4 at Beginner, the helper returns `JsonResponse({'exercise': <Exercise instance>, ...})`; a model instance is not JSON serialisable, so TypeError escapes `update` | an active Beginner assignment completed with `pain_level` 4 | tell the patient they are at the lowest level and change no row | high; not executed | Views.FloorRaisesAsWritten | Views.FloorKeepsRows |
| api/views.py:149-190 | `increase_difficulty` binds `new_user_exercise` only when a target variant exists, but returns it unconditionally, so UnboundLocalError | an active Advanced assignment whose three newest entries all have pain below 4, completed again | no change: the Advanced source stays | high; not executed | Views.CeilingRaisesAsWritten | Views.CeilingKeepsSource |

In both rows, the corrected decision is what `Views.Store.UpdateExerciseLevelBasedOnPain`,
`Views.Store.IncreaseDifficulty` and `Views.Store.Update` use. Only an actual
move deactivates the submitted row. When the decrease moved and the increase
then keeps its source, the corrected `update` keeps the decrease's move as the
retarget (`Views.Progressed`), so the submitted row is deactivated and the user
is not left with two active rows in one category. As written, that path raises
at the increase (second row); the tests expect the increase to return its source
row (tests.py:1035-1039), which line 395 would then treat as a retarget.
