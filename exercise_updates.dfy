/** The `useExerciseUpdates` hook: the completion form of one assignment,
    the flag-driven follow-up after a save, and the removal dialog. */
module ExerciseUpdates {
  import opened Wrappers
  import opened ExerciseForms

  /** The `should_*` flags read from the save response; an absent flag is
      falsy and reads as false. */
  datatype Flags = Flags(shouldRemove: bool, shouldDecrease: bool, shouldIncrease: bool)

  /** The alert the removal handlers end in. */
  datatype RemovalOutcome =
    | InvalidId       // "Invalid exercise ID", nothing sent
    | NoClient        // `createApiInstance()` gave no client, silent return
    | RequestFailed   // the request threw: "Failed to ..." alert, dialog left as it was
    | Removed         // "Exercise Removed"
    | Kept            // "Exercise Kept"

  /** The input guard of `handleSave`: reps and sets must be non-zero. The
      pain test `painLevel === undefined` never holds for a number, so any
      pain level, 0 included, passes. */
  predicate SaveAccepted(reps: int, sets: int)
  {
    reps != 0 && sets != 0
  }

  /** `!userExerciseId`: a null or zero id. */
  predicate IdMissing(id: Option<int>)
  {
    id.None? || id.value == 0
  }

  /** The follow-up to a successful save: the first raised flag in the
      order remove, decrease, increase decides; with none raised the pain
      level picks the encouragement or the plain success message. */
  function FlagOutcome(f: Flags, pain: int): (o: SaveOutcome)
    ensures o == RemovalPrompt <==> f.shouldRemove
    ensures o == DecreasePrompt <==> !f.shouldRemove && f.shouldDecrease
    ensures o == IncreasePrompt <==> !f.shouldRemove && !f.shouldDecrease && f.shouldIncrease
    ensures o == KeepItUp <==> !f.shouldRemove && !f.shouldDecrease && !f.shouldIncrease && pain <= 3
    ensures o == Completed <==> !f.shouldRemove && !f.shouldDecrease && !f.shouldIncrease && pain > 3
  {
    if f.shouldRemove then RemovalPrompt
    else if f.shouldDecrease then DecreasePrompt
    else if f.shouldIncrease then IncreasePrompt
    else if pain <= 3 then KeepItUp
    else Completed
  }

  class UpdatesHook {
    /** The `userExerciseId` argument of the hook. */
    const userExerciseId: Option<int>
    var showCompletionForm: bool
    var showRemovalConfirmation: bool
    var reps: int
    var sets: int
    var painLevel: int
    /** Every request sent so far, oldest first. */
    var requests: seq<Request>

    constructor (userExerciseId: Option<int>)
      ensures this.userExerciseId == userExerciseId
      ensures !showCompletionForm && !showRemovalConfirmation
      ensures reps == 0 && sets == 0 && painLevel == 0 && requests == []
    {
      this.userExerciseId := userExerciseId;
      showCompletionForm, showRemovalConfirmation := false, false;
      reps, sets, painLevel := 0, 0, 0;
      requests := [];
    }

    /** `handleSave()`. `clientAvailable` is whether `createApiInstance()`
        yields a client; `response` is the save response's flags, None when
        the PUT throws. */
    method HandleSave(clientAvailable: bool, response: Option<Flags>) returns (o: SaveOutcome)
      modifies this
      ensures reps == old(reps) && sets == old(sets) && painLevel == old(painLevel)
      ensures !SaveAccepted(reps, sets) ==> o == FieldsMissing
      ensures SaveAccepted(reps, sets) && !clientAvailable ==> o == NoApi
      ensures o in {FieldsMissing, NoApi} ==>
        && requests == old(requests)
        && showCompletionForm == old(showCompletionForm)
        && showRemovalConfirmation == old(showRemovalConfirmation)
      ensures SaveAccepted(reps, sets) && clientAvailable ==>
        requests == old(requests) + [SaveCompletion(userExerciseId, reps, sets, painLevel)]
      ensures SaveAccepted(reps, sets) && clientAvailable && response.None? ==>
        && o == SaveFailed
        && showCompletionForm == old(showCompletionForm)
        && showRemovalConfirmation == old(showRemovalConfirmation)
      ensures SaveAccepted(reps, sets) && clientAvailable && response.Some? ==>
        && o == FlagOutcome(response.value, painLevel)
        && !showCompletionForm
        && showRemovalConfirmation == (old(showRemovalConfirmation) || response.value.shouldRemove)
    {
      if !SaveAccepted(reps, sets) {
        return FieldsMissing;
      }
      if !clientAvailable {
        return NoApi;
      }
      requests := requests + [SaveCompletion(userExerciseId, reps, sets, painLevel)];
      if response.None? {
        return SaveFailed;
      }
      showCompletionForm := false;
      var flags := response.value;
      if flags.shouldRemove {
        showRemovalConfirmation := true;
        o := RemovalPrompt;
      } else if flags.shouldDecrease {
        o := DecreasePrompt;
      } else if flags.shouldIncrease {
        o := IncreasePrompt;
      } else if painLevel <= 3 {
        o := KeepItUp;
      } else {
        o := Completed;
      }
    }

    /** `handleRemovalConfirmation(confirm)`. `posted` is whether the POST
        to `confirm_removal` succeeds. The dialog closes only after it does. */
    method HandleRemovalConfirmation(confirm: bool, clientAvailable: bool, posted: bool) returns (o: RemovalOutcome)
      modifies this
      ensures showCompletionForm == old(showCompletionForm)
      ensures reps == old(reps) && sets == old(sets) && painLevel == old(painLevel)
      ensures IdMissing(userExerciseId) ==> o == InvalidId
      ensures !IdMissing(userExerciseId) && !clientAvailable ==> o == NoClient
      ensures o in {InvalidId, NoClient} ==>
        requests == old(requests) && showRemovalConfirmation == old(showRemovalConfirmation)
      ensures !IdMissing(userExerciseId) && clientAvailable ==>
        requests == old(requests) + [ConfirmRemoval(userExerciseId.value, if confirm then "yes" else "no")]
      ensures !IdMissing(userExerciseId) && clientAvailable && !posted ==>
        o == RequestFailed && showRemovalConfirmation == old(showRemovalConfirmation)
      ensures !IdMissing(userExerciseId) && clientAvailable && posted ==>
        o == (if confirm then Removed else Kept) && !showRemovalConfirmation
    {
      if IdMissing(userExerciseId) {
        return InvalidId;
      }
      if !clientAvailable {
        return NoClient;
      }
      requests := requests + [ConfirmRemoval(userExerciseId.value, if confirm then "yes" else "no")];
      if !posted {
        return RequestFailed;
      }
      showRemovalConfirmation := false;
      o := if confirm then Removed else Kept;
    }

    /** `handleRemoval()`. `removed` is whether the PUT to `remove_exercise`
        succeeds. */
    method HandleRemoval(clientAvailable: bool, removed: bool) returns (o: RemovalOutcome)
      modifies this
      ensures showCompletionForm == old(showCompletionForm)
      ensures reps == old(reps) && sets == old(sets) && painLevel == old(painLevel)
      ensures IdMissing(userExerciseId) ==> o == InvalidId
      ensures !IdMissing(userExerciseId) && !clientAvailable ==> o == NoClient
      ensures o in {InvalidId, NoClient} ==>
        requests == old(requests) && showRemovalConfirmation == old(showRemovalConfirmation)
      ensures !IdMissing(userExerciseId) && clientAvailable ==>
        requests == old(requests) + [RemoveExercise(userExerciseId.value)]
      ensures !IdMissing(userExerciseId) && clientAvailable && !removed ==>
        o == RequestFailed && showRemovalConfirmation == old(showRemovalConfirmation)
      ensures !IdMissing(userExerciseId) && clientAvailable && removed ==>
        o == Removed && !showRemovalConfirmation
    {
      if IdMissing(userExerciseId) {
        return InvalidId;
      }
      if !clientAvailable {
        return NoClient;
      }
      requests := requests + [RemoveExercise(userExerciseId.value)];
      if !removed {
        return RequestFailed;
      }
      showRemovalConfirmation := false;
      o := Removed;
    }
  }
}
