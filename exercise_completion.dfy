/** The `useExerciseCompletion` hook: the completion form of one assignment
    whose follow-up is chosen on the client from the submitted pain level. */
module ExerciseCompletion {
  import opened Wrappers
  import opened ExerciseForms

  /** The input guard of this hook's `handleSave`: reps, sets and the pain
      level must all be non-zero, so pain 0 is refused here. */
  predicate CompletionAccepted(reps: int, sets: int, pain: int)
  {
    reps != 0 && sets != 0 && pain != 0
  }

  /** The follow-up to a successful save. A low pain level asks the backend
      whether an increase is possible (`canIncrease`, None when that request
      throws); a high one offers a decrease. */
  function PainOutcome(pain: int, canIncrease: Option<bool>): (o: SaveOutcome)
    ensures o == DecreasePrompt <==> pain > 3
    ensures o == IncreasePrompt <==> pain <= 3 && canIncrease == Some(true)
    ensures o == KeepItUp <==> pain <= 3 && canIncrease == Some(false)
    ensures o == Completed <==> pain <= 3 && canIncrease.None?
  {
    if pain <= 3 then
      match canIncrease
      case Some(true) => IncreasePrompt
      case Some(false) => KeepItUp
      case None => Completed
    else DecreasePrompt
  }

  class CompletionHook {
    /** The `userExerciseId` argument of the hook. */
    const userExerciseId: Option<int>
    var showCompletionForm: bool
    var reps: int
    var sets: int
    var painLevel: int
    /** Every request sent so far, oldest first. */
    var requests: seq<Request>

    constructor (userExerciseId: Option<int>)
      ensures this.userExerciseId == userExerciseId && !showCompletionForm
      ensures reps == 0 && sets == 0 && painLevel == 0 && requests == []
    {
      this.userExerciseId := userExerciseId;
      showCompletionForm := false;
      reps, sets, painLevel := 0, 0, 0;
      requests := [];
    }

    /** `handleSave()`. `clientAvailable` is whether `createApiInstance()`
        yields a client, `saved` whether the PUT succeeds, and `canIncrease`
        the `can_increase` answer (None when that GET throws). */
    method HandleSave(clientAvailable: bool, saved: bool, canIncrease: Option<bool>) returns (o: SaveOutcome)
      modifies this
      ensures reps == old(reps) && sets == old(sets) && painLevel == old(painLevel)
      ensures !CompletionAccepted(reps, sets, painLevel) ==> o == FieldsMissing
      ensures CompletionAccepted(reps, sets, painLevel) && !clientAvailable ==> o == NoApi
      ensures o in {FieldsMissing, NoApi} ==>
        requests == old(requests) && showCompletionForm == old(showCompletionForm)
      ensures CompletionAccepted(reps, sets, painLevel) && clientAvailable && !saved ==>
        && o == SaveFailed
        && requests == old(requests) + [SaveCompletion(userExerciseId, reps, sets, painLevel)]
        && showCompletionForm == old(showCompletionForm)
      ensures CompletionAccepted(reps, sets, painLevel) && clientAvailable && saved ==>
        && o == PainOutcome(painLevel, canIncrease)
        && !showCompletionForm
        && requests == old(requests) + [SaveCompletion(userExerciseId, reps, sets, painLevel)] +
             (if painLevel <= 3 then [CanIncrease(userExerciseId)] else [])
    {
      if !CompletionAccepted(reps, sets, painLevel) {
        return FieldsMissing;
      }
      if !clientAvailable {
        return NoApi;
      }
      requests := requests + [SaveCompletion(userExerciseId, reps, sets, painLevel)];
      if !saved {
        return SaveFailed;
      }
      showCompletionForm := false;
      if painLevel <= 3 {
        requests := requests + [CanIncrease(userExerciseId)];
        match canIncrease
        case Some(true) => o := IncreasePrompt;
        case Some(false) => o := KeepItUp;
        case None => o := Completed;
      } else if painLevel > 3 {
        o := DecreasePrompt;
      } else {
        assert false;
      }
    }
  }
}
