/** What the two exercise-completion hooks share: the dropdown generators,
    the decimal labels they print, the requests the hooks send and the
    alert or prompt a save ends in. */
module ExerciseForms {
  import opened Wrappers

  /** A dropdown entry `{ label, value }` (`label` is `caption` here). */
  datatype DropdownItem = DropdownItem(caption: string, value: int)

  /** The requests a hook sends to the backend. A null `userExerciseId` is
      interpolated into the URL as is, hence the Option in the saved id. */
  datatype Request =
    | SaveCompletion(id: Option<int>, reps: int, sets: int, pain: int)
    | CanIncrease(id: Option<int>)
    | ConfirmRemoval(exercise: int, confirm: string)
    | RemoveExercise(exercise: int)


  /** The alert or prompt `handleSave` ends in. */
  datatype SaveOutcome =
    | FieldsMissing     // "Please fill all required fields", nothing sent
    | NoApi             // `createApiInstance()` gave no client, silent return
    | SaveFailed        // the PUT threw: "Failed to save exercise completion"
    | RemovalPrompt     // the removal confirmation dialog is opened
    | DecreasePrompt    // "Would you like to decrease the difficulty ...?"
    | IncreasePrompt    // "Would you like to increase the difficulty ...?"
    | KeepItUp          // "Keep it up for 3 days to unlock higher difficulty!"
    | Completed         // "Exercise completed successfully"

  predicate IsDigit(c: char)
  {
    '0' <= c <= '9'
  }

  predicate IsDigits(s: string)
  {
    forall k :: 0 <= k < |s| ==> IsDigit(s[k])
  }

  function DigitChar(d: nat): (c: char)
    requires d < 10
    ensures IsDigit(c)
  {
    (48 + d) as char
  }

  function DigitValue(c: char): (d: nat)
    requires IsDigit(c)
    ensures d < 10 && DigitChar(d) == c
  {
    (c as int - 48) as nat
  }

  /** The template literal `${n}` of a non-negative integer. */
  function Decimal(n: nat): (s: string)
    ensures |s| >= 1 && IsDigits(s)
    ensures s[0] == '0' ==> n == 0
    decreases n
  {
    if n < 10 then [DigitChar(n)] else Decimal(n / 10) + [DigitChar(n % 10)]
  }

  /** The value of a string of decimal digits. */
  function ParseDecimal(s: string): (n: nat)
    requires IsDigits(s)
    decreases |s|
  {
    if s == [] then 0 else ParseDecimal(s[..|s| - 1]) * 10 + DigitValue(s[|s| - 1])
  }

  /** A label reads back as the number it was printed from, so distinct
      values never share a label. */
  lemma {:induction false} ParseDecimalRoundTrip(n: nat)
    ensures ParseDecimal(Decimal(n)) == n
    decreases n
  {
    var s := Decimal(n);
    if n < 10 {
      assert s[..0] == [];
    } else {
      assert s[..|s| - 1] == Decimal(n / 10);
      ParseDecimalRoundTrip(n / 10);
    }
  }

  /** `getDropdownData(maxValue)`: `Array.from({ length: maxValue })` (a
      negative length is clamped to 0) of entries valued 1..maxValue, each
      labelled with its value in decimal. */
  function DropdownData(maxValue: int): (r: seq<DropdownItem>)
    ensures |r| == if maxValue < 0 then 0 else maxValue
    ensures forall i :: 0 <= i < |r| ==>
      r[i].value == i + 1 && IsDigits(r[i].caption) && ParseDecimal(r[i].caption) == r[i].value
    ensures forall i :: 0 <= i < |r| ==> |r[i].caption| >= 1 && r[i].caption[0] != '0'
  {
    var r := seq(if maxValue < 0 then 0 else maxValue, (i: int) requires 0 <= i => DropdownItem(Decimal(i + 1), i + 1));
    forall i | 0 <= i < |r|
      ensures ParseDecimal(r[i].caption) == r[i].value
    {
      ParseDecimalRoundTrip(i + 1);
    }
    r
  }

  /** `getPainLevelData()`: eleven entries valued 0..10, labelled in decimal. */
  function PainLevelData(): (r: seq<DropdownItem>)
    ensures |r| == 11
    ensures forall i :: 0 <= i < |r| ==>
      r[i].value == i && IsDigits(r[i].caption) && ParseDecimal(r[i].caption) == r[i].value
    ensures forall i :: 0 <= i < |r| ==> |r[i].caption| >= 1 && (r[i].caption[0] == '0' ==> r[i].value == 0)
  {
    var r := seq(11, (i: int) requires 0 <= i => DropdownItem(Decimal(i), i));
    forall i | 0 <= i < |r|
      ensures ParseDecimal(r[i].caption) == r[i].value
    {
      ParseDecimalRoundTrip(i);
    }
    r
  }
}
