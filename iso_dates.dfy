/** `date.toISOString().split("T")[0]`, shared by the sign-up form (date of
    birth) and the analytics hook (`formatDate`). */
module IsoDates {

  predicate IsDigit(c: char)
  {
    '0' <= c <= '9'
  }

  /** `split("T")[0]`: the longest prefix without a 'T'. */
  function DatePart(iso: string): (r: string)
    ensures |r| <= |iso| && r == iso[..|r|]
    ensures forall k :: 0 <= k < |r| ==> r[k] != 'T'
    ensures |r| < |iso| ==> iso[|r|] == 'T'
    decreases |iso|
  {
    if iso == [] || iso[0] == 'T' then [] else [iso[0]] + DatePart(iso[1..])
  }

  /** The shape `YYYY-MM-DDTHH:mm:ss.sssZ` that `toISOString` produces for
      years 0 to 9999. */
  predicate IsoTimestamp(s: string)
  {
    && |s| == 24
    && (forall k :: k in {0, 1, 2, 3, 5, 6, 8, 9, 11, 12, 14, 15, 17, 18, 20, 21, 22} ==> IsDigit(s[k]))
    && s[4] == '-' && s[7] == '-' && s[10] == 'T' && s[13] == ':' && s[16] == ':' && s[19] == '.' && s[23] == 'Z'
  }

  /** `YYYY-MM-DD`. */
  predicate CalendarDateString(d: string)
  {
    && |d| == 10
    && (forall k :: k in {0, 1, 2, 3, 5, 6, 8, 9} ==> IsDigit(d[k]))
    && d[4] == '-' && d[7] == '-'
  }

  /** On a timestamp `toISOString` produces, the date part is its first ten
      characters, in `YYYY-MM-DD` form. */
  lemma DatePartOfTimestamp(s: string)
    requires IsoTimestamp(s)
    ensures DatePart(s) == s[..10]
    ensures CalendarDateString(DatePart(s))
  {
    var r := DatePart(s);
    forall k | 0 <= k < 10
      ensures s[k] != 'T'
    {
      if k != 4 && k != 7 {
        assert k in {0, 1, 2, 3, 5, 6, 8, 9, 11, 12, 14, 15, 17, 18, 20, 21, 22};
      }
    }
    assert |r| == 10;
  }
}
