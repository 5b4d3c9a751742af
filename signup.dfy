/** The sign-up screen: its two regular-expression validators, the order of
    the checks before registering, the request body, and the choice of the
    message shown when the server refuses the registration. */
module Signup {
  import opened Wrappers
  import IsoDates


  // ---------------------------------------------------------------------
  // Character classes of JavaScript regular expressions
  // ---------------------------------------------------------------------

  /** `\s` (and what `String.prototype.trim` strips): the white-space and
      line-terminator code points of ECMAScript. */
  predicate IsJsSpace(c: char)
  {
    var n := c as int;
    || n == 0x09 || n == 0x0A || n == 0x0B || n == 0x0C || n == 0x0D || n == 0x20
    || n == 0xA0 || n == 0x1680 || (0x2000 <= n <= 0x200A) || n == 0x2028 || n == 0x2029
    || n == 0x202F || n == 0x205F || n == 0x3000 || n == 0xFEFF
  }

  predicate IsLower(c: char) { 'a' <= c <= 'z' }
  predicate IsUpper(c: char) { 'A' <= c <= 'Z' }
  predicate IsDigit(c: char) { '0' <= c <= '9' }
  /** `[@$!%*?&]`. */
  predicate IsSpecial(c: char) { c in "@$!%*?&" }
  /** `[A-Za-z\d@$!%*?&]`. */
  predicate PasswordChar(c: char) { IsLower(c) || IsUpper(c) || IsDigit(c) || IsSpecial(c) }

  // ---------------------------------------------------------------------
  // validatePassword
  // ---------------------------------------------------------------------

  /** The password rules read off the pattern: at least eight characters,
      all from the allowed class, and at least one lowercase letter, one
      uppercase letter, one digit and one special character. */
  ghost predicate PasswordRules(s: string)
  {
    && |s| >= 8
    && (forall k :: 0 <= k < |s| ==> PasswordChar(s[k]))
    && (exists k :: 0 <= k < |s| && IsLower(s[k]))
    && (exists k :: 0 <= k < |s| && IsUpper(s[k]))
    && (exists k :: 0 <= k < |s| && IsDigit(s[k]))
    && (exists k :: 0 <= k < |s| && IsSpecial(s[k]))
  }

  /** What one pass over the password finds. */
  datatype Classes = Classes(allAllowed: bool, lower: bool, upper: bool, digit: bool, special: bool)

  function Scan(s: string): Classes
    decreases |s|
  {
    if s == [] then Classes(true, false, false, false, false)
    else
      var c, rest := s[0], Scan(s[1..]);
      Classes(PasswordChar(c) && rest.allAllowed, IsLower(c) || rest.lower, IsUpper(c) || rest.upper,
              IsDigit(c) || rest.digit, IsSpecial(c) || rest.special)
  }

  /** Some character of a non-empty `s` is in class `p` exactly when the
      first one is or some character of the rest is. */
  lemma SomeInSplit(s: string, p: char -> bool)
    requires s != []
    ensures (exists k :: 0 <= k < |s| && p(s[k])) <==> p(s[0]) || exists k :: 0 <= k < |s[1..]| && p(s[1..][k])
  {
    if exists k :: 0 <= k < |s| && p(s[k]) {
      var k :| 0 <= k < |s| && p(s[k]);
      if k > 0 { assert p(s[1..][k - 1]); }
    }
    if exists k :: 0 <= k < |s[1..]| && p(s[1..][k]) {
      var k :| 0 <= k < |s[1..]| && p(s[1..][k]);
      assert p(s[k + 1]);
    }
  }

  /** Every character of a non-empty `s` is in class `p` exactly when the
      first one is and every character of the rest is. */
  lemma AllInSplit(s: string, p: char -> bool)
    requires s != []
    ensures (forall k :: 0 <= k < |s| ==> p(s[k])) <==> p(s[0]) && forall k :: 0 <= k < |s[1..]| ==> p(s[1..][k])
  {
    if p(s[0]) && forall k :: 0 <= k < |s[1..]| ==> p(s[1..][k]) {
      forall k | 1 <= k < |s|
        ensures p(s[k])
      {
        assert s[k] == s[1..][k - 1];
      }
    }
  }

  lemma {:induction false} ScanFinds(s: string)
    ensures Scan(s).allAllowed <==> forall k :: 0 <= k < |s| ==> PasswordChar(s[k])
    ensures Scan(s).lower <==> exists k :: 0 <= k < |s| && IsLower(s[k])
    ensures Scan(s).upper <==> exists k :: 0 <= k < |s| && IsUpper(s[k])
    ensures Scan(s).digit <==> exists k :: 0 <= k < |s| && IsDigit(s[k])
    ensures Scan(s).special <==> exists k :: 0 <= k < |s| && IsSpecial(s[k])
    decreases |s|
  {
    if s != [] {
      ScanFinds(s[1..]);
      AllInSplit(s, PasswordChar);
      SomeInSplit(s, IsLower);
      SomeInSplit(s, IsUpper);
      SomeInSplit(s, IsDigit);
      SomeInSplit(s, IsSpecial);
    }
  }

  /** `validatePassword(password)`. */
  function ValidatePassword(s: string): (ok: bool)
    ensures ok <==> PasswordRules(s)
  {
    ScanFinds(s);
    var c := Scan(s);
    |s| >= 8 && c.allAllowed && c.lower && c.upper && c.digit && c.special
  }

  // ---------------------------------------------------------------------
  // validateEmail
  // ---------------------------------------------------------------------

  /** `[^\s@]`. */
  predicate Plain(c: char) { !IsJsSpace(c) && c != '@' }

  predicate AllPlain(s: string)
  {
    forall k :: 0 <= k < |s| ==> Plain(s[k])
  }

  /** `[^\s@]+\.[^\s@]+`: plain characters with a '.' that is neither the
      first nor the last one. */
  ghost predicate DomainRules(d: string)
  {
    AllPlain(d) && exists k :: 0 < k < |d| - 1 && d[k] == '.'
  }

  /** `^[^\s@]+@[^\s@]+\.[^\s@]+$`: a non-empty plain local part, '@', and a
      domain as above. */
  ghost predicate EmailRules(s: string)
  {
    exists i :: 0 < i < |s| && s[i] == '@' && AllPlain(s[..i]) && DomainRules(s[i + 1..])
  }

  /** The automaton scanning an address left to right. */
  datatype EmailState =
    | Start    // nothing read
    | Local    // a non-empty local part
    | AtSign   // the '@' just read
    | Domain   // a non-empty domain without a usable '.'
    | Dot      // a '.' after a non-empty domain prefix just read
    | Tail     // such a '.' followed by at least one character
    | Reject

  function Step(st: EmailState, c: char): EmailState
  {
    if !Plain(c) && !(c == '@' && st == Local) then Reject
    else match st
      case Start => Local
      case Local => if c == '@' then AtSign else Local
      case AtSign => Domain
      case Domain => if c == '.' then Dot else Domain
      case Dot => Tail
      case Tail => Tail
      case Reject => Reject
  }

  function Run(st: EmailState, s: string): EmailState
    decreases |s|
  {
    if s == [] then st else Run(Step(st, s[0]), s[1..])
  }

  lemma RejectStays(s: string)
    ensures Run(Reject, s) == Reject
    decreases |s|
  {
    if s != [] { RejectStays(s[1..]); }
  }

  /** `d` is plain exactly when its first character and the rest are. */
  lemma PlainSplit(d: string)
    requires d != []
    ensures AllPlain(d) <==> Plain(d[0]) && AllPlain(d[1..])
  {
    assert forall k :: 1 <= k < |d| ==> d[k] == d[1..][k - 1];
  }

  lemma {:induction false} TailSound(d: string)
    requires Run(Tail, d) == Tail
    ensures AllPlain(d)
    decreases |d|
  {
    if d != [] {
      PlainSplit(d);
      if Plain(d[0]) { TailSound(d[1..]); } else { RejectStays(d[1..]); }
    }
  }

  lemma {:induction false} TailComplete(d: string)
    requires AllPlain(d)
    ensures Run(Tail, d) == Tail
    decreases |d|
  {
    if d != [] {
      PlainSplit(d);
      TailComplete(d[1..]);
    }
  }

  /** After a '.' that follows a non-empty domain prefix, the address is
      accepted iff something plain follows and nothing else does. */
  lemma DotRun(d: string)
    ensures Run(Dot, d) == Tail <==> |d| > 0 && AllPlain(d)
  {
    if d != [] {
      PlainSplit(d);
      if Plain(d[0]) {
        if AllPlain(d[1..]) { TailComplete(d[1..]); }
        if Run(Tail, d[1..]) == Tail { TailSound(d[1..]); }
      } else {
        RejectStays(d[1..]);
      }
    }
  }

  lemma {:induction false} DomainSound(d: string) returns (k: nat)
    requires Run(Domain, d) == Tail
    ensures AllPlain(d) && k < |d| - 1 && d[k] == '.'
    decreases |d|
  {
    if d != [] {
      var t := d[1..];
      PlainSplit(d);
      if !Plain(d[0]) {
        RejectStays(t);
      } else if d[0] == '.' {
        DotRun(t);
        k := 0;
      } else {
        var j := DomainSound(t);
        assert d[j + 1] == t[j];
        k := j + 1;
      }
    }
  }

  lemma {:induction false} DomainComplete(d: string, k: nat)
    requires AllPlain(d) && k < |d| - 1 && d[k] == '.'
    ensures Run(Domain, d) == Tail
    decreases |d|
  {
    var t := d[1..];
    PlainSplit(d);
    if d[0] == '.' {
      DotRun(t);
    } else {
      assert t[k - 1] == '.';
      DomainComplete(t, k - 1);
    }
  }

  lemma AtSignSound(d: string) returns (k: nat)
    requires Run(AtSign, d) == Tail
    ensures AllPlain(d) && 0 < k < |d| - 1 && d[k] == '.'
  {
    if d != [] {
      var t := d[1..];
      PlainSplit(d);
      if !Plain(d[0]) {
        RejectStays(t);
      } else {
        var j := DomainSound(t);
        assert d[j + 1] == t[j];
        k := j + 1;
      }
    }
  }

  lemma AtSignComplete(d: string, k: nat)
    requires AllPlain(d) && 0 < k < |d| - 1 && d[k] == '.'
    ensures Run(AtSign, d) == Tail
  {
    var t := d[1..];
    PlainSplit(d);
    assert t[k - 1] == '.';
    DomainComplete(t, k - 1);
  }

  /** A plain prefix extended by one plain character in front. */
  lemma PlainPrefix(s: string, i: nat)
    requires 0 < i <= |s|
    ensures AllPlain(s[..i]) <==> Plain(s[0]) && AllPlain(s[1..][..i - 1])
  {
    assert s[..i][1..] == s[1..][..i - 1];
    PlainSplit(s[..i]);
  }

  lemma {:induction false} LocalSound(s: string) returns (i: nat)
    requires Run(Local, s) == Tail
    ensures i < |s| && s[i] == '@' && AllPlain(s[..i]) && DomainRules(s[i + 1..])
    decreases |s|
  {
    if s != [] {
      var t := s[1..];
      if s[0] == '@' {
        var k := AtSignSound(t);
        assert s[..0] == [];
        i := 0;
      } else if !Plain(s[0]) {
        RejectStays(t);
      } else {
        var j := LocalSound(t);
        i := j + 1;
        PlainPrefix(s, i);
        assert s[i + 1..] == t[j + 1..];
      }
    }
  }

  lemma {:induction false} LocalComplete(s: string, i: nat)
    requires i < |s| && s[i] == '@' && AllPlain(s[..i]) && DomainRules(s[i + 1..])
    ensures Run(Local, s) == Tail
    decreases i
  {
    var t := s[1..];
    if i == 0 {
      var k :| 0 < k < |t| - 1 && t[k] == '.';
      AtSignComplete(t, k);
    } else {
      PlainPrefix(s, i);
      assert t[i - 1 + 1..] == s[i + 1..];
      LocalComplete(t, i - 1);
    }
  }

  /** `validateEmail(email)`. */
  function ValidateEmail(s: string): bool
  {
    Run(Start, s) == Tail
  }

  /** The automaton accepts exactly the addresses the pattern matches. */
  lemma ValidateEmailIff(s: string)
    ensures ValidateEmail(s) <==> EmailRules(s)
  {
    if s != [] {
      var t := s[1..];
      if !Plain(s[0]) {
        RejectStays(t);
        if EmailRules(s) {
          var i :| 0 < i < |s| && s[i] == '@' && AllPlain(s[..i]) && DomainRules(s[i + 1..]);
          PlainPrefix(s, i);
        }
      } else {
        if ValidateEmail(s) {
          var j := LocalSound(t);
          PlainPrefix(s, j + 1);
          assert s[j + 1 + 1..] == t[j + 1..];
        }
        if EmailRules(s) {
          var i :| 0 < i < |s| && s[i] == '@' && AllPlain(s[..i]) && DomainRules(s[i + 1..]);
          PlainPrefix(s, i);
          assert t[i - 1 + 1..] == s[i + 1..];
          LocalComplete(t, i - 1);
        }
      }
    }
  }

  /** An accepted address has exactly one '@', no white space, and at least
      five characters (local part, '@', domain of three). */
  lemma ValidEmailShape(s: string)
    requires ValidateEmail(s)
    ensures forall k :: 0 <= k < |s| ==> !IsJsSpace(s[k])
    ensures exists i :: 0 < i < |s| && s[i] == '@' && forall j :: 0 <= j < |s| && s[j] == '@' ==> j == i
    ensures |s| >= 5
  {
    ValidateEmailIff(s);
    var i :| 0 < i < |s| && s[i] == '@' && AllPlain(s[..i]) && DomainRules(s[i + 1..]);
    var d := s[i + 1..];
    forall k | 0 <= k < |s|
      ensures !IsJsSpace(s[k]) && (s[k] == '@' ==> k == i)
    {
      if k < i { assert s[k] == s[..i][k]; }
      else if k > i { assert s[k] == d[k - i - 1]; }
    }
  }

  // ---------------------------------------------------------------------
  // String helpers
  // ---------------------------------------------------------------------

  predicate AllSpace(s: string)
  {
    forall k :: 0 <= k < |s| ==> IsJsSpace(s[k])
  }

  /** `r` is a slice of `s` with only white space cut from either end, and
      no white space left at its ends. */
  ghost predicate TrimmedFrom(s: string, r: string)
  {
    && (exists i :: 0 <= i <= |s| - |r| && r == s[i..i + |r|] && AllSpace(s[..i]) && AllSpace(s[i + |r|..]))
    && (|r| > 0 ==> !IsJsSpace(r[0]) && !IsJsSpace(r[|r| - 1]))
  }

  /** `s.trim()`. */
  function Trim(s: string): (r: string)
    ensures TrimmedFrom(s, r)
  {
    var i := SpaceRunStart(s);
    var j := SpaceRunEnd(s, i);
    var r := s[i..j];
    assert TrimmedFrom(s, r) by {
      assert i + |r| == j && r == s[i..i + |r|];
      assert AllSpace(s[..i]) && AllSpace(s[i + |r|..]);
    }
    r
  }

  /** The length of the leading white space. */
  function SpaceRunStart(s: string): (i: nat)
    ensures i <= |s| && AllSpace(s[..i])
    ensures i < |s| ==> !IsJsSpace(s[i])
    decreases |s|
  {
    if s == [] || !IsJsSpace(s[0]) then 0
    else
      var i := 1 + SpaceRunStart(s[1..]);
      assert forall k :: 1 <= k < i ==> s[..i][k] == s[1..][..i - 1][k - 1];
      i
  }

  /** The end of `s` without its trailing white space, not before `lo`. */
  function SpaceRunEnd(s: string, lo: nat): (j: nat)
    requires lo <= |s|
    requires lo < |s| ==> !IsJsSpace(s[lo])
    ensures lo <= j <= |s| && AllSpace(s[j..])
    ensures j > lo ==> !IsJsSpace(s[j - 1])
    decreases |s| - lo
  {
    if |s| == lo || !IsJsSpace(s[|s| - 1]) then |s|
    else
      var j := SpaceRunEnd(s[..|s| - 1], lo);
      assert forall k :: j <= k < |s| - 1 ==> s[k] == s[..|s| - 1][k];
      j
  }

  /** Trimming twice trims no more. */
  lemma TrimIdempotent(s: string)
    ensures Trim(Trim(s)) == Trim(s)
  {
    var r := Trim(s);
    if r != [] {
      assert SpaceRunStart(r) == 0;
      assert SpaceRunEnd(r, 0) == |r|;
      assert r[0..|r|] == r;
    }
  }

  /** `xs.join(sep)`. */
  function Join(xs: seq<string>, sep: string): (r: string)
    ensures xs == [] ==> r == ""
    ensures |xs| == 1 ==> r == xs[0]
    ensures |xs| > 0 ==> |r| == TotalLength(xs) + |sep| * (|xs| - 1)
    decreases |xs|
  {
    if xs == [] then ""
    else if |xs| == 1 then xs[0]
    else Join(xs[..|xs| - 1], sep) + sep + xs[|xs| - 1]
  }

  function TotalLength(xs: seq<string>): nat
    decreases |xs|
  {
    if xs == [] then 0 else TotalLength(xs[..|xs| - 1]) + |xs[|xs| - 1]|
  }

  /** Where message `k` starts in `Join(xs, sep)`: after each message
      before it and the separator that follows it. */
  function JoinOffset(xs: seq<string>, sep: string, k: nat): nat
    requires k <= |xs|
    decreases k
  {
    if k == 0 then 0 else JoinOffset(xs, sep, k - 1) + |xs[k - 1]| + |sep|
  }

  /** An offset depends only on the messages before it. */
  lemma JoinOffsetPrefix(xs: seq<string>, sep: string, m: nat, k: nat)
    requires k <= m <= |xs|
    ensures JoinOffset(xs[..m], sep, k) == JoinOffset(xs, sep, k)
    decreases k
  {
    if k > 0 {
      JoinOffsetPrefix(xs, sep, m, k - 1);
    }
  }

  /** One separator past the end of the joined text. */
  lemma JoinOffsetEnd(xs: seq<string>, sep: string)
    requires |xs| > 0
    ensures JoinOffset(xs, sep, |xs|) == |Join(xs, sep)| + |sep|
    decreases |xs|
  {
    var n := |xs|;
    if n > 1 {
      JoinOffsetEnd(xs[..n - 1], sep);
      JoinOffsetPrefix(xs, sep, n - 1, n - 1);
    }
  }

  /** Joining one more message appends the separator and the message. */
  lemma JoinLast(xs: seq<string>, sep: string)
    requires |xs| > 1
    ensures Join(xs, sep) == Join(xs[..|xs| - 1], sep) + (sep + xs[|xs| - 1])
    ensures JoinOffset(xs, sep, |xs| - 1) == |Join(xs[..|xs| - 1], sep)| + |sep|
  {
    JoinOffsetEnd(xs[..|xs| - 1], sep);
    JoinOffsetPrefix(xs, sep, |xs| - 1, |xs| - 1);
  }

  lemma SliceOfPrefix(a: string, b: string, lo: nat, hi: nat)
    requires lo <= hi <= |a|
    ensures (a + b)[lo..hi] == a[lo..hi]
  {
  }

  /** Message `k` sits at `JoinOffset(xs, sep, k)` in the joined text. */
  lemma {:induction false} JoinMessageAt(xs: seq<string>, sep: string, k: nat)
    requires k < |xs|
    ensures JoinOffset(xs, sep, k) + |xs[k]| <= |Join(xs, sep)|
    ensures Join(xs, sep)[JoinOffset(xs, sep, k)..JoinOffset(xs, sep, k) + |xs[k]|] == xs[k]
    decreases |xs|
  {
    var n := |xs|;
    if n > 1 {
      var init := xs[..n - 1];
      var joined := Join(init, sep);
      var r := Join(xs, sep);
      JoinLast(xs, sep);
      assert r == joined + (sep + xs[n - 1]);
      if k == n - 1 {
        assert r[|joined| + |sep|..] == xs[n - 1];
      } else {
        JoinMessageAt(init, sep, k);
        JoinOffsetPrefix(xs, sep, n - 1, k);
        assert init[k] == xs[k];
        var o := JoinOffset(xs, sep, k);
        SliceOfPrefix(joined, sep + xs[n - 1], o, o + |xs[k]|);
      }
    }
  }

  /** Message `k`, after the first, is preceded by `sep`, right after the
      message before it. */
  lemma {:induction false} JoinSeparatorAt(xs: seq<string>, sep: string, k: nat)
    requires 0 < k < |xs|
    ensures JoinOffset(xs, sep, k) - |sep| == JoinOffset(xs, sep, k - 1) + |xs[k - 1]|
    ensures JoinOffset(xs, sep, k) <= |Join(xs, sep)|
    ensures Join(xs, sep)[JoinOffset(xs, sep, k) - |sep|..JoinOffset(xs, sep, k)] == sep
    decreases |xs|
  {
    var n := |xs|;
    var init := xs[..n - 1];
    var joined := Join(init, sep);
    var r := Join(xs, sep);
    JoinLast(xs, sep);
    assert r == joined + (sep + xs[n - 1]);
    if k == n - 1 {
      assert r[|joined|..|joined| + |sep|] == sep;
    } else {
      JoinSeparatorAt(init, sep, k);
      JoinOffsetPrefix(xs, sep, n - 1, k);
      var o := JoinOffset(xs, sep, k);
      SliceOfPrefix(joined, sep + xs[n - 1], o - |sep|, o);
    }
  }

  /** `Join` lays the messages out in order: message `k` sits at
      `JoinOffset(xs, sep, k)`. */
  lemma JoinMessages(xs: seq<string>, sep: string)
    ensures forall k :: 0 <= k < |xs| ==>
      && JoinOffset(xs, sep, k) + |xs[k]| <= |Join(xs, sep)|
      && Join(xs, sep)[JoinOffset(xs, sep, k)..JoinOffset(xs, sep, k) + |xs[k]|] == xs[k]
  {
    forall k | 0 <= k < |xs| {
      JoinMessageAt(xs, sep, k);
    }
  }

  /** Between neighbouring messages `k - 1` and `k` of the joined text
      there is exactly `sep`. With `JoinMessages` and the length this fixes
      every character of the joined text. */
  lemma JoinSeparators(xs: seq<string>, sep: string)
    ensures forall k :: 0 < k < |xs| ==>
      && JoinOffset(xs, sep, k) <= |Join(xs, sep)|
      && Join(xs, sep)[JoinOffset(xs, sep, k - 1) + |xs[k - 1]|..JoinOffset(xs, sep, k)] == sep
  {
    forall k | 0 < k < |xs| {
      JoinSeparatorAt(xs, sep, k);
    }
  }

  // ---------------------------------------------------------------------
  // handleRegister
  // ---------------------------------------------------------------------

  /** The field errors of a refused registration, as the server sends them;
      an absent field is None. */
  datatype ErrorData = ErrorData(
    username: Option<seq<string>>,
    email: Option<seq<string>>,
    nonFieldErrors: Option<seq<string>>,
    detail: Option<string>)

  /** The registration POST's result: accepted, or thrown with or without
      a response body (`error.response?.data`). */
  datatype Reply = Accepted | Refused(data: Option<ErrorData>)

  /** The body of the registration POST. */
  datatype Payload = Payload(
    username: string,
    email: string,
    password: string,
    firstName: string,
    lastName: string,
    dateOfBirth: string,
    injuryType: Option<int>)

  datatype RegisterOutcome =
    | InvalidEmail
    | WeakPassword
    | PasswordMismatch
    | MissingFields
    | Registered
    | Failed(message: string)

  const DefaultError := "Please check your information and try again"

  /** The alert text of a refused registration. A field list is present
      (even empty, an array being truthy) or absent; `detail` counts only
      when it is a non-empty string. */
  function ErrorMessage(data: Option<ErrorData>): (m: string)
    ensures data.None? ==> m == DefaultError
    ensures data.Some? && data.value.username.Some? ==> m == "Username: " + Join(data.value.username.value, " ")
    ensures data.Some? && data.value.username.None? && data.value.email.Some? ==>
      m == "Email: " + Join(data.value.email.value, " ")
    ensures data.Some? && data.value.username.None? && data.value.email.None? && data.value.nonFieldErrors.Some? ==>
      m == Join(data.value.nonFieldErrors.value, " ")
    ensures data.Some? && data.value.username.None? && data.value.email.None? && data.value.nonFieldErrors.None? ==>
      m == if data.value.detail.Some? && data.value.detail.value != "" then data.value.detail.value else DefaultError
  {
    match data
    case None => DefaultError
    case Some(d) =>
      if d.username.Some? then "Username: " + Join(d.username.value, " ")
      else if d.email.Some? then "Email: " + Join(d.email.value, " ")
      else if d.nonFieldErrors.Some? then Join(d.nonFieldErrors.value, " ")
      else if d.detail.Some? && d.detail.value != "" then d.detail.value
      else DefaultError
  }

  /** `injuryType || null`: an unset (or zero) injury type is sent as null. */
  function InjuryField(t: Option<int>): (r: Option<int>)
    ensures r.None? <==> t.None? || t.value == 0
    ensures r.Some? ==> r == t
  {
    if t.None? || t.value == 0 then None else t
  }

  /** The body of the registration POST (lines 78-86): the text fields
      trimmed, the password as typed, the date part of the birth date, and
      the injury type or null. */
  function RequestBody(username: string, email: string, password: string, firstName: string, lastName: string,
                       dateOfBirth: string, injuryType: Option<int>): (p: Payload)
    ensures p.password == password && p.injuryType == InjuryField(injuryType)
    ensures p.username == Trim(username) && p.email == Trim(email)
    ensures p.firstName == Trim(firstName) && p.lastName == Trim(lastName)
    ensures p.dateOfBirth == IsoDates.DatePart(dateOfBirth)
  {
    Payload(Trim(username), Trim(email), password, Trim(firstName), Trim(lastName),
            IsoDates.DatePart(dateOfBirth), InjuryField(injuryType))
  }

  /** The checks of `handleRegister` (lines 35-67) in order: the email
      pattern, the password pattern, the confirmation, then the required
      fields (the email and password tests there can no longer fail). None
      when every check passes. */
  function FirstFailure(email: string, password: string, confirmPassword: string,
                        firstName: string, lastName: string, username: string): (f: Option<RegisterOutcome>)
    ensures f == Some(InvalidEmail) <==> !ValidateEmail(email)
    ensures f == Some(WeakPassword) <==> ValidateEmail(email) && !ValidatePassword(password)
    ensures f == Some(PasswordMismatch) <==>
      ValidateEmail(email) && ValidatePassword(password) && password != confirmPassword
    ensures f == Some(MissingFields) <==>
      ValidateEmail(email) && ValidatePassword(password) && password == confirmPassword &&
      (firstName == "" || lastName == "" || username == "")
    ensures f.None? ==> email != "" && |password| >= 8
  {
    if !ValidateEmail(email) then Some(InvalidEmail)
    else if !ValidatePassword(password) then Some(WeakPassword)
    else if password != confirmPassword then Some(PasswordMismatch)
    else if firstName == "" || lastName == "" || username == "" || email == "" || password == "" then Some(MissingFields)
    else None
  }

  class SignupForm {
    var firstName: string
    var lastName: string
    var username: string
    var email: string
    var emailError: string
    var password: string
    var passwordError: string
    var confirmPassword: string
    /** `dateOfBirth.toISOString()`; the `Date` object itself is always
        truthy, so it never fails the required-fields check. */
    var dateOfBirth: string
    var injuryType: Option<int>
    /** Every registration request sent so far. */
    var sent: seq<Payload>

    constructor (today: string)
      ensures firstName == "" && lastName == "" && username == "" && email == "" && emailError == ""
      ensures password == "" && passwordError == "" && confirmPassword == ""
      ensures dateOfBirth == today && injuryType.None? && sent == []
    {
      firstName, lastName, username, email, emailError := "", "", "", "", "";
      password, passwordError, confirmPassword := "", "", "";
      dateOfBirth, injuryType, sent := today, None, [];
    }

    /** The `onChangeText` handler of the email field. */
    method OnChangeEmail(text: string)
      modifies this
      ensures email == text
      ensures emailError == "" <==> ValidateEmail(text)
      ensures emailError != "" ==> emailError == "Please enter a valid email (e.g., user@example.com)."
      ensures firstName == old(firstName) && lastName == old(lastName) && username == old(username)
      ensures password == old(password) && confirmPassword == old(confirmPassword) && passwordError == old(passwordError)
      ensures dateOfBirth == old(dateOfBirth) && injuryType == old(injuryType) && sent == old(sent)
    {
      email := text;
      if !ValidateEmail(text) {
        emailError := "Please enter a valid email (e.g., user@example.com).";
      } else {
        emailError := "";
      }
    }

    /** `handleRegister()`: the first failing check stops before any
        request; otherwise the body is sent and the reply decides. */
    method HandleRegister(reply: Reply) returns (o: RegisterOutcome)
      modifies this
      ensures firstName == old(firstName) && lastName == old(lastName) && username == old(username)
      ensures email == old(email) && password == old(password) && confirmPassword == old(confirmPassword)
      ensures dateOfBirth == old(dateOfBirth) && injuryType == old(injuryType)
      ensures var failure := FirstFailure(email, password, confirmPassword, firstName, lastName, username);
        && (failure.Some? ==> o == failure.value && sent == old(sent))
        && (failure.None? ==>
              && sent == old(sent) + [RequestBody(username, email, password, firstName, lastName, dateOfBirth, injuryType)]
              && o == match reply
                   case Accepted => Registered
                   case Refused(data) => Failed(ErrorMessage(data)))
      ensures emailError == if o == InvalidEmail then "Invalid email format." else old(emailError)
      ensures passwordError == if o == WeakPassword then "Password does not meet requirements." else old(passwordError)
    {
      var failure := FirstFailure(email, password, confirmPassword, firstName, lastName, username);
      if failure.Some? {
        o := failure.value;
        if o == InvalidEmail {
          emailError := "Invalid email format.";
        } else if o == WeakPassword {
          passwordError := "Password does not meet requirements.";
        }
        return;
      }
      sent := sent + [RequestBody(username, email, password, firstName, lastName, dateOfBirth, injuryType)];
      match reply {
        case Accepted => o := Registered;
        case Refused(data) => o := Failed(ErrorMessage(data));
      }
    }
  }
}
