/** The request-validation middleware of helpers/validation.js: the
    password-reset gate and the mobile-number check. Each middleware either
    passes the request on (`next()`) or renders a view with messages. */
module Validation {
  import opened Wrappers
  import opened Strings

  datatype Outcome = Next | Render(view: string, messages: seq<string>)

  // =====================================================================
  // validateNumber: a regular expression with three anchored alternatives
  // =====================================================================

  const InvalidNumber := "Invalid Number"

  // ---- The language of the pattern, alternative by alternative ----------

  ghost predicate DigitRun(d: string, n: nat) { |d| == n && AllDigits(d) }

  /** The strings `(\+92|0092)`, `-{0,1}` can match. */
  ghost predicate IsCountryPrefix(p: string) { p == "+92" || p == "0092" }
  ghost predicate IsOptionalDash(d: string) { d == "" || d == "-" }

  ghost function International(prefix: string, dash1: string, area: string, dash2: string, subscriber: string): string
  {
    prefix + dash1 + area + dash2 + subscriber
  }

  ghost function Dashed(area: string, subscriber: string): string
  {
    area + "-" + subscriber
  }

  /** First alternative: country prefix, optional dash, 3 digits, optional dash, 7 digits. */
  ghost predicate InternationalForm(s: string)
  {
    exists prefix, dash1, area, dash2, subscriber ::
      IsCountryPrefix(prefix) && IsOptionalDash(dash1) && DigitRun(area, 3) &&
      IsOptionalDash(dash2) && DigitRun(subscriber, 7) &&
      s == International(prefix, dash1, area, dash2, subscriber)
  }

  /** Second alternative: eleven digits. */
  ghost predicate NationalForm(s: string) { DigitRun(s, 11) }

  /** Third alternative: four digits, a dash, seven digits. */
  ghost predicate DashedForm(s: string)
  {
    exists area, subscriber :: DigitRun(area, 4) && DigitRun(subscriber, 7) && s == Dashed(area, subscriber)
  }

  ghost predicate PatternMatches(s: string)
  {
    InternationalForm(s) || NationalForm(s) || DashedForm(s)
  }

  // ---- The recogniser ----------------------------------------------------

  /** What follows a `+92` or `0092` prefix. The two prefixes start with
      different characters, so at most one applies. */
  function AfterCountryPrefix(s: string): Option<string>
  {
    if |s| >= 3 && s[..3] == "+92" then Some(s[3..])
    else if |s| >= 4 && s[..4] == "0092" then Some(s[4..])
    else None
  }

  /** `-{0,1}` followed by a digit: a leading dash must be consumed. */
  function SkipDash(s: string): string
  {
    if |s| > 0 && s[0] == '-' then s[1..] else s
  }

  predicate MatchesInternational(s: string)
  {
    match AfterCountryPrefix(s)
    case None => false
    case Some(t) =>
      var u := SkipDash(t);
      |u| >= 3 && AllDigits(u[..3]) &&
      var v := SkipDash(u[3..]);
      |v| == 7 && AllDigits(v)
  }

  predicate MatchesNational(s: string)
  {
    |s| == 11 && AllDigits(s)
  }

  predicate MatchesDashed(s: string)
  {
    |s| == 12 && AllDigits(s[..4]) && s[4] == '-' && AllDigits(s[5..])
  }

  /** Whether the whole string matches one of the three alternatives. */
  predicate ValidateNumber(s: string)
  {
    MatchesInternational(s) || MatchesNational(s) || MatchesDashed(s)
  }

  /** The `-{0,1}` a string starts with. */
  function LeadingDash(t: string): (d: string)
    ensures IsOptionalDash(d) && t == d + SkipDash(t)
  {
    if |t| > 0 && t[0] == '-' then "-" else ""
  }

  lemma AfterCountryPrefixSplits(s: string)
    requires AfterCountryPrefix(s).Some?
    ensures var t := AfterCountryPrefix(s).value;
      |t| < |s| && IsCountryPrefix(s[..|s| - |t|]) && s == s[..|s| - |t|] + t
  {
    if |s| >= 3 && s[..3] == "+92" {
      assert s == s[..3] + s[3..];
    } else {
      assert s == s[..4] + s[4..];
    }
  }

  lemma AfterCountryPrefixOf(prefix: string, t: string)
    requires IsCountryPrefix(prefix)
    ensures AfterCountryPrefix(prefix + t) == Some(t)
  {
    var s := prefix + t;
    if prefix == "+92" {
      assert s[..3] == prefix;
      assert s[3..] == t;
    } else {
      assert s[0] == '0';
      assert s[..4] == prefix;
      assert s[4..] == t;
    }
  }

  lemma InternationalAssociates(prefix: string, t: string, dash1: string, u: string, area: string,
                                w: string, dash2: string, subscriber: string)
    requires t == dash1 + u && u == area + w && w == dash2 + subscriber
    ensures prefix + t == International(prefix, dash1, area, dash2, subscriber)
  {
  }

  lemma InternationalSound(s: string)
    requires MatchesInternational(s)
    ensures InternationalForm(s)
  {
    AfterCountryPrefixSplits(s);
    var t := AfterCountryPrefix(s).value;
    var prefix := s[..|s| - |t|];
    var dash1, u := LeadingDash(t), SkipDash(t);
    var area, w := u[..3], u[3..];
    assert u == area + w;
    var dash2, subscriber := LeadingDash(w), SkipDash(w);
    assert DigitRun(area, 3) && DigitRun(subscriber, 7);
    InternationalAssociates(prefix, t, dash1, u, area, w, dash2, subscriber);
  }

  lemma SkipOptionalDash(dash: string, x: string)
    requires IsOptionalDash(dash) && |x| > 0 && IsDigit(x[0])
    ensures SkipDash(dash + x) == x
  {
    if dash == "-" {
      assert (dash + x)[1..] == x;
    } else {
      assert dash + x == x;
    }
  }

  lemma InternationalComplete(prefix: string, dash1: string, area: string, dash2: string, subscriber: string)
    requires IsCountryPrefix(prefix) && IsOptionalDash(dash1) && DigitRun(area, 3)
    requires IsOptionalDash(dash2) && DigitRun(subscriber, 7)
    ensures MatchesInternational(International(prefix, dash1, area, dash2, subscriber))
  {
    var w := dash2 + subscriber;
    var u := area + w;
    var t := dash1 + u;
    InternationalAssociates(prefix, t, dash1, u, area, w, dash2, subscriber);
    AfterCountryPrefixOf(prefix, t);
    assert u[0] == area[0];
    SkipOptionalDash(dash1, u);
    assert u[..3] == area && u[3..] == w;
    SkipOptionalDash(dash2, subscriber);
  }

  lemma DashedSound(s: string)
    requires MatchesDashed(s)
    ensures DashedForm(s)
  {
    assert s == Dashed(s[..4], s[5..]);
  }

  lemma DashedComplete(area: string, subscriber: string)
    requires DigitRun(area, 4) && DigitRun(subscriber, 7)
    ensures MatchesDashed(Dashed(area, subscriber))
  {
    var s := Dashed(area, subscriber);
    assert s[..4] == area;
    assert s[5..] == subscriber;
  }

  /** The recogniser accepts exactly the strings in the pattern's language. */
  lemma ValidateNumberMatchesPattern(s: string)
    ensures ValidateNumber(s) <==> PatternMatches(s)
  {
    if MatchesInternational(s) { InternationalSound(s); }
    if MatchesDashed(s) { DashedSound(s); }
    if InternationalForm(s) {
      var prefix, dash1, area, dash2, subscriber :|
        IsCountryPrefix(prefix) && IsOptionalDash(dash1) && DigitRun(area, 3) &&
        IsOptionalDash(dash2) && DigitRun(subscriber, 7) &&
        s == International(prefix, dash1, area, dash2, subscriber);
      InternationalComplete(prefix, dash1, area, dash2, subscriber);
    }
    if DashedForm(s) {
      var area, subscriber :| DigitRun(area, 4) && DigitRun(subscriber, 7) && s == Dashed(area, subscriber);
      DashedComplete(area, subscriber);
    }
  }

  ghost predicate DigitsAndDashes(s: string)
  {
    forall i :: 0 <= i < |s| ==> IsDigit(s[i]) || s[i] == '-'
  }

  /** Character classes of an accepted number: digits and dashes, plus a
      '+' that can only be the first character. */
  ghost predicate NumberAlphabet(s: string)
  {
    forall i :: 0 <= i < |s| ==> IsDigit(s[i]) || s[i] == '-' || (i == 0 && s[i] == '+')
  }

  lemma ConcatDigitsAndDashes(a: string, b: string)
    requires DigitsAndDashes(a) && DigitsAndDashes(b)
    ensures DigitsAndDashes(a + b)
  {
    forall i | 0 <= i < |a + b| ensures IsDigit((a + b)[i]) || (a + b)[i] == '-' {
      if i >= |a| { assert (a + b)[i] == b[i - |a|]; }
    }
  }

  lemma PrefixedAlphabet(prefix: string, rest: string)
    requires IsCountryPrefix(prefix) && DigitsAndDashes(rest)
    ensures NumberAlphabet(prefix + rest)
  {
    var s := prefix + rest;
    forall i | 0 <= i < |s| ensures IsDigit(s[i]) || s[i] == '-' || (i == 0 && s[i] == '+') {
      if i >= |prefix| { assert s[i] == rest[i - |prefix|]; }
    }
  }

  lemma InternationalShape(prefix: string, dash1: string, area: string, dash2: string, subscriber: string)
    requires IsCountryPrefix(prefix) && IsOptionalDash(dash1) && DigitRun(area, 3)
    requires IsOptionalDash(dash2) && DigitRun(subscriber, 7)
    ensures var s := International(prefix, dash1, area, dash2, subscriber);
      13 <= |s| <= 16 && NumberAlphabet(s)
  {
    assert DigitsAndDashes(dash1) && DigitsAndDashes(area);
    assert DigitsAndDashes(dash2) && DigitsAndDashes(subscriber);
    ConcatDigitsAndDashes(dash1, area);
    ConcatDigitsAndDashes(dash1 + area, dash2);
    ConcatDigitsAndDashes(dash1 + area + dash2, subscriber);
    var w := dash2 + subscriber;
    var u := area + w;
    var t := dash1 + u;
    assert t == dash1 + area + dash2 + subscriber;
    InternationalAssociates(prefix, t, dash1, u, area, w, dash2, subscriber);
    PrefixedAlphabet(prefix, t);
  }

  /** Every accepted number has 11 to 16 characters drawn from the alphabet above. */
  lemma AcceptedNumberShape(s: string)
    requires ValidateNumber(s)
    ensures 11 <= |s| <= 16
    ensures NumberAlphabet(s)
  {
    ValidateNumberMatchesPattern(s);
    if InternationalForm(s) {
      var prefix, dash1, area, dash2, subscriber :|
        IsCountryPrefix(prefix) && IsOptionalDash(dash1) && DigitRun(area, 3) &&
        IsOptionalDash(dash2) && DigitRun(subscriber, 7) &&
        s == International(prefix, dash1, area, dash2, subscriber);
      InternationalShape(prefix, dash1, area, dash2, subscriber);
    } else if DashedForm(s) {
      var area, subscriber :| DigitRun(area, 4) && DigitRun(subscriber, 7) && s == Dashed(area, subscriber);
      ConcatDigitsAndDashes(area, "-");
      ConcatDigitsAndDashes(area + "-", subscriber);
    }
  }

  /** The numbers the application documents as valid, one per alternative. */
  lemma NationalExample()
    ensures ValidateNumber("03001234567")
  {
    assert MatchesNational("03001234567");
  }

  lemma InternationalExample()
    ensures ValidateNumber("+923001234567")
  {
    assert DigitRun("300", 3) && DigitRun("1234567", 7);
    InternationalComplete("+92", "", "300", "", "1234567");
    assert International("+92", "", "300", "", "1234567") == "+923001234567";
  }

  lemma InternationalDashedExample()
    ensures ValidateNumber("0092-300-1234567")
  {
    assert DigitRun("300", 3) && DigitRun("1234567", 7);
    InternationalComplete("0092", "-", "300", "-", "1234567");
    assert International("0092", "-", "300", "-", "1234567") == "0092-300-1234567";
  }

  lemma DashedExample()
    ensures ValidateNumber("0300-1234567")
  {
    assert DigitRun("0300", 4) && DigitRun("1234567", 7);
    DashedComplete("0300", "1234567");
    assert Dashed("0300", "1234567") == "0300-1234567";
  }

  /** Strings the application documents as invalid. */
  lemma RejectedNumberExamples()
    ensures !ValidateNumber("12345")
    ensures !ValidateNumber("abcxyz12345")
  {
    var s := "abcxyz12345";
    assert !IsDigit(s[0]);
    assert s[..3] != "+92" && s[..4] != "0092";
  }

  /** The middleware: `next()` for an accepted number, otherwise the testing
      view with "Invalid Number". */
  function ValidateNumberGate(mobile: string): (outcome: Outcome)
    ensures outcome.Next? <==> PatternMatches(mobile)
    ensures outcome.Render? ==> outcome == Render("testing", [InvalidNumber])
  {
    ValidateNumberMatchesPattern(mobile);
    if !ValidateNumber(mobile) then Render("testing", [InvalidNumber]) else Next
  }

  // =====================================================================
  // resetPassword: collect the validator's messages, then the mismatch
  // =====================================================================

  /** One entry of the express-validator result list. */
  datatype FieldError = FieldError(param: string, msg: string)

  const PasswordMismatch := "Password does not match"

  /** Each validator error's message in order, then the mismatch message when
      the two passwords differ. */
  method ResetPasswordMessages(errors: seq<FieldError>, password: string, confirmPassword: string)
    returns (messages: seq<string>)
    ensures |messages| == |errors| + (if password != confirmPassword then 1 else 0)
    ensures forall i :: 0 <= i < |errors| ==> messages[i] == errors[i].msg
    ensures password != confirmPassword ==> messages[|messages| - 1] == PasswordMismatch
  {
    messages := [];
    for i := 0 to |errors|
      invariant |messages| == i
      invariant forall k :: 0 <= k < i ==> messages[k] == errors[k].msg
    {
      messages := messages + [errors[i].msg];
    }
    if password != confirmPassword {
      messages := messages + [PasswordMismatch];
    }
  }

  /** The middleware: the request proceeds only when no message was collected. */
  method ResetPasswordGate(errors: seq<FieldError>, password: string, confirmPassword: string)
    returns (outcome: Outcome)
    ensures outcome.Next? <==> errors == [] && password == confirmPassword
    ensures outcome.Render? ==> outcome.view == "reset_password"
    ensures outcome.Render? ==>
      |outcome.messages| == |errors| + (if password != confirmPassword then 1 else 0)
    ensures outcome.Render? ==> forall i :: 0 <= i < |errors| ==> outcome.messages[i] == errors[i].msg
    ensures password != confirmPassword ==>
      outcome.Render? && outcome.messages[|outcome.messages| - 1] == PasswordMismatch
  {
    var messages := ResetPasswordMessages(errors, password, confirmPassword);
    if |messages| > 0 {
      outcome := Render("reset_password", messages);
    } else {
      outcome := Next;
    }
  }
}
