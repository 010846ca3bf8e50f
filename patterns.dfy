/** The five compiled patterns of the detector, each as the predicate
    "`re.match` succeeds", i.e. the pattern matches a prefix of the string
    (anchored at position 0 only; trailing text is allowed). Where the regex
    engine may backtrack, an existential over the split points states that
    some way of matching succeeds. `\w`, `\s`, `\d` and `\b` are ASCII. */
module Patterns {
  import opened Text

  /** The character classes that occur in the patterns. */
  datatype CharClass =
    | Digit        // \d
    | WordOrDot    // [\w.]
    | Letter       // [a-zA-Z]
    | EmailLocal   // [A-Za-z0-9._%+-]
    | EmailDomain  // [A-Za-z0-9.-]
    | EmailTld     // [A-Z|a-z]  (the '|' is a literal member of the class)

  predicate InClass(c: char, cls: CharClass) {
    match cls
    case Digit => IsDigit(c)
    case WordOrDot => IsWordChar(c) || c == '.'
    case Letter => IsLetter(c)
    case EmailLocal => IsLetter(c) || IsDigit(c) || c in "._%+-"
    case EmailDomain => IsLetter(c) || IsDigit(c) || c in ".-"
    case EmailTld => IsLetter(c) || c == '|'
  }

  /** Every character of `s[i..j]` is in `cls`. */
  predicate AllIn(s: string, i: int, j: int, cls: CharClass) {
    0 <= i <= j <= |s| && forall k :: i <= k < j ==> InClass(s[k], cls)
  }

  predicate WordAt(s: string, i: int) {
    0 <= i < |s| && IsWordChar(s[i])
  }

  /** `\b` at position `i`: exactly one of its two neighbours is a word char. */
  predicate Boundary(s: string, i: int) {
    WordAt(s, i - 1) != WordAt(s, i)
  }

  /** `\b\d{10}\b` (phone_pattern) */
  predicate PhoneMatch(s: string) {
    Boundary(s, 0) && AllIn(s, 0, 10, Digit) && Boundary(s, 10)
  }

  /** `[\s-]` at position `i` */
  predicate SepAt(s: string, i: int) {
    0 <= i < |s| && (IsSpace(s[i]) || s[i] == '-')
  }

  /** The rest of `\d{4}[\s-]?\d{4}[\s-]?\d{4}\b` once a group of four
      digits ends at `i`, with `groups` groups still to come; the optional
      separator may be taken or skipped. */
  predicate AadharGroupsFrom(s: string, i: int, groups: nat)
    decreases groups
  {
    if groups == 0 then Boundary(s, i)
    else
      (SepAt(s, i) && AllIn(s, i + 1, i + 5, Digit) && AadharGroupsFrom(s, i + 5, groups - 1))
      || (AllIn(s, i, i + 4, Digit) && AadharGroupsFrom(s, i + 4, groups - 1))
  }

  /** `\b\d{4}[\s-]?\d{4}[\s-]?\d{4}\b`, the first alternative of aadhar_pattern */
  predicate AadharGrouped(s: string) {
    Boundary(s, 0) && AllIn(s, 0, 4, Digit) && AadharGroupsFrom(s, 4, 2)
  }

  /** `\b\d{12}\b`, the second alternative of aadhar_pattern */
  predicate AadharPlain(s: string) {
    Boundary(s, 0) && AllIn(s, 0, 12, Digit) && Boundary(s, 12)
  }

  /** aadhar_pattern */
  predicate AadharMatch(s: string) {
    AadharGrouped(s) || AadharPlain(s)
  }

  /** `\b[A-Z]\d{7}\b` (passport_pattern) */
  predicate PassportMatch(s: string) {
    Boundary(s, 0) && |s| >= 8 && IsUpper(s[0]) && AllIn(s, 1, 8, Digit) && Boundary(s, 8)
  }

  /** `[\w.]+@[\w.]+\b` matches `s[..m]` with the '@' at `j`. */
  predicate UpiSplitAt(s: string, j: int, m: int) {
    && 0 < j < |s| && j + 1 < m <= |s| && s[j] == '@'
    && AllIn(s, 0, j, WordOrDot) && AllIn(s, j + 1, m, WordOrDot) && Boundary(s, m)
  }

  /** `\b[\w.]+@[\w.]+\b`, the first alternative of upi_pattern: some choice of
      where the second run ends lets `\b` succeed. */
  predicate UpiGeneral(s: string) {
    Boundary(s, 0) && exists j, m | 0 < j < |s| && j + 1 < m <= |s| :: UpiSplitAt(s, j, m)
  }

  /** `\d{10}@[a-zA-Z]+\b` matches `s[..m]`. */
  predicate UpiNumericEndsAt(s: string, m: int) {
    11 < m <= |s| && AllIn(s, 0, 10, Digit) && s[10] == '@' && AllIn(s, 11, m, Letter) && Boundary(s, m)
  }

  /** `\b\d{10}@[a-zA-Z]+\b`, the second alternative of upi_pattern */
  predicate UpiNumeric(s: string) {
    Boundary(s, 0) && exists m | 11 < m <= |s| :: UpiNumericEndsAt(s, m)
  }

  /** upi_pattern */
  predicate UpiMatch(s: string) {
    UpiGeneral(s) || UpiNumeric(s)
  }

  /** `[A-Za-z0-9._%+-]+@[A-Za-z0-9.-]+\.[A-Z|a-z]{2,}\b` matches `s[..t]`
      with the '@' at `j` and the literal '.' at `d`. */
  predicate EmailSplitAt(s: string, j: int, d: int, t: int) {
    && 0 < j && j + 1 < d && d + 3 <= t <= |s|
    && AllIn(s, 0, j, EmailLocal) && s[j] == '@'
    && AllIn(s, j + 1, d, EmailDomain) && s[d] == '.'
    && AllIn(s, d + 1, t, EmailTld) && Boundary(s, t)
  }

  /** `\b[A-Za-z0-9._%+-]+@[A-Za-z0-9.-]+\.[A-Z|a-z]{2,}\b` (email_pattern) */
  predicate EmailMatch(s: string) {
    Boundary(s, 0) &&
    exists j, d, t | 0 < j < |s| && j + 1 < d < |s| && d + 3 <= t <= |s| :: EmailSplitAt(s, j, d, t)
  }

  /** A phone match is exactly ten digits followed by the end of the string
      or a character that is not a word character. */
  lemma PhoneMatchShape(s: string)
    ensures PhoneMatch(s) <==>
              |s| >= 10 && (forall k :: 0 <= k < 10 ==> IsDigit(s[k]))
              && (|s| == 10 || !IsWordChar(s[10]))
  {
    if |s| >= 10 && (forall k :: 0 <= k < 10 ==> IsDigit(s[k])) {
      assert WordAt(s, 0) && WordAt(s, 9);
    }
  }

  lemma {:induction false} AadharGroupsLength(s: string, i: int, groups: nat)
    requires AadharGroupsFrom(s, i, groups)
    ensures i + 4 * groups <= |s|
    decreases groups
  {
    if groups > 0 {
      if SepAt(s, i) && AllIn(s, i + 1, i + 5, Digit) && AadharGroupsFrom(s, i + 5, groups - 1) {
        AadharGroupsLength(s, i + 5, groups - 1);
      } else {
        AadharGroupsLength(s, i + 4, groups - 1);
      }
    }
  }

  /** The `\d{12}` alternative of aadhar_pattern adds nothing: every string
      it matches is matched by the grouped alternative without separators. */
  lemma AadharPlainIsGrouped(s: string)
    requires AadharPlain(s)
    ensures AadharGrouped(s)
  {
    assert AllIn(s, 4, 8, Digit) && AllIn(s, 8, 12, Digit);
    assert AadharGroupsFrom(s, 12, 0);
    assert AadharGroupsFrom(s, 8, 1);
  }

  /** Every aadhar match spans at least twelve characters. */
  lemma AadharMatchLength(s: string)
    requires AadharMatch(s)
    ensures |s| >= 12
  {
    if AadharGrouped(s) {
      AadharGroupsLength(s, 4, 2);
    }
  }

  /** The numeric UPI alternative adds nothing: each string it matches is
      matched by the general `[\w.]+@[\w.]+` alternative. */
  lemma UpiNumericIsGeneral(s: string)
    requires UpiNumeric(s)
    ensures UpiGeneral(s)
  {
    var m :| 11 < m <= |s| && UpiNumericEndsAt(s, m);
    assert AllIn(s, 0, 10, WordOrDot);
    assert AllIn(s, 11, m, WordOrDot);
    assert UpiSplitAt(s, 10, m);
  }

  /** The end of the run of word characters that starts at `i`. */
  function WordRunEnd(s: string, i: nat): (e: nat)
    requires i <= |s|
    ensures i <= e <= |s|
    ensures forall k :: i <= k < e ==> IsWordChar(s[k])
    ensures e == |s| || !IsWordChar(s[e])
    decreases |s| - i
  {
    if i < |s| && IsWordChar(s[i]) then WordRunEnd(s, i + 1) else i
  }

  /** An ordinary email-shaped value — a `[\w.]` local part that starts with
      a word character, an '@', then a word character — matches upi_pattern. */
  lemma EmailShapedIsUpi(s: string, j: nat)
    requires 0 < j && j + 1 < |s| && s[j] == '@'
    requires IsWordChar(s[0]) && AllIn(s, 0, j, WordOrDot) && IsWordChar(s[j + 1])
    ensures UpiMatch(s)
  {
    var m := WordRunEnd(s, j + 1);
    assert AllIn(s, j + 1, m, WordOrDot);
    assert Boundary(s, m) by { assert WordAt(s, m - 1); }
    assert Boundary(s, 0) by { assert WordAt(s, 0); }
    assert UpiSplitAt(s, j, m);
  }

  /** Every UPI match spans at least three characters. */
  lemma UpiMatchLength(s: string)
    requires UpiMatch(s)
    ensures |s| >= 3
  {
    if UpiNumeric(s) {
      UpiNumericIsGeneral(s);
    }
  }

  /** Without an '@' neither upi_pattern nor email_pattern can match. */
  lemma NoAtNoUpiOrEmail(s: string)
    requires '@' !in s
    ensures !UpiMatch(s) && !EmailMatch(s)
  {
  }

  /** `[\w.]` does not contain '@'. */
  lemma WordOrDotHasNoAt(s: string)
    requires AllIn(s, 0, |s|, WordOrDot)
    ensures '@' !in s
  {
  }

  /** Whatever upi_pattern matches has only `[\w.]` characters before its
      first '@'. */
  lemma UpiUserPart(s: string)
    requires UpiMatch(s)
    ensures '@' in s && AllIn(s, 0, IndexOf(s, '@'), WordOrDot)
  {
    if UpiNumeric(s) {
      UpiNumericIsGeneral(s);
    }
    var j, m :| 0 < j < |s| && j + 1 < m <= |s| && UpiSplitAt(s, j, m);
  }

  /** What email_pattern matches starts with a word character, holds an '@'
      and has at least six characters. */
  lemma EmailMatchShape(s: string)
    requires EmailMatch(s)
    ensures |s| >= 6 && IsWordChar(s[0]) && '@' in s
  {
    var j, d, t :| 0 < j < |s| && j + 1 < d < |s| && d + 3 <= t <= |s| && EmailSplitAt(s, j, d, t);
    assert s[j] == '@';
  }

  /** `user@domain.tld` matches email_pattern when the user part starts with a
      word character and is made of `[A-Za-z0-9._%+-]`, the domain is a non-empty
      run of `[A-Za-z0-9.-]` and the top-level domain has two or more letters
      and ends the string. */
  lemma EmailMatchOf(user: string, domain: string, tld: string)
    requires user != [] && IsWordChar(user[0]) && AllIn(user, 0, |user|, EmailLocal)
    requires domain != [] && AllIn(domain, 0, |domain|, EmailDomain)
    requires |tld| >= 2 && forall k :: 0 <= k < |tld| ==> IsLetter(tld[k])
    ensures EmailMatch(user + "@" + domain + "." + tld)
  {
    var s := user + "@" + domain + "." + tld;
    var j := |user|;
    var d := j + 1 + |domain|;
    var t := |s|;
    assert forall k :: 0 <= k < j ==> s[k] == user[k];
    assert forall k :: j + 1 <= k < d ==> s[k] == domain[k - j - 1];
    assert forall k :: d + 1 <= k < t ==> s[k] == tld[k - d - 1];
    assert s[j] == '@' && s[d] == '.';
    assert AllIn(s, d + 1, t, EmailTld);
    assert WordAt(s, 0) && WordAt(s, t - 1);
    assert EmailSplitAt(s, j, d, t);
  }

  /** A character other than `[\w.]` before the first '@' rules out
      upi_pattern. */
  lemma NotWordUserNotUpi(s: string, k: int)
    requires '@' in s && 0 <= k < IndexOf(s, '@') && !InClass(s[k], WordOrDot)
    ensures !UpiMatch(s)
  {
    if UpiMatch(s) {
      UpiUserPart(s);
    }
  }

  /** `[A-Za-z0-9._%+-]` does not contain '@'. */
  lemma EmailLocalHasNoAt(s: string)
    requires AllIn(s, 0, |s|, EmailLocal)
    ensures '@' !in s
  {
  }

  /** phone_pattern and aadhar_pattern both need a digit first. */
  lemma NoDigitFirstNoNumber(s: string)
    requires s != [] && !IsDigit(s[0])
    ensures !PhoneMatch(s) && !AadharMatch(s)
  {
    assert !AllIn(s, 0, 4, Digit);
  }

  /** passport_pattern needs a digit second. */
  lemma NoDigitSecondNoPassport(s: string)
    requires |s| >= 2 && !IsDigit(s[1])
    ensures !PassportMatch(s)
  {
    assert !AllIn(s, 1, 8, Digit);
  }

  /** A capital letter, seven digits and then a non-word character match
      passport_pattern. */
  lemma PassportPrefix(s: string)
    requires |s| >= 9 && IsUpper(s[0]) && AllIn(s, 1, 8, Digit) && !IsWordChar(s[8])
    ensures PassportMatch(s)
  {
    assert WordAt(s, 7);
  }

  /** Ten digits and then a non-word character match phone_pattern. */
  lemma PhonePrefix(s: string)
    requires |s| >= 11 && AllIn(s, 0, 10, Digit) && !IsWordChar(s[10])
    ensures PhoneMatch(s)
  {
    assert WordAt(s, 0) && WordAt(s, 9);
  }
}
