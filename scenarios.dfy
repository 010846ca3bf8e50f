/** Small example records (a phone number alone, an email address alone, a
    one-word name with an email or a city), stated for every value of the
    same shape and with the outcome the code as written gives. An email
    address whose user part is made of `[\w.]` matches upi_pattern, so such an
    email field on its own makes a record PII; one with '-', '+' or '%' in
    its user part does not; a one-word name is not a valid name. */
module Scenarios {
  import opened Text
  import opened Patterns
  import opened Masking
  import opened RecordMaps
  import opened Detector
  import opened Pipeline

  /** Ten digits. */
  predicate TenDigits(v: string) {
    |v| == 10 && forall k :: 0 <= k < 10 ==> IsDigit(v[k])
  }

  /** An ordinary email address `user@rest`: the user part starts with a
      letter and holds only word characters and dots, the rest starts with a
      word character and does not end in whitespace. */
  predicate PlainEmail(user: string, rest: string) {
    && user != [] && IsLetter(user[0]) && AllIn(user, 0, |user|, WordOrDot)
    && rest != [] && IsWordChar(rest[0]) && !IsSpace(rest[|rest| - 1])
  }

  /** A single word without an '@', shorter than eight characters, such as
      "Alice" or "Mumbai". */
  predicate ShortWord(w: string) {
    IsToken(w) && '@' !in w && |w| < 8
  }

  lemma TokenStripped(w: string)
    requires IsToken(w)
    ensures Strip(w) == w
  {
  }

  /** A phone field holding ten digits, alone in its record: the record is
      PII and only the first and last two digits survive. */
  lemma PhoneAlone(v: string)
    requires TenDigits(v)
    ensures Process(map["phone" := v]) == (true, map["phone" := v[..2] + "XXXXXX" + v[8..]])
  {
    var m := v[..2] + "XXXXXX" + v[8..];
    assert Strip(v) == v;
    StandaloneRule("phone", v);
    assert IsStandalonePii("phone", v);
    MaskPhoneBranch(v);
    assert MaskValue("phone", v) == m;
    ProcessSingleField("phone", v);
    assert Process(map["phone" := v]) == (true, map["phone" := m]);
  }

  lemma PlainEmailFacts(user: string, rest: string)
    requires PlainEmail(user, rest)
    ensures var v := user + "@" + rest;
      && Strip(v) == v && !PhoneMatch(v)
      && IsStandalonePii("email", v)
      && MaskValue("email", v) == MaskToken(user) + "@" + rest
  {
    var v := user + "@" + rest;
    var j := |user|;
    assert v[0] == user[0] && v[j] == '@' && v[j + 1] == rest[0];
    assert v[|v| - 1] == rest[|rest| - 1];
    assert !IsSpace(v[0]) && !IsSpace(v[|v| - 1]);
    assert Strip(v) == v;
    assert AllIn(v, 0, j, WordOrDot) by {
      forall k | 0 <= k < j ensures InClass(v[k], WordOrDot) {
        assert v[k] == user[k];
      }
    }
    EmailShapedIsStandalone("email", v, j);
    PhoneMatchShape(v);
    MaskEmailBranch(v);
    WordOrDotHasNoAt(user);
    MaskEmailParts(user, rest);
  }

  /** An email field holding an ordinary address, alone in its record: the
      record is PII, through upi_pattern, and the user part is masked. */
  lemma EmailAlone(user: string, rest: string)
    requires PlainEmail(user, rest)
    ensures Process(map["email" := user + "@" + rest])
              == (true, map["email" := MaskToken(user) + "@" + rest])
  {
    PlainEmailFacts(user, rest);
    ProcessSingleField("email", user + "@" + rest);
  }

  /** A short single word is not a valid name, gives no combinatorial entry
      as a name, and is not standalone PII outside the four standalone fields. */
  lemma ShortWordFacts(field: string, w: string)
    requires ShortWord(w) && field !in ["phone", "aadhar", "passport", "upi_id"]
    ensures !IsValidName(w) && ComboTag("name", w).None? && !IsStandalonePii(field, w)
  {
    TokenStripped(w);
    assert JoinSpaces([w]) == w;
    WordsOfJoin([w]);
    ShortValueNoPattern(w);
    StandaloneRule(field, w);
  }

  /** A one-word name adds no combinatorial entry, so with one more field
      the record stays below the threshold. */
  lemma NameBelowThreshold(name: string, g: string, w: string)
    requires ShortWord(name) && g != "name"
    ensures CombinatorialCount(map["name" := name, g := w]) <= 1
  {
    TwoFieldKeys("name", name, g, w);
    ShortWordFacts("name", name);
    TwoFieldsOneUntagged("name", name, g, w, ComboTag, "name_parts");
  }

  /** With a one-word name, only the email is standalone PII. */
  lemma NameEmailMasks(name: string, user: string, rest: string)
    requires ShortWord(name) && PlainEmail(user, rest)
    ensures var data := map["name" := name, "email" := user + "@" + rest];
      && AnyPicked(data, data.Keys, IsStandalonePii)
      && StandaloneMasks(data) == map["email" := MaskToken(user) + "@" + rest]
  {
    var v := user + "@" + rest;
    TwoFieldKeys("name", name, "email", v);
    ShortWordFacts("name", name);
    PlainEmailFacts(user, rest);
    TwoFieldMasks("name", name, "email", v, IsStandalonePii, MaskValue);
  }

  /** A one-word name next to an ordinary email address: the record is PII
      through the email alone, which is masked; the name stays as it is,
      since it adds no combinatorial entry. */
  lemma NameAndEmail(name: string, user: string, rest: string)
    requires ShortWord(name) && PlainEmail(user, rest)
    ensures Process(map["name" := name, "email" := user + "@" + rest])
              == (true, map["name" := name, "email" := MaskToken(user) + "@" + rest])
  {
    var v := user + "@" + rest;
    NameBelowThreshold(name, "email", v);
    NameEmailMasks(name, user, rest);
    ProcessBelowThreshold(map["name" := name, "email" := v]);
    OverwriteSecond("name", name, "email", v, MaskToken(user) + "@" + rest);
  }

  /** Neither a one-word name nor a short word in a field outside the
      standalone ones is standalone PII. */
  lemma NameOtherNotPicked(name: string, field: string, w: string)
    requires ShortWord(name) && ShortWord(w) && field != "name"
    requires field !in ["phone", "aadhar", "passport", "upi_id"]
    ensures var data := map["name" := name, field := w];
      !AnyPicked(data, data.Keys, IsStandalonePii)
  {
    TwoFieldKeys("name", name, field, w);
    ShortWordFacts("name", name);
    ShortWordFacts(field, w);
    TwoFieldMasks("name", name, field, w, IsStandalonePii, MaskValue);
  }

  /** A one-word name next to a short word in any field other than the
      standalone ones — a city, say: the record is not PII and comes out
      unchanged. */
  lemma NameAndOther(name: string, field: string, w: string)
    requires ShortWord(name) && ShortWord(w) && field != "name"
    requires field !in ["phone", "aadhar", "passport", "upi_id"]
    ensures Process(map["name" := name, field := w]) == (false, map["name" := name, field := w])
  {
    NameBelowThreshold(name, field, w);
    NameOtherNotPicked(name, field, w);
    ProcessBelowThreshold(map["name" := name, field := w]);
  }

  /** A valid email address whose user part holds '-', '+' or '%' (and
      starts with a letter followed by a non-digit), alone in its record: it
      passes is_valid_email, yet it is not standalone PII, so the record is
      not PII and comes out unchanged. */
  lemma SymbolEmailAlone(user: string, domain: string, tld: string, k: int)
    requires AllIn(user, 0, |user|, EmailLocal) && |user| >= 2 && IsLetter(user[0]) && !IsDigit(user[1])
    requires 0 <= k < |user| && user[k] in "+-%"
    requires domain != [] && AllIn(domain, 0, |domain|, EmailDomain)
    requires |tld| >= 2 && forall i :: 0 <= i < |tld| ==> IsLetter(tld[i])
    ensures var v := user + "@" + domain + "." + tld;
      && IsValidEmail(v)
      && Process(map["email" := v]) == (false, map["email" := v])
  {
    var rest := domain + "." + tld;
    var v := user + "@" + domain + "." + tld;
    assert v == user + "@" + rest;
    EmailValidOf(user, domain, tld);
    EmailLocalHasNoAt(user);
    assert rest[|rest| - 1] == tld[|tld| - 1];
    SymbolUserNotStandalone("email", user, rest, k);
    ProcessSingleField("email", v);
  }

  /** Neither a one-word name nor an address with '-', '+' or '%' in its user
      part (starting with a letter and a non-digit) is standalone PII. */
  lemma NameSymbolNotPicked(name: string, user: string, rest: string, k: int)
    requires ShortWord(name)
    requires '@' !in user && |user| >= 2 && IsLetter(user[0]) && !IsDigit(user[1])
    requires 0 <= k < |user| && user[k] in "+-%"
    requires rest != [] && !IsSpace(rest[|rest| - 1])
    ensures var data := map["name" := name, "email" := user + "@" + rest];
      !AnyPicked(data, data.Keys, IsStandalonePii)
  {
    var v := user + "@" + rest;
    TwoFieldKeys("name", name, "email", v);
    ShortWordFacts("name", name);
    SymbolUserNotStandalone("email", user, rest, k);
    TwoFieldMasks("name", name, "email", v, IsStandalonePii, MaskValue);
  }

  /** A one-word name next to a valid email address with '-', '+' or '%' in
      its user part: the email gives the only combinatorial entry and neither
      field is standalone PII, so the record is not PII and comes out
      unchanged. */
  lemma NameAndSymbolEmail(name: string, user: string, domain: string, tld: string, k: int)
    requires ShortWord(name)
    requires AllIn(user, 0, |user|, EmailLocal) && |user| >= 2 && IsLetter(user[0]) && !IsDigit(user[1])
    requires 0 <= k < |user| && user[k] in "+-%"
    requires domain != [] && AllIn(domain, 0, |domain|, EmailDomain)
    requires |tld| >= 2 && forall i :: 0 <= i < |tld| ==> IsLetter(tld[i])
    ensures var data := map["name" := name, "email" := user + "@" + domain + "." + tld];
      && IsValidEmail(data["email"])
      && Process(data) == (false, data)
  {
    var rest := domain + "." + tld;
    var v := user + "@" + domain + "." + tld;
    assert v == user + "@" + rest;
    EmailValidOf(user, domain, tld);
    EmailLocalHasNoAt(user);
    assert rest[|rest| - 1] == tld[|tld| - 1];
    NameBelowThreshold(name, "email", v);
    NameSymbolNotPicked(name, user, rest, k);
    ProcessBelowThreshold(map["name" := name, "email" := v]);
  }

  /** A valid email address whose user part begins with a passport number
      (a capital letter and seven digits) and then '-', '+' or '%', such as
      "A1234567-x@ab.cd", is standalone PII in every field: passport_pattern
      matches its start. */
  lemma PassportShapedEmail(field: string, user: string, domain: string, tld: string)
    requires AllIn(user, 0, |user|, EmailLocal) && |user| >= 9
    requires IsUpper(user[0]) && AllIn(user, 1, 8, Digit) && user[8] in "+-%"
    requires domain != [] && AllIn(domain, 0, |domain|, EmailDomain)
    requires |tld| >= 2 && forall i :: 0 <= i < |tld| ==> IsLetter(tld[i])
    ensures var v := user + "@" + domain + "." + tld;
      IsValidEmail(v) && IsStandalonePii(field, v)
  {
    var rest := domain + "." + tld;
    assert user + "@" + domain + "." + tld == user + "@" + rest;
    assert rest[|rest| - 1] == tld[|tld| - 1];
    EmailValidOf(user, domain, tld);
    PassportUserStandalone(field, user, rest);
  }

  /** A valid email address whose user part begins with ten digits and then
      '-', '+' or '%', such as "9876543210-x@ab.cd", is standalone PII in
      every field: phone_pattern matches its start. */
  lemma PhoneShapedEmail(field: string, user: string, domain: string, tld: string)
    requires AllIn(user, 0, |user|, EmailLocal) && |user| >= 11
    requires AllIn(user, 0, 10, Digit) && user[10] in "+-%"
    requires domain != [] && AllIn(domain, 0, |domain|, EmailDomain)
    requires |tld| >= 2 && forall i :: 0 <= i < |tld| ==> IsLetter(tld[i])
    ensures var v := user + "@" + domain + "." + tld;
      IsValidEmail(v) && IsStandalonePii(field, v)
  {
    var rest := domain + "." + tld;
    assert user + "@" + domain + "." + tld == user + "@" + rest;
    assert rest[|rest| - 1] == tld[|tld| - 1];
    EmailValidOf(user, domain, tld);
    PhoneUserStandalone(field, user, rest);
  }
}
