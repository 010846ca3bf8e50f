/** The classification rules of `FlixkartPIIDetector`: which single fields are
    sensitive on their own, which only in combination, and the record-level
    detector that collects the masked value of every sensitive field.

    A record is a `map<string, string>` from field name to value; the empty
    string plays the part of Python's falsy values. */
module Detector {
  import opened Text
  import opened Patterns
  import opened Masking
  import opened RecordMaps

  /** `combinatorial_fields` */
  const CombinatorialFields: seq<string> :=
    ["name", "first_name", "last_name", "email", "address", "device_id", "ip_address"]

  /** is_standalone_pii(field, value) */
  predicate IsStandalonePii(field: string, value: string) {
    if value == "" || |Strip(value)| < 3 then false
    else
      var v := Strip(value);
      if field == "phone" || PhoneMatch(v) then true
      else if field == "aadhar" || AadharMatch(v) then true
      else if field == "passport" || PassportMatch(v) then true
      else if field == "upi_id" || UpiMatch(v) then true
      else false
  }

  /** Some pattern of the standalone rule matches `v`. */
  predicate AnyStandalonePattern(v: string) {
    PhoneMatch(v) || AadharMatch(v) || PassportMatch(v) || UpiMatch(v)
  }

  /** The standalone rule: nothing shorter than three characters after
      stripping; any such value of the phone, aadhar, passport and upi_id
      fields; and in every other field exactly the values whose stripped
      form matches one of the four patterns, the length guard being implied
      by each pattern. */
  lemma StandaloneRule(field: string, value: string)
    ensures |Strip(value)| < 3 ==> !IsStandalonePii(field, value)
    ensures (|Strip(value)| >= 3 && field in ["phone", "aadhar", "passport", "upi_id"])
              ==> IsStandalonePii(field, value)
    ensures (field !in ["phone", "aadhar", "passport", "upi_id"])
              ==> (IsStandalonePii(field, value) <==> AnyStandalonePattern(Strip(value)))
  {
    if field in ["phone", "aadhar", "passport", "upi_id"] {
      StandaloneFieldRule(field, value);
    } else {
      StandaloneOtherRule(field, value);
    }
  }

  /** Each of the four standalone fields takes every value of three or more
      stripped characters. */
  lemma StandaloneFieldRule(field: string, value: string)
    requires field in ["phone", "aadhar", "passport", "upi_id"]
    ensures |Strip(value)| >= 3 ==> IsStandalonePii(field, value)
  {
    assert field == "phone" || field == "aadhar" || field == "passport" || field == "upi_id";
  }

  /** Outside the four standalone fields a value is standalone PII exactly
      when its stripped form matches a pattern; each pattern needs three or
      more characters. */
  lemma StandaloneOtherRule(field: string, value: string)
    requires field !in ["phone", "aadhar", "passport", "upi_id"]
    ensures IsStandalonePii(field, value) <==> AnyStandalonePattern(Strip(value))
  {
    assert field != "phone" && field != "aadhar" && field != "passport" && field != "upi_id";
    var v := Strip(value);
    if AnyStandalonePattern(v) {
      PatternsNeedThree(v);
    }
  }

  /** Every standalone pattern needs at least three characters. */
  lemma PatternsNeedThree(v: string)
    requires AnyStandalonePattern(v)
    ensures |v| >= 3
  {
    if AadharMatch(v) { AadharMatchLength(v); }
    if UpiMatch(v) { UpiMatchLength(v); }
  }

  /** An email-shaped value — `[\w.]` characters starting with a word
      character, an '@', then a word character — is standalone PII in any
      field, because upi_pattern accepts it. */
  lemma EmailShapedIsStandalone(field: string, value: string, j: nat)
    requires var v := Strip(value);
      && 0 < j && j + 1 < |v| && v[j] == '@'
      && IsWordChar(v[0]) && AllIn(v, 0, j, WordOrDot) && IsWordChar(v[j + 1])
    ensures IsStandalonePii(field, value)
  {
    EmailShapedIsUpi(Strip(value), j);
    UpiMatchLength(Strip(value));
  }

  /** A value shorter than eight characters without an '@' matches none of
      the four standalone patterns. */
  lemma ShortValueNoPattern(v: string)
    requires |v| < 8 && '@' !in v
    ensures !AnyStandalonePattern(v)
  {
    NoAtNoUpiOrEmail(v);
    if AadharMatch(v) { AadharMatchLength(v); }
  }

  /** `re.match(r'^[A-Za-z.]+$', word)` */
  predicate NameWordMatch(w: string) {
    w != [] && forall k :: 0 <= k < |w| ==> IsLetter(w[k]) || w[k] == '.'
  }

  /** is_valid_name(name_str) */
  predicate IsValidName(s: string) {
    if s == "" || |Strip(s)| < 2 then false
    else
      var words := Words(Strip(s));
      if |words| < 2 then false
      else forall i :: 0 <= i < |words| ==> NameWordMatch(words[i])
  }

  /** A valid name is two or more whitespace-separated words made only of
      letters and dots; the length guard adds nothing. */
  lemma ValidNameRule(s: string)
    ensures IsValidName(s) <==>
              var words := Words(Strip(s));
              |words| >= 2 && forall i :: 0 <= i < |words| ==> NameWordMatch(words[i])
  {
  }

  /** is_valid_email(email_str): the value is not stripped first. */
  predicate IsValidEmail(s: string) {
    EmailMatch(s)
  }

  /** A valid email starts with a word character, so a value with leading
      whitespace is never one (it is not stripped); it holds an '@' and has
      six characters or more. */
  lemma EmailValidRule(s: string)
    ensures IsValidEmail(s) ==> |s| >= 6 && IsWordChar(s[0]) && '@' in s
    ensures s != [] && IsSpace(s[0]) ==> !IsValidEmail(s)
  {
    if IsValidEmail(s) {
      EmailMatchShape(s);
    }
  }

  /** `user@domain.tld` is a valid email when the user part starts with a
      word character and uses `[A-Za-z0-9._%+-]`, the domain is a non-empty
      run of `[A-Za-z0-9.-]` and the top-level domain is two or more letters. */
  lemma EmailValidOf(user: string, domain: string, tld: string)
    requires user != [] && IsWordChar(user[0]) && AllIn(user, 0, |user|, EmailLocal)
    requires domain != [] && AllIn(domain, 0, |domain|, EmailDomain)
    requires |tld| >= 2 && forall k :: 0 <= k < |tld| ==> IsLetter(tld[k])
    ensures IsValidEmail(user + "@" + domain + "." + tld)
  {
    EmailMatchOf(user, domain, tld);
  }

  /** A value with no whitespace at either end that starts with a letter
      followed by a non-digit and has a character other than `[\w.]` before
      its first '@' is not standalone PII outside the four standalone
      fields: upi_pattern allows only `[\w.]` before the '@', and no other
      pattern fits either. */
  lemma SymbolStartNotStandalone(field: string, v: string, k: int)
    requires field !in ["phone", "aadhar", "passport", "upi_id"]
    requires |v| >= 2 && IsLetter(v[0]) && !IsDigit(v[1]) && !IsSpace(v[|v| - 1])
    requires '@' in v && 0 <= k < IndexOf(v, '@') && !InClass(v[k], WordOrDot)
    ensures !IsStandalonePii(field, v)
  {
    StripFixed(v);
    StandaloneOtherRule(field, v);
    NoDigitFirstNoNumber(v);
    NoDigitSecondNoPassport(v);
    NotWordUserNotUpi(v, k);
  }

  /** An address whose user part starts with a letter followed by a non-digit
      and contains '-', '+' or '%' is not standalone PII outside the four
      standalone fields. */
  lemma SymbolUserNotStandalone(field: string, user: string, rest: string, k: int)
    requires field !in ["phone", "aadhar", "passport", "upi_id"]
    requires '@' !in user && |user| >= 2 && IsLetter(user[0]) && !IsDigit(user[1])
    requires 0 <= k < |user| && user[k] in "+-%"
    requires rest != [] && !IsSpace(rest[|rest| - 1])
    ensures !IsStandalonePii(field, user + "@" + rest)
  {
    var v := user + "@" + rest;
    assert v[0] == user[0] && v[1] == user[1] && v[k] == user[k];
    assert v[|v| - 1] == rest[|rest| - 1];
    IndexOfJoin(user, '@', rest);
    SymbolStartNotStandalone(field, v, k);
  }

  /** A value with no whitespace at either end that starts with a capital
      letter, seven digits and a non-word character is standalone PII in
      every field, through passport_pattern. */
  lemma PassportStartStandalone(field: string, v: string)
    requires |v| >= 9 && IsUpper(v[0]) && AllIn(v, 1, 8, Digit) && !IsWordChar(v[8])
    requires !IsSpace(v[|v| - 1])
    ensures IsStandalonePii(field, v)
  {
    PassportPrefix(v);
    StripFixed(v);
  }

  /** An address whose user part begins with a capital letter, seven digits
      and a non-word character is standalone PII in every field. */
  lemma PassportUserStandalone(field: string, user: string, rest: string)
    requires |user| >= 9 && IsUpper(user[0]) && AllIn(user, 1, 8, Digit) && !IsWordChar(user[8])
    requires rest != [] && !IsSpace(rest[|rest| - 1])
    ensures IsStandalonePii(field, user + "@" + rest)
  {
    var v := user + "@" + rest;
    assert v[..|user|] == user;
    assert v[|v| - 1] == rest[|rest| - 1];
    PassportStartStandalone(field, v);
  }

  /** A value with no whitespace at either end that starts with ten digits
      and a non-word character is standalone PII in every field, through
      phone_pattern. */
  lemma PhoneStartStandalone(field: string, v: string)
    requires |v| >= 11 && AllIn(v, 0, 10, Digit) && !IsWordChar(v[10])
    requires !IsSpace(v[|v| - 1])
    ensures IsStandalonePii(field, v)
  {
    PhonePrefix(v);
    StripFixed(v);
  }

  /** An address whose user part begins with ten digits and a non-word
      character is standalone PII in every field. */
  lemma PhoneUserStandalone(field: string, user: string, rest: string)
    requires |user| >= 11 && AllIn(user, 0, 10, Digit) && !IsWordChar(user[10])
    requires rest != [] && !IsSpace(rest[|rest| - 1])
    ensures IsStandalonePii(field, user + "@" + rest)
  {
    var v := user + "@" + rest;
    assert v[..|user|] == user;
    assert v[|v| - 1] == rest[|rest| - 1];
    PhoneStartStandalone(field, v);
  }

  /** is_valid_address(addr_str) */
  predicate IsValidAddress(s: string) {
    if s == "" || |s| < 10 then false
    else ',' in s && ((exists k :: 0 <= k < |s| && IsDigit(s[k])) || |Words(s)| >= 4)
  }

  /** A valid address is at least ten characters long, whitespace included
      (the value is not stripped), contains a comma, and either contains a
      digit or splits into at least four words. */
  lemma AddressRule(s: string)
    ensures IsValidAddress(s) <==>
              |s| >= 10 && ',' in s && (DigitsOnly(s) != [] || |Words(s)| >= 4)
  {
    DigitsOnlyEmpty(s);
  }

  /** The entry that one field appends to `pii_fields_present` in
      has_combinatorial_pii, if any. */
  function ComboTag(field: string, value: string): Option<string> {
    if value == "" then None
    else if field == "name" && IsValidName(value) then Some("name")
    else if (field == "first_name" || field == "last_name") && |Strip(value)| >= 2 then Some("name_parts")
    else if field == "email" && IsValidEmail(value) then Some("email")
    else if field == "address" && IsValidAddress(value) then Some("address")
    else if (field == "device_id" || field == "ip_address") && |Strip(value)| >= 5 then Some("device_info")
    else None
  }

  /** The number of entries has_combinatorial_pii collects for `data`:
      one per tagged field, "name_parts" only once. */
  function CombinatorialCount(data: map<string, string>): nat {
    EntryCount(data, data.Keys, ComboTag, "name_parts")
  }

  /** has_combinatorial_pii(data): visits the fields in any order. */
  method HasCombinatorialPii(data: map<string, string>) returns (r: bool)
    ensures r <==> CombinatorialCount(data) >= 2
  {
    var present: seq<string> := [];
    var todo := data.Keys;
    ghost var done: set<string> := {};
    while todo != {}
      invariant done == data.Keys - todo && todo <= data.Keys
      invariant EntriesOf(data, done, ComboTag, "name_parts", present)
      decreases todo
    {
      var field :| field in todo;
      var value := data[field];
      ghost var before := present;
      VisitStep(data.Keys, todo, done, field);
      todo := todo - {field};
      if value == "" {
        EntryStep(data, done, field, ComboTag, "name_parts", before, present);
        done := done + {field};
        continue;
      }
      if field == "name" && IsValidName(value) {
        present := present + ["name"];
      } else if (field == "first_name" || field == "last_name") && |Strip(value)| >= 2 {
        if "name_parts" !in present {
          present := present + ["name_parts"];
        }
      } else if field == "email" && IsValidEmail(value) {
        present := present + ["email"];
      } else if field == "address" && IsValidAddress(value) {
        present := present + ["address"];
      } else if (field == "device_id" || field == "ip_address") && |Strip(value)| >= 5 {
        present := present + ["device_info"];
      }
      EntryStep(data, done, field, ComboTag, "name_parts", before, present);
      done := done + {field};
    }
    assert done == data.Keys;
    r := |present| >= 2;
  }

  /** device_id and ip_address each append their own "device_info" entry,
      so the two of them alone make a record combinatorial PII. */
  lemma DeviceInfoCountsTwice(data: map<string, string>)
    requires "device_id" in data && |Strip(data["device_id"])| >= 5
    requires "ip_address" in data && |Strip(data["ip_address"])| >= 5
    ensures CombinatorialCount(data) >= 2
  {
    TwoOwnEntries(data, ComboTag, "name_parts", "device_id", "ip_address");
  }

  /** The fields that append "name_parts". */
  const NamePartFields: set<string> := {"first_name", "last_name"}

  /** first_name and last_name together give at most one entry, a single
      "name_parts", in any record: the count is that of the record without
      them, plus one when either has a value of two or more characters. */
  lemma NamePartsCountOnce(data: map<string, string>)
    ensures CombinatorialCount(data) ==
              CombinatorialCount(data - NamePartFields)
              + (if OnceAmong(data, data.Keys, ComboTag, "name_parts") then 1 else 0)
  {
    forall f | f in NamePartFields && f in data
      ensures ComboTag(f, data[f]).None? || ComboTag(f, data[f]) == Some("name_parts")
    {
      NamePartFieldTagIsOnlyNameParts(f, data[f]);
    }
    forall f | f in data && ComboTag(f, data[f]) == Some("name_parts") ensures f in NamePartFields {
      NamePartsOnlyFromParts(f, data[f]);
    }
    CountWithout(data, NamePartFields, ComboTag, "name_parts");
  }

  lemma NamePartFieldTagIsOnlyNameParts(field: string, value: string)
    requires field in NamePartFields
    ensures ComboTag(field, value).None? || ComboTag(field, value) == Some("name_parts")
  {
  }

  lemma NamePartsOnlyFromParts(field: string, value: string)
    requires ComboTag(field, value) == Some("name_parts")
    ensures field in NamePartFields
  {
    assert |ComboTag(field, value).value| == 10;
  }

  /** In particular a record of first_name and last_name alone is never
      combinatorial PII. */
  lemma NamePartsAloneBelowTwo(data: map<string, string>)
    requires data.Keys <= NamePartFields
    ensures CombinatorialCount(data) <= 1
  {
    NamePartsCountOnce(data);
    var rest := data - NamePartFields;
    assert rest.Keys == {};
    assert OwnEntryFields(rest, rest.Keys, ComboTag, "name_parts") == {};
  }

  /** A valid name and a first or last name of two or more characters are
      two entries, "name" and "name_parts", so together they make a record
      combinatorial PII. */
  lemma NameAndNamePartCountTwice(data: map<string, string>, g: string)
    requires "name" in data && IsValidName(data["name"])
    requires g in NamePartFields && g in data && |Strip(data[g])| >= 2
    ensures CombinatorialCount(data) >= 2
  {
    NameTag(data["name"]);
    NamePartsTag(g, data[g]);
    OwnAndOnce(data, ComboTag, "name_parts", "name", g);
  }

  lemma NameTag(value: string)
    requires IsValidName(value)
    ensures ComboTag("name", value) == Some("name")
  {
  }

  lemma DeviceTag(field: string, value: string)
    requires (field == "device_id" || field == "ip_address") && |Strip(value)| >= 5
    ensures ComboTag(field, value) == Some("device_info")
  {
    assert value != "";
    assert field[0] == 'd' || field[0] == 'i';
  }

  lemma NamePartsTag(field: string, value: string)
    requires field in NamePartFields && |Strip(value)| >= 2
    ensures ComboTag(field, value) == Some("name_parts")
  {
  }

  /** The second pass of detect_pii_in_record takes a field that is not yet
      masked when this holds; device_id and ip_address need only be
      non-empty here. */
  predicate SecondPassQualifies(field: string, value: string) {
    && field in CombinatorialFields && value != ""
    && (|| (field == "name" && IsValidName(value))
        || ((field == "first_name" || field == "last_name") && |Strip(value)| >= 2)
        || (field == "email" && IsValidEmail(value))
        || (field == "address" && IsValidAddress(value))
        || (field == "device_id" || field == "ip_address"))
  }

  /** The value the second pass writes: device identifiers get the fixed
      marker, everything else goes through mask_value. */
  function SecondPassMask(field: string, value: string): string {
    if field == "device_id" || field == "ip_address" then Redacted else MaskValue(field, value)
  }

  /** The masks of the first pass. */
  function StandaloneMasks(data: map<string, string>): map<string, string> {
    Masks(data, data.Keys, IsStandalonePii, MaskValue)
  }

  /** What detect_pii_in_record computes: the PII flag and the masked value of
      every field to overwrite. When the record is combinatorial PII the
      second pass adds its masks for the fields the first pass left alone
      (the right operand of `+` wins). */
  function Detect(data: map<string, string>): (bool, map<string, string>) {
    var standalone := StandaloneMasks(data);
    var hasStandalone := AnyPicked(data, data.Keys, IsStandalonePii);
    if CombinatorialCount(data) >= 2 then
      (true, Masks(data, data.Keys, SecondPassQualifies, SecondPassMask) + standalone)
    else (hasStandalone, standalone)
  }

  /** The second pass of detect_pii_in_record, run when the record is
      combinatorial PII: every field the first pass left alone gets its
      second-pass mask when it qualifies; the masks already in `fields` stay. */
  method MaskCombinatorialFields(data: map<string, string>, fields: map<string, string>)
    returns (piiFields: map<string, string>)
    ensures piiFields == Masks(data, data.Keys, SecondPassQualifies, SecondPassMask) + fields
  {
    piiFields := fields;
    var todo := data.Keys;
    ghost var done: set<string> := {};
    MasksNone(data, SecondPassQualifies, SecondPassMask, fields);
    while todo != {}
      invariant done == data.Keys - todo && todo <= data.Keys
      invariant piiFields == Masks(data, done, SecondPassQualifies, SecondPassMask) + fields
      decreases todo
    {
      var field :| field in todo;
      var value := data[field];
      VisitStep(data.Keys, todo, done, field);
      MasksOverStep(data, done, field, SecondPassQualifies, SecondPassMask, fields);
      if field in CombinatorialFields && value != "" && field !in piiFields {
        if field == "name" && IsValidName(value) {
          piiFields := piiFields[field := MaskValue(field, value)];
        } else if (field == "first_name" || field == "last_name") && |Strip(value)| >= 2 {
          piiFields := piiFields[field := MaskValue(field, value)];
        } else if field == "email" && IsValidEmail(value) {
          piiFields := piiFields[field := MaskValue(field, value)];
        } else if field == "address" && IsValidAddress(value) {
          piiFields := piiFields[field := MaskValue(field, value)];
        } else if field == "device_id" || field == "ip_address" {
          piiFields := piiFields[field := Redacted];
        }
      }
      todo := todo - {field};
      done := done + {field};
    }
    assert done == data.Keys;
  }

  /** detect_pii_in_record(data): the two passes visit the fields in any order. */
  method DetectPiiInRecord(data: map<string, string>) returns (isPii: bool, piiFields: map<string, string>)
    ensures (isPii, piiFields) == Detect(data)
  {
    var hasStandalone := false;
    var hasCombinatorial := false;
    piiFields := map[];
    var todo := data.Keys;
    ghost var done: set<string> := {};
    MasksNone(data, IsStandalonePii, MaskValue, map[]);
    while todo != {}
      invariant done == data.Keys - todo && todo <= data.Keys
      invariant hasStandalone <==> AnyPicked(data, done, IsStandalonePii)
      invariant piiFields == Masks(data, done, IsStandalonePii, MaskValue)
      decreases todo
    {
      var field :| field in todo;
      var value := data[field];
      VisitStep(data.Keys, todo, done, field);
      MasksStep(data, done, field, IsStandalonePii, MaskValue);
      AnyPickedStep(data, done, field, IsStandalonePii);
      if IsStandalonePii(field, value) {
        hasStandalone := true;
        piiFields := piiFields[field := MaskValue(field, value)];
      }
      todo := todo - {field};
      done := done + {field};
    }
    assert done == data.Keys;

    var combinatorial := HasCombinatorialPii(data);
    if combinatorial {
      hasCombinatorial := true;
      piiFields := MaskCombinatorialFields(data, piiFields);
    }
    isPii := hasStandalone || hasCombinatorial;
  }

  /** Every field with an entry in has_combinatorial_pii is also taken by the
      second pass. */
  lemma TaggedQualifies(field: string, value: string)
    requires ComboTag(field, value).Some?
    ensures SecondPassQualifies(field, value)
  {
  }

  /** The fields the detector masks, and with what: a standalone field keeps
      its first-pass mask; when at least two combinatorial entries are
      present, every other field the second pass takes gets its second-pass
      mask; nothing else is masked. */
  lemma DetectMaskedFields(data: map<string, string>, f: string)
    ensures var fields := Detect(data).1;
      && (f in fields <==>
            f in data && (IsStandalonePii(f, data[f])
                          || (CombinatorialCount(data) >= 2 && SecondPassQualifies(f, data[f]))))
      && (f in fields ==>
            fields[f] == if IsStandalonePii(f, data[f]) then MaskValue(f, data[f])
                         else SecondPassMask(f, data[f]))
  {
    MasksAt(data, data.Keys, IsStandalonePii, MaskValue, f);
    MasksAt(data, data.Keys, SecondPassQualifies, SecondPassMask, f);
  }

  /** The detector's flag is set exactly when it masks at least one field, and
      every masked field is a field of the record. */
  lemma DetectFlagMeansMasks(data: map<string, string>)
    ensures Detect(data).1.Keys <= data.Keys
    ensures Detect(data).0 <==> Detect(data).1 != map[]
  {
    var (flag, fields) := Detect(data);
    forall f | f in fields ensures f in data {
      DetectMaskedFields(data, f);
    }
    if CombinatorialCount(data) >= 2 {
      PositiveCountHasField(data, ComboTag, "name_parts");
      var f :| f in data && ComboTag(f, data[f]).Some?;
      TaggedQualifies(f, data[f]);
      DetectMaskedFields(data, f);
    } else if flag {
      var f :| f in data && IsStandalonePii(f, data[f]);
      DetectMaskedFields(data, f);
    }
  }

  /** A standalone field makes the record PII and keeps its first-pass mask. */
  lemma DetectStandaloneWins(data: map<string, string>, f: string)
    requires f in data && IsStandalonePii(f, data[f])
    ensures Detect(data).0
    ensures f in Detect(data).1 && Detect(data).1[f] == MaskValue(f, data[f])
  {
    DetectMaskedFields(data, f);
  }

  /** A device_id or ip_address entry is the fixed marker, unless the value is
      phone-shaped and was masked as a phone number by the first pass. */
  lemma DetectDeviceRedacted(data: map<string, string>, f: string)
    requires f == "device_id" || f == "ip_address"
    requires f in data && f in Detect(data).1
    ensures Detect(data).1[f] == Redacted || PhoneMatch(Strip(data[f]))
  {
    var v := data[f];
    DetectMaskedFields(data, f);
    if !PhoneMatch(Strip(v)) {
      MaskDeviceRedacted(f, v);
    }
  }

  /** Below two combinatorial entries a record is PII only through a
      standalone field, and only standalone fields are masked. */
  lemma DetectBelowThreshold(data: map<string, string>)
    requires CombinatorialCount(data) < 2
    ensures Detect(data).0 <==> AnyPicked(data, data.Keys, IsStandalonePii)
    ensures Detect(data).1 == StandaloneMasks(data)
  {
  }

  /** A one-field record is PII exactly when that field is standalone PII,
      and then that field alone is masked, by mask_value. */
  lemma SingleFieldRecord(f: string, v: string)
    ensures Detect(map[f := v]) ==
              if IsStandalonePii(f, v) then (true, map[f := MaskValue(f, v)]) else (false, map[])
  {
    var data := map[f := v];
    assert data.Keys == {f};
    SingleFieldCount(f, v, ComboTag, "name_parts");
    SingleFieldMasks(f, v, IsStandalonePii, MaskValue);
  }
}
