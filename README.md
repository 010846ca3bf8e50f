# Flixkart PII detector in Dafny

This project models the classification and masking engine of the Flixkart
PII detector (`FlixkartPIIDetector` in `detector_full_dhananjay_garg.py`). It
also models the step of the CSV loop that applies the engine's output to a
decoded record. Properties of the model are proved alongside it.

A record is a `map<string, string>` from field name to value. The empty
string stands for Python's falsy values. The engine has no state that
changes, so it is written as modules of functions, lemmas and methods:

- `Text` — the Python string operations used: `strip`, `split`,
  `' '.join`, `'X' * n`, clamped slices, and `re.sub(r'[^\d]', '', s)`.
- `Patterns` — the five compiled regular expressions, each as the predicate
  "`re.match` succeeds". The match is anchored at position 0 and may leave
  trailing text. Backtracking becomes an existential over split points.
- `Masking` — `mask_value` and the shape of each of its formats.
- `RecordMaps` — generic facts about maps built field by field.
- `Detector`:
  - `is_standalone_pii` and the three validators;
  - `has_combinatorial_pii` as a method with a loop;
  - `detect_pii_in_record` as a method with its two loops, proved equal to
    the function `Detect`.
- `Pipeline` — the copy-and-overwrite step of the CSV loop as a method,
  proved equal to the function `Process`, and the properties of the
  redacted record.
- `Remasking` — what `mask_value` and the whole step do to their own output.
- `Scenarios` — small example records (a phone number alone, an email
  address alone, a one-word name next to an email or a city), stated for
  every value of the same shape.

The loops over `data.items()` and `pii_fields.items()` pick their next field
nondeterministically (`var field :| field in todo`). Each method's
postcondition is a function of the input map alone. So the result does not
depend on the order in which fields are visited.

A redactor of this kind is meant to treat an email address, or a name, as
PII only in combination with a second identifying field. It is also meant
to count two fields of one category (two name fields, two device fields)
as one. The code behaves differently in several places, and the model
follows the code:

- `upi_pattern` (line 15) matches an email address `user@rest` whose user
  part starts with a letter and is made of `[\w.]` only, and whose rest
  starts with a word character (`Patterns.EmailShapedIsUpi`). So such an
  email field on its own makes a record PII, and its user part is masked
  (`Scenarios.EmailAlone`).
- An address with '-', '+' or '%' in a user part that starts with a
  letter followed by a non-digit, such as "a-b@cd.ef", passes
  `is_valid_email`. But `upi_pattern` does not match it, and neither does
  any other pattern. Alone in its record it is not PII, and the record
  comes out unchanged (`Detector.SymbolUserNotStandalone`,
  `Scenarios.SymbolEmailAlone`). Without that condition on the start the
  address can still be standalone PII through another pattern:
  "A1234567-x@ab.cd" matches passport_pattern, and "9876543210-x@ab.cd"
  matches phone_pattern (`Scenarios.PassportShapedEmail`,
  `Scenarios.PhoneShapedEmail`).
- A one-word name such as "Alice" is not a valid name. A record holding it
  and an email of the shape of the first point is PII through the email
  alone. Only the email is masked, and the name is kept
  (`Scenarios.NameAndEmail`). A record holding it and an address of the
  shape of the second point is not PII at all, and comes out unchanged
  (`Scenarios.NameAndSymbolEmail`).
- A one-word name next to a short word in a field such as a city is not
  PII, and the record comes out unchanged (`Scenarios.NameAndOther`). Here
  the code does what is meant.
- `device_id` and `ip_address` each add their own "device_info" entry
  (line 81). The two of them alone are thus combinatorial PII
  (`Detector.DeviceInfoCountsTwice`).
- `first_name` and `last_name` share one "name_parts" entry (lines 73-75),
  but `name` adds a separate "name" entry (line 72). A valid name together
  with a first or last name therefore counts twice and makes the record PII
  (`Detector.NameAndNamePartCountTwice`). A record with only first_name and
  last_name never does (`Detector.NamePartsAloneBelowTwo`).
- A field that makes a record combinatorial PII can come out unchanged.
  A first_name such as "AX" is already in masked form and is masked
  to itself, even though the record is reported as PII
  (`Pipeline.ContributingFieldKept`, `Masking.MaskedWordKept`).
- A `device_id` or `ip_address` entry is "[REDACTED]" except when its value
  is phone-shaped. Such a value was already masked as a phone number by the
  first pass, and the guard at line 98 keeps that mask
  (`Detector.DetectDeviceRedacted`).
- Redaction is not idempotent for aadhar numbers. A masked number keeps four
  digits, so a second pass replaces it with "[REDACTED]"
  (`Remasking.AadharRemask`, `Remasking.AadharAloneTwice`). The phone, name
  and email formats are their own masks (`Remasking.PhoneRemask`,
  `Remasking.NameRemask`, `Remasking.EmailRemask`).
- The code performs none of the following:
  - a checksum test;
  - a test against a list of UPI providers;
  - recursion into nested values;
  - detection of dates of birth.

Other behaviour of the code that the model keeps:

- The class `[A-Z|a-z]` of `email_pattern` contains a literal '|'.
- `is_valid_email` and `is_valid_address` do not strip their input.
- A phone field whose stripped value has three or four characters is
  "masked" into a string that shows all of its characters
  (`Masking.MaskPhoneShortValue`).

## Model

| member | source | states |
|---|---|---|
| Text.Strip | detector_full_dhananjay_garg.py:25 | `str.strip()` yields a contiguous piece of the input with no whitespace at either end, and returns a string already stripped unchanged |
| Text.StripRemovesWhitespace | detector_full_dhananjay_garg.py:25 | everything `str.strip()` cuts off, before and after the piece it keeps, is whitespace; with `Text.Strip` this says the result is the input with its leading and trailing whitespace removed and nothing else |
| Text.Words | detector_full_dhananjay_garg.py:45 | `str.split()` yields non-empty tokens free of whitespace, at most as many as there are characters |
| Text.WordsOfToken | detector_full_dhananjay_garg.py:45 | one run of non-whitespace splits into itself alone |
| Text.WordsOfSpaces | detector_full_dhananjay_garg.py:45 | a string of whitespace only splits into no words |
| Text.WordsSplitAt | detector_full_dhananjay_garg.py:45 | a whitespace character separates the words: the words of `a + [c] + b` are those of `a` followed by those of `b`; with the two lemmas above this pins `str.split()` down completely |
| Text.WordsOfJoin | detector_full_dhananjay_garg.py:127-134 | splitting `' '.join(tokens)` gives the tokens back |
| Text.JoinSpaces | detector_full_dhananjay_garg.py:134 | `' '.join(ws)`: the words with a single space between neighbours; characterised by `Text.WordsOfJoin` and `Remasking.JoinSpacesEnds` |
| Text.Xs | detector_full_dhananjay_garg.py:117-118 | `'X' * n` is n characters, all 'X', and empty for n of zero or less |
| Text.Head2 | detector_full_dhananjay_garg.py:117-118 | `s[:2]` with Python's clamping: the whole string when shorter than two |
| Text.Tail2 | detector_full_dhananjay_garg.py:117-118 | `s[-2:]` with Python's clamping: the whole string when shorter than two; with `Text.Head2` it shapes the phone format, see `Masking.MaskPhoneFormat` and `Masking.MaskPhoneShort` |
| Text.DigitsOnly | detector_full_dhananjay_garg.py:121 | `re.sub(r'[^\d]', '', s)` keeps only digits, is no longer than `s`, and leaves an all-digit string as it is |
| Text.DigitsOnlyEmpty | detector_full_dhananjay_garg.py:62 | `re.search(r'\d', s)` fails exactly when removing the non-digits leaves nothing |
| Text.IndexOf | detector_full_dhananjay_garg.py:138 | `split('@', 1)` cuts at the first '@': the position holds '@' and no '@' comes before it |
| Patterns.PhoneMatch | detector_full_dhananjay_garg.py:12 | `phone_pattern.match`, defined by character classes and a word boundary; characterised by `Patterns.PhoneMatchShape` |
| Patterns.AadharMatch | detector_full_dhananjay_garg.py:13 | `aadhar_pattern.match`, with both alternatives and the optional separators; see `Patterns.AadharPlainIsGrouped` and `Patterns.AadharMatchLength` |
| Patterns.PassportMatch | detector_full_dhananjay_garg.py:14 | `passport_pattern.match`: an upper-case letter, seven digits, then a word boundary |
| Patterns.UpiMatch | detector_full_dhananjay_garg.py:15 | `upi_pattern.match`, both alternatives with split points chosen existentially; see `Patterns.UpiNumericIsGeneral` and `Patterns.UpiUserPart` |
| Patterns.EmailMatch | detector_full_dhananjay_garg.py:16 | `email_pattern.match`; see `Patterns.EmailMatchShape` and `Patterns.EmailMatchOf` |
| Patterns.Boundary | detector_full_dhananjay_garg.py:12-16 | `\b` at a position: exactly one of the two neighbouring characters is a word character, the string's ends counting as non-word; used by every pattern, see `Patterns.PhoneMatchShape` |
| Patterns.PhoneMatchShape | detector_full_dhananjay_garg.py:12 | `\b\d{10}\b` matches exactly ten leading digits followed by the end or a non-word character |
| Patterns.AadharPlainIsGrouped | detector_full_dhananjay_garg.py:13 | the `\d{12}` alternative of aadhar_pattern adds nothing to the grouped one |
| Patterns.AadharMatchLength | detector_full_dhananjay_garg.py:13 | an aadhar match needs at least twelve characters |
| Patterns.UpiNumericIsGeneral | detector_full_dhananjay_garg.py:15 | the numeric alternative of upi_pattern adds nothing to `[\w.]+@[\w.]+` |
| Patterns.EmailShapedIsUpi | detector_full_dhananjay_garg.py:15 | an ordinary email-shaped value matches upi_pattern |
| Patterns.UpiMatchLength | detector_full_dhananjay_garg.py:15 | a UPI match needs at least three characters |
| Patterns.NoAtNoUpiOrEmail | detector_full_dhananjay_garg.py:15-16 | without '@' neither upi_pattern nor email_pattern matches |
| Patterns.UpiUserPart | detector_full_dhananjay_garg.py:15 | whatever upi_pattern matches holds an '@' and only `[\w.]` characters before its first '@' |
| Patterns.NotWordUserNotUpi | detector_full_dhananjay_garg.py:15 | a character outside `[\w.]` before the first '@' rules upi_pattern out |
| Patterns.EmailMatchShape | detector_full_dhananjay_garg.py:16 | what email_pattern matches starts with a word character, holds an '@' and has at least six characters |
| Patterns.EmailMatchOf | detector_full_dhananjay_garg.py:16 | `user@domain.tld` matches email_pattern when the user part starts with a word character and is made of `[A-Za-z0-9._%+-]`, the domain is a non-empty run of `[A-Za-z0-9.-]` and the top-level domain is two or more letters |
| Patterns.NoDigitFirstNoNumber | detector_full_dhananjay_garg.py:12-13 | phone_pattern and aadhar_pattern need a digit as first character |
| Patterns.NoDigitSecondNoPassport | detector_full_dhananjay_garg.py:14 | passport_pattern needs a digit as second character |
| Patterns.PassportPrefix | detector_full_dhananjay_garg.py:14 | a capital letter, seven digits and then a non-word character match passport_pattern |
| Patterns.PhonePrefix | detector_full_dhananjay_garg.py:12 | ten digits and then a non-word character match phone_pattern |
| Detector.IsStandalonePii | detector_full_dhananjay_garg.py:21-39 | `is_standalone_pii`: the length test on the stripped value, then the four field-or-pattern tests in source order; characterised by `Detector.StandaloneRule` |
| Detector.StandaloneRule | detector_full_dhananjay_garg.py:21-39 | no value shorter than three stripped characters is standalone PII; any other value of phone, aadhar, passport or upi_id is; in every other field exactly the values matching one of the four patterns are |
| Detector.StandaloneFieldRule | detector_full_dhananjay_garg.py:27-37 | phone, aadhar, passport and upi_id take every value of three or more stripped characters |
| Detector.StandaloneOtherRule | detector_full_dhananjay_garg.py:21-39 | in any other field a value is standalone PII exactly when its stripped form matches one of the four patterns |
| Detector.PatternsNeedThree | detector_full_dhananjay_garg.py:12-15 | each of the four standalone patterns needs at least three characters, so the guard at line 22 rejects nothing they match |
| Detector.EmailShapedIsStandalone | detector_full_dhananjay_garg.py:36 | an email-shaped value is standalone PII in any field |
| Detector.ShortValueNoPattern | detector_full_dhananjay_garg.py:27-37 | a value shorter than eight characters without '@' matches none of the four patterns |
| Detector.IsValidName | detector_full_dhananjay_garg.py:41-53 | `is_valid_name`: the length test, the split and the per-word regular expression; characterised by `Detector.ValidNameRule` |
| Detector.NameWordMatch | detector_full_dhananjay_garg.py:50 | `re.match(r'^[A-Za-z.]+$', word)`: a non-empty word of letters and dots only; used in `Detector.ValidNameRule` |
| Detector.ValidNameRule | detector_full_dhananjay_garg.py:41-53 | a valid name has at least two whitespace-separated words, each made only of letters and dots |
| Detector.IsValidEmail | detector_full_dhananjay_garg.py:55-56 | `is_valid_email`: email_pattern matched against the value as it is, not stripped; characterised by `Detector.EmailValidRule` and `Detector.EmailValidOf` |
| Detector.EmailValidRule | detector_full_dhananjay_garg.py:55-56 | a valid email starts with a word character, holds an '@' and has six or more characters, so a value with leading whitespace is never one |
| Detector.EmailValidOf | detector_full_dhananjay_garg.py:55-56 | `user@domain.tld` of the shape email_pattern describes is a valid email |
| Detector.SymbolUserNotStandalone | detector_full_dhananjay_garg.py:21-39 | outside the four standalone fields, an address whose user part starts with a letter and a non-digit and holds '-', '+' or '%' is not standalone PII |
| Detector.SymbolStartNotStandalone | detector_full_dhananjay_garg.py:21-39 | outside the four standalone fields, a value that starts with a letter and a non-digit and has a character outside `[\w.]` before its first '@' is not standalone PII |
| Detector.PassportStartStandalone | detector_full_dhananjay_garg.py:33-34 | a value starting with a capital letter, seven digits and a non-word character is standalone PII in every field |
| Detector.PhoneStartStandalone | detector_full_dhananjay_garg.py:27-28 | a value starting with ten digits and a non-word character is standalone PII in every field |
| Detector.PassportUserStandalone | detector_full_dhananjay_garg.py:33-34 | an address whose user part begins with a capital letter, seven digits and a non-word character is standalone PII in every field |
| Detector.PhoneUserStandalone | detector_full_dhananjay_garg.py:27-28 | an address whose user part begins with ten digits and a non-word character is standalone PII in every field |
| Detector.IsValidAddress | detector_full_dhananjay_garg.py:58-62 | `is_valid_address`, on the value as it is; characterised by `Detector.AddressRule` |
| Detector.AddressRule | detector_full_dhananjay_garg.py:58-62 | a valid address has at least ten characters, contains a comma, and contains a digit or has at least four words |
| Detector.ComboTag | detector_full_dhananjay_garg.py:67-81 | the entry one field adds to `pii_fields_present`, if any, following the branch order of the loop; its properties are `Detector.NamePartsTag`, `Detector.DeviceTag` and `Detector.NamePartsOnlyFromParts` |
| Detector.CombinatorialCount | detector_full_dhananjay_garg.py:65-83 | `len(pii_fields_present)` after the loop: one entry per field with a tag other than "name_parts", plus one if any field has "name_parts"; the reference definition `Detector.HasCombinatorialPii` is proved against, with `Detector.NamePartsCountOnce` |
| RecordMaps.EntryCount | detector_full_dhananjay_garg.py:65-83 | the length of a list to which each tagged field appends its tag, the shared tag only when it is not already present; see `RecordMaps.CountWithout` and `RecordMaps.OwnAndOnce` |
| RecordMaps.CountWithout | detector_full_dhananjay_garg.py:73-75 | removing the fields that can carry only the shared tag lowers the count by exactly one when one of them carries it, and leaves it unchanged otherwise |
| RecordMaps.OwnAndOnce | detector_full_dhananjay_garg.py:71-81 | a field with a tag of its own and a field with the shared tag give at least two entries |
| Detector.NamePartsTag | detector_full_dhananjay_garg.py:73-75 | a first_name or last_name of two or more stripped characters gives a "name_parts" entry |
| Detector.NamePartFieldTagIsOnlyNameParts | detector_full_dhananjay_garg.py:71-75 | a first_name or last_name gives no entry or the entry "name_parts", never another |
| Detector.NamePartsOnlyFromParts | detector_full_dhananjay_garg.py:71-81 | only first_name and last_name give a "name_parts" entry |
| Detector.DeviceTag | detector_full_dhananjay_garg.py:80-81 | a device_id or ip_address of five or more stripped characters gives a "device_info" entry |
| Detector.HasCombinatorialPii | detector_full_dhananjay_garg.py:64-83 | the loop's result is true exactly when the record has at least two combinatorial entries ("name_parts" counted once), whatever the visiting order |
| Detector.DeviceInfoCountsTwice | detector_full_dhananjay_garg.py:80-81 | device_id and ip_address of five or more characters each count, so together they reach two |
| Detector.NamePartsCountOnce | detector_full_dhananjay_garg.py:64-83 | in every record, the count is that of the record without first_name and last_name, plus one exactly when either of them gives a "name_parts" entry |
| Detector.NamePartsAloneBelowTwo | detector_full_dhananjay_garg.py:73-75 | a record with no fields but first_name and last_name has at most one entry, so it is never combinatorial PII |
| Detector.NameAndNamePartCountTwice | detector_full_dhananjay_garg.py:71-75 | a valid name and a first or last name of two or more characters are two entries, so together they make the record combinatorial PII |
| Detector.SecondPassQualifies | detector_full_dhananjay_garg.py:98-107 | whether the second loop of detect_pii_in_record takes a field; see `Detector.TaggedQualifies` |
| Detector.SecondPassMask | detector_full_dhananjay_garg.py:99-108 | the mask the second loop writes: "[REDACTED]" for device_id and ip_address, mask_value otherwise; see `Detector.DetectDeviceRedacted` |
| Detector.Detect | detector_full_dhananjay_garg.py:85-110 | the flag and masks of detect_pii_in_record as a function of the record; characterised by `Detector.DetectMaskedFields` and `Detector.DetectFlagMeansMasks` |
| Detector.TaggedQualifies | detector_full_dhananjay_garg.py:71-81 | every field counted by has_combinatorial_pii is taken by the second pass of the detector |
| Detector.MaskCombinatorialFields | detector_full_dhananjay_garg.py:97-108 | the second loop adds the second-pass mask of every qualifying field and keeps every mask already present |
| Detector.DetectPiiInRecord | detector_full_dhananjay_garg.py:85-110 | the two loops return the flag and the masks given by `Detect`, whatever the visiting order |
| Detector.DetectMaskedFields | detector_full_dhananjay_garg.py:90-108 | a field is masked exactly when it is standalone PII, or the record is combinatorial PII and the field qualifies; the mask is mask_value for a standalone field and the second-pass mask otherwise |
| Detector.DetectFlagMeansMasks | detector_full_dhananjay_garg.py:85-110 | every masked field is a field of the record, and the flag is set exactly when some field is masked |
| Detector.DetectStandaloneWins | detector_full_dhananjay_garg.py:91-93 | a standalone field sets the flag and keeps its first-pass mask, which the guard at line 98 protects |
| Detector.DetectDeviceRedacted | detector_full_dhananjay_garg.py:107-108 | a masked device_id or ip_address is "[REDACTED]" unless its value is phone-shaped |
| Detector.DetectBelowThreshold | detector_full_dhananjay_garg.py:95-110 | below two combinatorial entries only standalone fields are masked, and the flag says whether there is one |
| Detector.SingleFieldRecord | detector_full_dhananjay_garg.py:85-110 | a one-field record is PII exactly when its field is standalone PII, and then that field alone is masked by mask_value |
| Masking.MaskValue | detector_full_dhananjay_garg.py:112-143 | `mask_value`: the phone, aadhar, name and email branches in source order, and "[REDACTED]" otherwise; characterised by the lemmas below |
| Masking.MaskPhone | detector_full_dhananjay_garg.py:116-118 | the phone format; see `Masking.MaskPhoneFormat` and `Masking.MaskPhoneShort` |
| Masking.MaskPhoneShort | detector_full_dhananjay_garg.py:118 | format level: on a three- or four-character string the phone format gives its first two and last two characters, so four characters come back unchanged |
| Masking.MaskPhoneFormat | detector_full_dhananjay_garg.py:116-118 | format level: the phone format applied to an already stripped string of four or more characters keeps the length and the first and last two characters, with 'X' everywhere between |
| Masking.MaskAadhar | detector_full_dhananjay_garg.py:121-124 | the aadhar format; see `Masking.MaskAadharDigits` |
| Masking.MaskAadharDigits | detector_full_dhananjay_garg.py:121-124 | format level: when removing the non-digits of a string leaves twelve digits, the aadhar format gives the first two and last two of them around eight 'X's, otherwise "[REDACTED]" |
| Masking.MaskToken | detector_full_dhananjay_garg.py:130-133 | the mask of one word; see `Masking.MaskTokenShape` |
| Masking.MaskTokens | detector_full_dhananjay_garg.py:129-133 | the loop over the words: one masked word per word, in order, as many as there are words; see `Masking.MaskNameWords` |
| Masking.MaskName | detector_full_dhananjay_garg.py:127-134 | the name format; see `Masking.MaskNameWords` |
| Masking.MaskNameWords | detector_full_dhananjay_garg.py:127-134 | format level: the name format gives one masked word per word of the string, joined by single spaces; each keeps its length and, when longer than one character, its first character, with 'X' elsewhere |
| Masking.MaskEmail | detector_full_dhananjay_garg.py:137-141 | the email format; see `Masking.MaskEmailSplit`, `Masking.MaskEmailParts` and, for a value without '@', `Masking.MaskEmailShape` |
| Masking.MaskEmailSplit | detector_full_dhananjay_garg.py:137-140 | format level: on a string holding an '@', the email format turns the user part before the first '@' into its first character and 'X's, or a single 'X', and keeps everything from that '@' on |
| Masking.PhoneBranchWins | detector_full_dhananjay_garg.py:115 | a phone-shaped value is masked as a phone number whatever its field |
| Masking.MaskPhoneShape | detector_full_dhananjay_garg.py:115-118 | field level: mask_value on the phone field, or on any field whose stripped value is phone-shaped, gives the stripped value with its length and first and last two characters kept and 'X' between, from four stripped characters on |
| Masking.MaskPhoneShortValue | detector_full_dhananjay_garg.py:118 | field level: a phone field whose stripped value has three or four characters is masked into its first two and last two characters, which reveals all of them |
| Masking.MaskAadharShape | detector_full_dhananjay_garg.py:120-124 | field level: mask_value on an aadhar field whose stripped value is not phone-shaped gives twelve characters, the first two and last two digits around eight 'X's, when that value has exactly twelve digits, and "[REDACTED]" otherwise |
| Masking.MaskTokenShape | detector_full_dhananjay_garg.py:130-133 | a masked word keeps its length and, when longer than one character, its first character; every other character is 'X' |
| Masking.MaskNameShape | detector_full_dhananjay_garg.py:126-134 | field level: mask_value on name, first_name or last_name, when the stripped value is not phone-shaped, splits into one masked word per word of the stripped value, joined by single spaces, each keeping its length and first character and 'X' elsewhere |
| Masking.MaskEmailShape | detector_full_dhananjay_garg.py:136-141 | field level: mask_value on an email field whose stripped value is not phone-shaped keeps everything from the first '@' on and masks the user part; without '@' the value is "[REDACTED]" |
| Masking.MaskEmailParts | detector_full_dhananjay_garg.py:138-140 | `user@rest`, with no '@' in user, becomes the masked user, '@', and rest unchanged |
| Masking.MaskOtherFieldRedacted | detector_full_dhananjay_garg.py:143 | any other field is "[REDACTED]" unless its value is phone-shaped |
| Masking.MaskDeviceRedacted | detector_full_dhananjay_garg.py:143 | device_id and ip_address values are "[REDACTED]" unless phone-shaped |
| Masking.MaskedWordKept | detector_full_dhananjay_garg.py:126-134 | a single word of two or more characters that is already a first character followed by 'X's is masked, in a name field, to itself |
| Pipeline.Overwrite | detector_full_dhananjay_garg.py:258-261 | the redacted record as a function of the record and the masks; characterised by `Pipeline.OverwriteFields` |
| Pipeline.Process | detector_full_dhananjay_garg.py:254-266 | one record's flag and output as a function of the record; characterised by `Pipeline.ProcessFields` and `Pipeline.ProcessFlag` |
| Pipeline.RedactRecord | detector_full_dhananjay_garg.py:258-261 | the copy-and-overwrite loop gives the record with every reported field that it holds overwritten by its mask |
| Pipeline.OverwriteFields | detector_full_dhananjay_garg.py:258-261 | the redacted record has the input's fields; a field with a mask carries it, every other field keeps its value |
| Pipeline.ProcessRecord | detector_full_dhananjay_garg.py:254-266 | one record's flag and output are those given by `Process` |
| Pipeline.ProcessFields | detector_full_dhananjay_garg.py:254-266 | the output has exactly the input's fields; reported fields carry their mask, the others are unchanged; a record that is not PII comes out as it went in |
| Pipeline.ProcessFlag | detector_full_dhananjay_garg.py:254-256 | a record is flagged exactly when the detector masks some field |
| Pipeline.ProcessStandaloneMasked | detector_full_dhananjay_garg.py:91-93 | a standalone field is flagged and comes out masked by mask_value, whatever else the record holds |
| Pipeline.ProcessKeepsOthers | detector_full_dhananjay_garg.py:258-261 | a field that is neither standalone PII nor taken by the second pass is never changed |
| Pipeline.ProcessBelowThreshold | detector_full_dhananjay_garg.py:95-110 | below two combinatorial entries the output is the record with its standalone fields masked |
| Pipeline.ProcessSingleField | detector_full_dhananjay_garg.py:254-266 | a one-field record is flagged exactly when its field is standalone PII, and comes out with that field masked; otherwise unchanged |
| Pipeline.ContributingFieldKept | detector_full_dhananjay_garg.py:95-110 | a first_name such as "AX" next to a device_id of five or more characters gives a "name_parts" entry, the record is flagged, and the first_name comes out unchanged |
| Remasking.MaskTokenTwice | detector_full_dhananjay_garg.py:130-133 | a masked word is its own mask |
| Remasking.PhoneRemask | detector_full_dhananjay_garg.py:115-118 | masking a phone field twice gives the same as masking it once |
| Remasking.MaskNameTwice | detector_full_dhananjay_garg.py:126-134 | the name format is its own mask |
| Remasking.JoinSpacesEnds | detector_full_dhananjay_garg.py:134 | `' '.join(ws)` of a non-empty list starts with its first word and ends with its last |
| Remasking.MaskNameEnds | detector_full_dhananjay_garg.py:126-134 | a masked name of at least one word has no whitespace at either end, and its first or second character is 'X' |
| Remasking.MaskNameInert | detector_full_dhananjay_garg.py:126-134 | a masked name has nothing to strip and is never phone-shaped |
| Remasking.NameRemask | detector_full_dhananjay_garg.py:113-134 | masking a name field twice gives the same as masking it once |
| Remasking.MaskEmailTwice | detector_full_dhananjay_garg.py:136-141 | the email format is its own mask, and its output has nothing to strip and is not phone-shaped |
| Remasking.EmailRemask | detector_full_dhananjay_garg.py:113-141 | masking an email field twice gives the same as masking it once |
| Remasking.MaskAadharTwice | detector_full_dhananjay_garg.py:120-124 | applying the aadhar format to its own output always gives "[REDACTED]" |
| Remasking.AadharRemask | detector_full_dhananjay_garg.py:113-124 | masking an aadhar field twice always ends in "[REDACTED]" |
| Remasking.PhoneAloneTwice | detector_full_dhananjay_garg.py:254-266 | processing the output of a one-field phone record again changes neither flag nor record |
| Remasking.AadharAloneTwice | detector_full_dhananjay_garg.py:254-266 | processing the output of a one-field twelve-digit aadhar record again turns the masked number into "[REDACTED]" |
| Scenarios.PhoneAlone | detector_full_dhananjay_garg.py:27-28 | a ten-digit phone field alone is PII and keeps only its first and last two digits |
| Scenarios.EmailAlone | detector_full_dhananjay_garg.py:36-37 | an email address whose user part starts with a letter and is made of `[\w.]`, alone in its record, is PII through upi_pattern, and its user part is masked |
| Scenarios.SymbolEmailAlone | detector_full_dhananjay_garg.py:21-39 | an email address with '-', '+' or '%' in a user part that starts with a letter followed by a non-digit, alone in its record, passes is_valid_email but is not PII, and the record comes out unchanged |
| Scenarios.PassportShapedEmail | detector_full_dhananjay_garg.py:33-34 | a valid email address whose user part begins with a passport number and then '-', '+' or '%', such as "A1234567-x@ab.cd", is standalone PII in every field |
| Scenarios.PhoneShapedEmail | detector_full_dhananjay_garg.py:27-28 | a valid email address whose user part begins with ten digits and then '-', '+' or '%', such as "9876543210-x@ab.cd", is standalone PII in every field |
| Scenarios.ShortWordFacts | detector_full_dhananjay_garg.py:41-53 | a short single word is not a valid name, gives no combinatorial entry as a `name` value, and is not standalone PII outside the four standalone fields |
| Scenarios.NameBelowThreshold | detector_full_dhananjay_garg.py:64-83 | a one-word name with one other field stays below two entries |
| Scenarios.NameAndEmail | detector_full_dhananjay_garg.py:85-110 | a short one-word name next to an email address whose user part starts with a letter and is made of `[\w.]`, and whose rest starts with a word character: PII, only the email masked |
| Scenarios.NameSymbolNotPicked | detector_full_dhananjay_garg.py:21-39 | neither a short one-word name nor an address with '-', '+' or '%' in a user part that starts with a letter and a non-digit is standalone PII |
| Scenarios.NameAndSymbolEmail | detector_full_dhananjay_garg.py:85-110 | a short one-word name next to a valid email address with '-', '+' or '%' in a user part that starts with a letter and a non-digit: not PII, record unchanged |
| Scenarios.NameAndOther | detector_full_dhananjay_garg.py:85-110 | a one-word name next to a short word in an ordinary field: not PII, unchanged |

## Left out

- Reading and writing CSV files, the record counters, printing, `sys.exit`
  and the entry point (lines 210-289, except 254-266) are I/O. They are not
  part of this model.
- `json.loads` and `json.dumps` are foreign library calls. A record is the
  already decoded map. When a record is not PII, the code writes its
  original JSON text (line 266). The model returns the decoded record
  unchanged in its place.
- The exception handler around one record (lines 267-269) is not part of
  this model. The parse-error path depends on `json.loads`.
- `fix_malformed_json`, `detect_pii_in_raw_string` and
  `redact_pii_in_raw_string` (lines 145-208) are not part of this model.
  They search and replace over arbitrary text with `re.finditer` and
  `str.replace`, and would need a model of a regex engine.
- `\w`, `\s`, `\d`, `str.strip()` and `str.split()` are modelled on ASCII
  only, and Unicode letters, digits and spaces are not covered. Values are
  strings; `str(value)` on numbers, lists or dicts, and the exceptions that
  non-string values raise in `strip()`, are not modelled.
- `Detector.HasCombinatorialPii` builds the list `pii_fields_present` as a
  real list, appended in visiting order. Its loop invariant tracks only the
  list's length and whether it holds "name_parts", not the order of its
  entries. The result depends on nothing else.
- `Detector.DetectPiiInRecord` and `Pipeline.RedactRecord`: Python dicts
  remember insertion order and Dafny maps do not. The order of keys in the
  JSON written out is not modelled.
- `Detector.MaskCombinatorialFields` is the second loop of
  `detect_pii_in_record`, written as a method of its own.
