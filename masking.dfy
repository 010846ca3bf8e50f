/** `FlixkartPIIDetector.mask_value`: how one value is rewritten once it has
    been judged sensitive. The format depends on the field name, except that
    a value that looks like a phone number is always masked as one. */
module Masking {
  import opened Text
  import opened Patterns

  const Redacted: string := "[REDACTED]"

  /** The fields masked word by word (`name_fields`). */
  const NameFields: seq<string> := ["name", "first_name", "last_name"]

  /** One word of a name, or the user part of an email: the first character
      and then 'X's, or a single 'X' when there is at most one character. */
  function MaskToken(w: string): string {
    if |w| > 1 then [w[0]] + Xs(|w| - 1) else "X"
  }

  function MaskTokens(ws: seq<string>): (r: seq<string>)
    ensures |r| == |ws|
  {
    seq(|ws|, i requires 0 <= i < |ws| => MaskToken(ws[i]))
  }

  /** The phone format: first two characters, an 'X' for each of the
      others but the last two, then the last two. */
  function MaskPhone(v: string): string {
    if |v| == 10 then v[..2] + "XXXXXX" + v[8..]
    else Head2(v) + Xs(|v| - 4) + Tail2(v)
  }

  function MaskAadhar(v: string): string {
    var d := DigitsOnly(v);
    if |d| == 12 then d[..2] + "XXXXXXXX" + d[10..] else Redacted
  }

  function MaskName(v: string): string {
    JoinSpaces(MaskTokens(Words(v)))
  }

  function MaskEmail(v: string): string {
    if '@' in v then
      var k := IndexOf(v, '@');
      MaskToken(v[..k]) + "@" + v[k + 1..]
    else Redacted
  }

  /** mask_value(field, value) */
  function MaskValue(field: string, value: string): string {
    var v := Strip(value);
    if field == "phone" || PhoneMatch(v) then MaskPhone(v)
    else if field == "aadhar" then MaskAadhar(v)
    else if field in NameFields then MaskName(v)
    else if field == "email" then MaskEmail(v)
    else Redacted
  }

  /** A phone-shaped value is masked as a phone number whatever its field. */
  lemma PhoneBranchWins(field: string, value: string)
    requires PhoneMatch(Strip(value))
    ensures MaskValue(field, value) == MaskValue("phone", value)
  {
  }

  /** From four characters on, the phone format keeps the length, the first
      two and the last two characters, and puts 'X' everywhere in between;
      the separate ten-character case agrees with the general format. */
  lemma MaskPhoneShape(field: string, value: string)
    requires field == "phone" || PhoneMatch(Strip(value))
    requires |Strip(value)| >= 4
    ensures var v, r := Strip(value), MaskValue(field, value);
      && |r| == |v|
      && r[..2] == v[..2]
      && r[|r| - 2..] == v[|v| - 2..]
      && forall k :: 2 <= k < |r| - 2 ==> r[k] == 'X'
  {
    assert MaskValue(field, value) == MaskPhone(Strip(value));
    MaskPhoneFormat(Strip(value));
  }

  /** The phone format on its own, applied to an already stripped value;
      MaskPhoneShape is the same fact about mask_value on a field. */
  lemma MaskPhoneFormat(v: string)
    requires |v| >= 4
    ensures var r := MaskPhone(v);
      && |r| == |v|
      && r[..2] == v[..2]
      && r[|r| - 2..] == v[|v| - 2..]
      && forall k :: 2 <= k < |r| - 2 ==> r[k] == 'X'
  {
    var r := MaskPhone(v);
    if |v| == 10 {
      assert Xs(6) == "XXXXXX";
    }
    assert r == v[..2] + Xs(|v| - 4) + v[|v| - 2..];
  }

  /** A phone field whose stripped value has three or four characters is
      "masked" into a string that shows every one of its characters: the
      first two and the last two overlap or touch. */
  lemma MaskPhoneShortValue(value: string)
    requires 3 <= |Strip(value)| <= 4
    ensures var v, r := Strip(value), MaskValue("phone", value);
      r == v[..2] + v[|v| - 2..] && (|v| == 4 ==> r == v)
  {
    MaskPhoneBranch(value);
    MaskPhoneShort(Strip(value));
  }

  /** The phone format on its own for three or four characters;
      MaskPhoneShortValue is the same fact about a phone field. */
  lemma MaskPhoneShort(v: string)
    requires 3 <= |v| <= 4
    ensures MaskPhone(v) == v[..2] + v[|v| - 2..] && (|v| == 4 ==> MaskPhone(v) == v)
  {
    assert Xs(|v| - 4) == "";
    assert MaskPhone(v) == v[..2] + "" + v[|v| - 2..];
    if |v| == 4 {
      assert v == v[..2] + v[2..];
    }
  }

  /** An aadhar value keeps only its digits; with twelve of them the first two
      and the last two survive around eight 'X's, otherwise the whole value is
      replaced by the redaction marker. */
  lemma MaskAadharShape(value: string)
    requires !PhoneMatch(Strip(value))
    ensures var d, r := DigitsOnly(Strip(value)), MaskValue("aadhar", value);
      && (|d| == 12 ==>
            |r| == 12 && r[..2] == d[..2] && r[10..] == d[10..]
            && (forall k :: 2 <= k < 10 ==> r[k] == 'X')
            && (forall k :: 0 <= k < 12 ==> IsDigit(r[k]) || r[k] == 'X'))
      && (|d| != 12 ==> r == Redacted)
  {
    MaskAadharBranch(value);
    MaskAadharDigits(Strip(value));
  }

  /** Unless phone-shaped, an aadhar field is masked by the aadhar format. */
  lemma MaskAadharBranch(value: string)
    requires !PhoneMatch(Strip(value))
    ensures MaskValue("aadhar", value) == MaskAadhar(Strip(value))
  {
  }

  /** The aadhar format on its own; MaskAadharShape is the same fact about
      mask_value on an aadhar field. */
  lemma MaskAadharDigits(v: string)
    ensures var d, r := DigitsOnly(v), MaskAadhar(v);
      && (|d| == 12 ==>
            |r| == 12 && r[..2] == d[..2] && r[10..] == d[10..]
            && (forall k :: 2 <= k < 10 ==> r[k] == 'X')
            && (forall k :: 0 <= k < 12 ==> IsDigit(r[k]) || r[k] == 'X'))
      && (|d| != 12 ==> r == Redacted)
  {
    var d := DigitsOnly(v);
    if |d| == 12 {
      var r := d[..2] + "XXXXXXXX" + d[10..];
      assert r[..2] == d[..2];
      assert r[10..] == d[10..];
    }
  }

  lemma MaskTokenShape(w: string)
    requires IsToken(w)
    ensures var r := MaskToken(w);
      && |r| == |w|
      && IsToken(r)
      && (|w| > 1 ==> r[0] == w[0])
      && (forall k :: (if |w| > 1 then 1 else 0) <= k < |r| ==> r[k] == 'X')
  {
    var r := MaskToken(w);
    if |w| > 1 {
      assert r[0] == w[0];
      assert forall k :: 1 <= k < |r| ==> r[k] == Xs(|w| - 1)[k - 1];
    }
  }

  /** A name keeps its words: splitting the masked value gives one masked word
      per word of the value, each as long as the original word, keeping its
      first character when it has more than one, and 'X' everywhere else; the
      words are joined by single spaces. */
  lemma MaskNameShape(field: string, value: string)
    requires field in NameFields && !PhoneMatch(Strip(value))
    ensures var ws, r := Words(Strip(value)), MaskValue(field, value);
      && Words(r) == MaskTokens(ws)
      && r == JoinSpaces(Words(r))
      && |Words(r)| == |ws|
      && forall i :: 0 <= i < |ws| ==>
           && |Words(r)[i]| == |ws[i]|
           && (|ws[i]| > 1 ==> Words(r)[i][0] == ws[i][0])
           && (forall k :: (if |ws[i]| > 1 then 1 else 0) <= k < |ws[i]| ==> Words(r)[i][k] == 'X')
  {
    MaskNameBranch(field, value);
    MaskNameWords(Strip(value));
  }

  /** Unless phone-shaped, a name field is masked word by word. */
  lemma MaskNameBranch(field: string, value: string)
    requires field in NameFields && !PhoneMatch(Strip(value))
    ensures MaskValue(field, value) == MaskName(Strip(value))
  {
  }

  /** A single word that already has the masked shape — a first character
      and then only 'X's — is kept as it is by a name field. */
  lemma MaskedWordKept(field: string, w: string)
    requires field in NameFields && IsToken(w) && |w| >= 2
    requires forall k :: 1 <= k < |w| ==> w[k] == 'X'
    ensures MaskValue(field, w) == w
  {
    StripFixed(w);
    PhoneMatchShape(w);
    MaskNameBranch(field, w);
    WordsOfToken(w);
    assert MaskTokens([w]) == [MaskToken(w)];
    assert MaskToken(w) == w;
  }

  /** The name format on its own; MaskNameShape is the same fact about
      mask_value on a name field. */
  lemma MaskNameWords(v: string)
    ensures var ws, r := Words(v), MaskName(v);
      && Words(r) == MaskTokens(ws)
      && r == JoinSpaces(Words(r))
      && forall i :: 0 <= i < |ws| ==>
           && |Words(r)[i]| == |ws[i]|
           && (|ws[i]| > 1 ==> Words(r)[i][0] == ws[i][0])
           && (forall k :: (if |ws[i]| > 1 then 1 else 0) <= k < |ws[i]| ==> Words(r)[i][k] == 'X')
  {
    var ws := Words(v);
    var ms := MaskTokens(ws);
    forall i | 0 <= i < |ws|
      ensures IsToken(ms[i]) && |ms[i]| == |ws[i]|
      ensures |ws[i]| > 1 ==> ms[i][0] == ws[i][0]
      ensures forall k :: (if |ws[i]| > 1 then 1 else 0) <= k < |ws[i]| ==> ms[i][k] == 'X'
    {
      MaskTokenShape(ws[i]);
    }
    WordsOfJoin(ms);
  }

  /** An email keeps everything from its first '@' on; the part before it
      becomes its first character and 'X's when longer than one character,
      and a single 'X' otherwise. Without '@' the value is redacted. */
  lemma MaskEmailShape(value: string)
    requires !PhoneMatch(Strip(value))
    ensures var v, r := Strip(value), MaskValue("email", value);
      && ('@' !in v ==> r == Redacted)
      && ('@' in v ==>
            var k := IndexOf(v, '@');
            && |r| == (if k > 1 then |v| else |v| - k + 1)
            && r[|r| - (|v| - k)..] == v[k..]
            && (k > 1 ==> r[0] == v[0] && forall i :: 1 <= i < k ==> r[i] == 'X')
            && (k <= 1 ==> r[0] == 'X'))
  {
    var v := Strip(value);
    MaskEmailBranch(value);
    if '@' in v {
      MaskEmailSplit(v);
    }
  }

  /** The email format on its own, for a value holding an '@';
      MaskEmailShape is the fact about mask_value on an email field, both
      with and without '@'. */
  lemma MaskEmailSplit(v: string)
    requires '@' in v
    ensures var k, r := IndexOf(v, '@'), MaskEmail(v);
      && |r| == (if k > 1 then |v| else |v| - k + 1)
      && r[|r| - (|v| - k)..] == v[k..]
      && (k > 1 ==> r[0] == v[0] && forall i :: 1 <= i < k ==> r[i] == 'X')
      && (k <= 1 ==> r[0] == 'X')
  {
    var k := IndexOf(v, '@');
    assert v[k..] == "@" + v[k + 1..];
    assert MaskEmail(v) == MaskToken(v[..k]) + v[k..];
    MaskTokenThen(v[..k], v[k..]);
  }

  /** A masked token followed by text that is kept. */
  lemma MaskTokenThen(w: string, t: string)
    ensures var r := MaskToken(w) + t;
      && |r| == (if |w| > 1 then |w| else 1) + |t|
      && r[|r| - |t|..] == t
      && (|w| > 1 ==> r[0] == w[0] && forall i :: 1 <= i < |w| ==> r[i] == 'X')
      && (|w| <= 1 ==> r[0] == 'X')
  {
    var u := MaskToken(w);
    var r := u + t;
    assert r[|u|..] == t;
    if |w| > 1 {
      assert forall i :: 1 <= i < |w| ==> r[i] == Xs(|w| - 1)[i - 1];
    }
  }

  /** Every field other than phone, aadhar, the name fields and email is
      replaced by the redaction marker unless its value is phone-shaped. */
  lemma MaskOtherFieldRedacted(field: string, value: string)
    requires field !in NameFields && field !in ["phone", "aadhar", "email"]
    requires !PhoneMatch(Strip(value))
    ensures MaskValue(field, value) == Redacted
  {
  }

  /** In particular device_id and ip_address values are redacted unless
      phone-shaped. */
  lemma MaskDeviceRedacted(field: string, value: string)
    requires field == "device_id" || field == "ip_address"
    requires !PhoneMatch(Strip(value))
    ensures MaskValue(field, value) == Redacted
  {
    MaskOtherFieldRedacted(field, value);
  }

  /** Unless phone-shaped, an email field is masked by the email format. */
  lemma MaskEmailBranch(value: string)
    requires !PhoneMatch(Strip(value))
    ensures MaskValue("email", value) == MaskEmail(Strip(value))
  {
  }

  /** The email format cuts at the first '@': the part before it is masked
      like a name word and the rest is kept as it is. */
  lemma MaskEmailParts(user: string, rest: string)
    requires '@' !in user
    ensures MaskEmail(user + "@" + rest) == MaskToken(user) + "@" + rest
  {
    var v := user + "@" + rest;
    assert v[|user|] == '@';
    var k := IndexOf(v, '@');
    assert v[..k] == user;
    assert v[k + 1..] == rest;
  }

  /** A phone field is always masked by the phone format. */
  lemma MaskPhoneBranch(value: string)
    ensures MaskValue("phone", value) == MaskPhone(Strip(value))
  {
  }
}
