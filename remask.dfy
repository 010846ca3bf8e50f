/** What happens when `mask_value` is applied to its own output, as it is when
    an already-redacted record goes through the detector again. The phone,
    name and email formats leave their own output unchanged; the aadhar
    format does not: a masked number keeps only four digits, so masking it
    again gives the redaction marker. */
module Remasking {
  import opened Text
  import opened Patterns
  import opened Masking
  import opened Detector
  import opened Pipeline

  /** A masked token is its own mask. */
  lemma MaskTokenTwice(w: string)
    ensures MaskToken(MaskToken(w)) == MaskToken(w)
  {
    if |w| > 1 {
      var r := MaskToken(w);
      assert r[1..] == Xs(|w| - 1);
    }
  }

  lemma MaskPhoneTwice(v: string)
    requires |v| >= 3
    ensures |MaskPhone(v)| >= 4
    ensures MaskPhone(v)[0] == v[0] && MaskPhone(v)[|MaskPhone(v)| - 1] == v[|v| - 1]
    ensures MaskPhone(MaskPhone(v)) == MaskPhone(v)
  {
    var r := MaskPhone(v);
    if |v| == 3 {
      MaskPhoneShort(v);
      MaskPhoneShort(r);
    } else {
      MaskPhoneFormat(v);
      MaskPhoneFormat(r);
      var r2 := MaskPhone(r);
      assert r[0] == r[..2][0] && r[|r| - 1] == r[|r| - 2..][1];
      forall k | 0 <= k < |r| ensures r2[k] == r[k] {
        if k < 2 {
          assert r2[k] == r2[..2][k] && r[k] == r[..2][k];
        } else if k >= |r| - 2 {
          assert r2[k] == r2[|r2| - 2..][k - (|r| - 2)] && r[k] == r[|r| - 2..][k - (|r| - 2)];
        }
      }
    }
  }

  /** Masking a phone field twice gives the same as masking it once. */
  lemma PhoneRemask(value: string)
    requires |Strip(value)| >= 3
    ensures MaskValue("phone", MaskValue("phone", value)) == MaskValue("phone", value)
    ensures |Strip(MaskValue("phone", value))| >= 4
  {
    var v := Strip(value);
    MaskPhoneBranch(value);
    MaskPhoneTwice(v);
    var r := MaskPhone(v);
    assert Strip(r) == r;
    MaskPhoneBranch(r);
  }

  /** `' '.join(ws)` starts with the first word and ends with the last. */
  lemma {:induction false} JoinSpacesEnds(ws: seq<string>)
    requires ws != []
    ensures |JoinSpaces(ws)| >= |ws[0]| && JoinSpaces(ws)[..|ws[0]|] == ws[0]
    ensures |JoinSpaces(ws)| >= |ws[|ws| - 1]|
    ensures JoinSpaces(ws)[|JoinSpaces(ws)| - |ws[|ws| - 1]|..] == ws[|ws| - 1]
    decreases |ws|
  {
    if |ws| > 1 {
      var t := JoinSpaces(ws[1..]);
      JoinSpacesEnds(ws[1..]);
      var s := ws[0] + " " + t;
      assert JoinSpaces(ws) == s;
      assert s[..|ws[0]|] == ws[0];
      assert ws[1..][|ws[1..]| - 1] == ws[|ws| - 1];
      assert s[|s| - |t|..] == t;
    }
  }

  lemma MaskNameTwice(v: string)
    ensures MaskName(MaskName(v)) == MaskName(v)
  {
    var ms := MaskTokens(Words(v));
    MaskNameWords(v);
    forall i | 0 <= i < |ms| ensures MaskTokens(ms)[i] == ms[i] {
      MaskTokenTwice(Words(v)[i]);
    }
    assert MaskTokens(ms) == ms;
  }

  /** A masked name of at least one word starts and ends with a masked
      word, so neither end is whitespace, and an 'X' comes first or second. */
  lemma MaskNameEnds(v: string)
    requires Words(v) != []
    ensures var r := MaskName(v);
      && r != [] && !IsSpace(r[0]) && !IsSpace(r[|r| - 1])
      && (r[0] == 'X' || (|r| > 1 && r[1] == 'X'))
  {
    var ws := Words(v);
    var ms := MaskTokens(ws);
    var r := MaskName(v);
    MaskTokenShape(ws[0]);
    MaskTokenShape(ws[|ws| - 1]);
    JoinSpacesEnds(ms);
    var m0 := ms[0];
    var ml := ms[|ms| - 1];
    assert r[0] == r[..|m0|][0] == m0[0];
    assert r[|r| - 1] == r[|r| - |ml|..][|ml| - 1] == ml[|ml| - 1];
    if |ws[0]| > 1 {
      assert r[1] == r[..|m0|][1] == m0[1];
    }
  }

  /** A masked name is stripped already and is never phone-shaped. */
  lemma MaskNameInert(v: string)
    ensures Strip(MaskName(v)) == MaskName(v) && !PhoneMatch(MaskName(v))
  {
    var r := MaskName(v);
    if Words(v) != [] {
      MaskNameEnds(v);
      StripFixed(r);
      PhoneMatchShape(r);
    } else {
      assert r == [];
    }
  }

  /** Masking a name field twice gives the same as masking it once. */
  lemma NameRemask(field: string, value: string)
    requires field in NameFields && !PhoneMatch(Strip(value))
    ensures MaskValue(field, MaskValue(field, value)) == MaskValue(field, value)
  {
    var v := Strip(value);
    MaskNameBranch(field, value);
    MaskNameInert(v);
    MaskNameBranch(field, MaskName(v));
    MaskNameTwice(v);
  }

  /** The redaction marker has no '@', no digit, nothing to strip and is
      not phone-shaped. */
  lemma RedactedInert()
    ensures '@' !in Redacted && DigitsOnly(Redacted) == []
    ensures Strip(Redacted) == Redacted && !PhoneMatch(Redacted)
  {
    RedactedChars(Redacted);
    DigitsOnlyEmpty(Redacted);
    StripFixed(Redacted);
  }

  lemma RedactedChars(r: string)
    requires r == Redacted
    ensures r != [] && r[0] == '[' && r[|r| - 1] == ']'
    ensures forall i :: 0 <= i < |r| ==> r[i] != '@' && !IsDigit(r[i])
  {
  }

  /** A masked user part has no '@' when the user part has none. */
  lemma MaskTokenNoAt(user: string)
    requires '@' !in user
    ensures '@' !in MaskToken(user)
  {
    var u := MaskToken(user);
    if |user| > 1 {
      assert forall i :: 1 <= i < |u| ==> u[i] == Xs(|user| - 1)[i - 1];
    }
  }

  /** A masked user part, an '@' and a kept rest: nothing to strip, and
      the first or second character is an 'X', so not phone-shaped. */
  lemma MaskedEmailInert(user: string, rest: string)
    requires user == [] || !IsSpace(user[0])
    requires rest == [] || !IsSpace(rest[|rest| - 1])
    ensures var r := MaskToken(user) + "@" + rest;
      Strip(r) == r && !PhoneMatch(r)
  {
    var u := MaskToken(user);
    var r := u + "@" + rest;
    assert r[0] == u[0];
    if |user| > 1 {
      assert u[0] == user[0] && r[1] == u[1] == 'X';
    } else {
      assert r[0] == 'X';
    }
    if rest != [] {
      assert r[|r| - 1] == rest[|rest| - 1];
    } else {
      assert r[|r| - 1] == '@';
    }
    StripFixed(r);
    PhoneMatchShape(r);
  }

  /** A masked email is its own mask. */
  lemma MaskedEmailFixed(user: string, rest: string)
    requires '@' !in user
    ensures MaskEmail(MaskToken(user) + "@" + rest) == MaskToken(user) + "@" + rest
  {
    MaskTokenNoAt(user);
    MaskEmailParts(MaskToken(user), rest);
    MaskTokenTwice(user);
  }

  lemma MaskEmailTwiceAt(v: string)
    requires '@' in v && !IsSpace(v[0]) && !IsSpace(v[|v| - 1])
    ensures var r := MaskEmail(v);
      && Strip(r) == r && !PhoneMatch(r)
      && MaskEmail(r) == r
  {
    var k := IndexOf(v, '@');
    var user, rest := v[..k], v[k + 1..];
    assert v == user + "@" + rest;
    assert user != [] ==> user[0] == v[0];
    assert rest != [] ==> rest[|rest| - 1] == v[|v| - 1];
    MaskEmailParts(user, rest);
    MaskedEmailInert(user, rest);
    MaskedEmailFixed(user, rest);
  }

  /** The email format is its own mask: it keeps everything from the first
      '@' on and leaves no '@' before it; without '@' it gives the marker,
      which has none either. */
  lemma MaskEmailTwice(v: string)
    requires v == [] || (!IsSpace(v[0]) && !IsSpace(v[|v| - 1]))
    ensures var r := MaskEmail(v);
      && Strip(r) == r && !PhoneMatch(r)
      && MaskEmail(r) == r
  {
    if '@' in v {
      MaskEmailTwiceAt(v);
    } else {
      RedactedInert();
    }
  }

  /** Masking an email field twice gives the same as masking it once. */
  lemma EmailRemask(value: string)
    requires !PhoneMatch(Strip(value))
    ensures MaskValue("email", MaskValue("email", value)) == MaskValue("email", value)
  {
    var v := Strip(value);
    MaskEmailBranch(value);
    MaskEmailTwice(v);
    MaskEmailBranch(MaskEmail(v));
  }

  /** A masked twelve-digit number keeps four digits, starts and ends with
      a digit and has an 'X' in third place. */
  lemma MaskedNumberDigits(d: string)
    requires |d| == 12 && forall k :: 0 <= k < 12 ==> IsDigit(d[k])
    ensures var r := d[..2] + "XXXXXXXX" + d[10..];
      && |DigitsOnly(r)| == 4 && Strip(r) == r && !PhoneMatch(r)
  {
    var x := "XXXXXXXX";
    var r := d[..2] + x + d[10..];
    DigitsOnlyConcat(d[..2] + x, d[10..]);
    DigitsOnlyConcat(d[..2], x);
    DigitsOnlyEmpty(x);
    assert DigitsOnly(d[..2]) == d[..2];
    assert DigitsOnly(d[10..]) == d[10..];
    assert r[0] == d[0] && r[|r| - 1] == d[11] && r[2] == 'X';
    StripFixed(r);
    PhoneMatchShape(r);
  }

  /** A masked aadhar number has four digits left, and the redaction marker
      none, so a second pass always yields the marker. */
  lemma MaskAadharTwice(v: string)
    ensures var r := MaskAadhar(v);
      && Strip(r) == r && !PhoneMatch(r)
      && MaskAadhar(r) == Redacted
  {
    var d := DigitsOnly(v);
    if |d| == 12 {
      MaskedNumberDigits(d);
    } else {
      RedactedInert();
    }
  }

  /** Masking an aadhar field twice always ends in the redaction marker. */
  lemma AadharRemask(value: string)
    requires !PhoneMatch(Strip(value))
    ensures MaskValue("aadhar", MaskValue("aadhar", value)) == Redacted
  {
    var v := Strip(value);
    MaskAadharBranch(value);
    MaskAadharTwice(v);
    MaskAadharBranch(MaskAadhar(v));
  }

  /** Processing the output of a one-field phone record again changes
      nothing: the same flag, the same record. */
  lemma PhoneAloneTwice(value: string)
    requires |Strip(value)| >= 3
    ensures var out := Process(map["phone" := value]);
      Process(out.1) == out
  {
    var m := MaskValue("phone", value);
    StandaloneRule("phone", value);
    ProcessSingleField("phone", value);
    PhoneRemask(value);
    StandaloneRule("phone", m);
    ProcessSingleField("phone", m);
  }

  /** Processing the output of a one-field aadhar record with twelve digits
      again does change it: the masked number becomes the redaction marker. */
  lemma AadharAloneTwice(value: string)
    requires |DigitsOnly(Strip(value))| == 12 && !PhoneMatch(Strip(value))
    ensures var out := Process(map["aadhar" := value]).1;
      && Process(out) == (true, map["aadhar" := Redacted])
      && out != map["aadhar" := Redacted]
  {
    var v := Strip(value);
    var m := MaskValue("aadhar", value);
    StandaloneRule("aadhar", value);
    ProcessSingleField("aadhar", value);
    MaskAadharShape(value);
    MaskAadharBranch(value);
    MaskAadharTwice(v);
    StandaloneRule("aadhar", m);
    ProcessSingleField("aadhar", m);
    AadharRemask(value);
    assert |m| == 12 && |Redacted| == 10;
    assert map["aadhar" := m]["aadhar"] != map["aadhar" := Redacted]["aadhar"];
  }
}
