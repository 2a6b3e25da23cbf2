/** The contact form's submit handler: three checks in a fixed order, the
    first failure reported and the rest skipped, and the untouched field
    values handed on when every check passes. */
module ContactForm {
  import opened JsText

  /** The five values read from the form's inputs. */
  datatype Form = Form(name: string, email: string, phone: string, service: string, message: string)

  /** What the handler does: show one of three error messages, or submit. */
  datatype Verdict = FillAll | BadEmail | BadPhone | Submit(form: Form)

  /** The text and style class passed to the message box. */
  datatype Notice = Notice(text: string, kind: string)

  // ---------------------------------------------------------------------
  // The email check, character by character

  /** Occurrences of `c` in `s`. */
  function CountChar(s: string, c: char): (n: nat)
    ensures n == multiset(s)[c]
  {
    if s == [] then 0
    else
      assert s == [s[0]] + s[1..];
      (if s[0] == c then 1 else 0) + CountChar(s[1..], c)
  }

  /** Index of the first `c` in `s`, or `|s|` when there is none. */
  function IndexOf(s: string, c: char): (i: nat)
    ensures i <= |s|
    ensures i < |s| ==> s[i] == c
    ensures forall k :: 0 <= k < i ==> s[k] != c
  {
    if s == [] then 0
    else if s[0] == c then 0
    else 1 + IndexOf(s[1..], c)
  }

  /** The domain has a '.' that is neither its first nor its last character. */
  predicate HasInnerDot(d: string)
  {
    exists k :: 0 < k < |d| - 1 && d[k] == '.'
  }

  /** The email check as a conjunction of character-level tests: one '@',
      no whitespace, something before the '@', and an inner '.' after it. */
  predicate IsValidEmail(s: string)
  {
    && NoWs(s)
    && CountChar(s, '@') == 1
    && var at := IndexOf(s, '@');
       0 < at < |s| && HasInnerDot(s[at + 1..])
  }

  /** A run of the class `[^\s@]+`: non-empty, no whitespace, no '@'. */
  ghost predicate PlainRun(t: string)
  {
    |t| > 0 && forall k :: 0 <= k < |t| ==> !IsWs(t[k]) && t[k] != '@'
  }

  /** The pattern `^[^\s@]+@[^\s@]+\.[^\s@]+$` read as its own shape: the
      whole string splits as A '@' B '.' C with A, B and C plain runs. */
  ghost predicate MatchesEmailPattern(s: string)
  {
    exists i, j :: 0 <= i < j < |s| && s[i] == '@' && s[j] == '.'
      && PlainRun(s[..i]) && PlainRun(s[i + 1..j]) && PlainRun(s[j + 1..])
  }

  /** `PlainRun` stated over a slice of a larger string, index by index. */
  lemma PlainSlice(s: string, lo: nat, hi: nat)
    requires lo < hi <= |s|
    requires forall m :: lo <= m < hi ==> !IsWs(s[m]) && s[m] != '@'
    ensures PlainRun(s[lo..hi])
  {
    var t := s[lo..hi];
    forall m | 0 <= m < |t| ensures !IsWs(t[m]) && t[m] != '@' {
      assert t[m] == s[lo + m];
    }
  }

  /** A single '@' at index `i` means no other index holds one. */
  lemma OnlyAt(s: string, i: nat)
    requires i < |s| && s[i] == '@' && multiset(s)['@'] == 1
    ensures forall m :: 0 <= m < |s| && m != i ==> s[m] != '@'
  {
    var a, b := s[..i], s[i + 1..];
    assert s == a + [s[i]] + b;
    assert '@' !in a && '@' !in b;
    forall m | 0 <= m < |s| && m != i ensures s[m] != '@' {
      if m < i {
        assert s[m] == a[m];
      } else {
        assert s[m] == b[m - i - 1];
      }
    }
  }

  /** Every string the character-level check accepts matches the pattern. */
  lemma EmailCheckSound(s: string)
    requires IsValidEmail(s)
    ensures MatchesEmailPattern(s)
  {
    var i := IndexOf(s, '@');
    var d := s[i + 1..];
    var k :| 0 < k < |d| - 1 && d[k] == '.';
    var j := i + 1 + k;
    assert s[j] == d[k];
    OnlyAt(s, i);
    PlainSlice(s, 0, i);
    PlainSlice(s, i + 1, j);
    PlainSlice(s, j + 1, |s|);
    assert s[..i] == s[0..i];
    assert s[j + 1..] == s[j + 1..|s|];
  }

  /** `PlainRun` of a slice read back index by index on the larger string. */
  lemma PlainAt(s: string, lo: nat, hi: nat)
    requires lo <= hi <= |s| && PlainRun(s[lo..hi])
    ensures forall m :: lo <= m < hi ==> !IsWs(s[m]) && s[m] != '@'
  {
    forall m | lo <= m < hi ensures !IsWs(s[m]) && s[m] != '@' {
      assert s[m] == s[lo..hi][m - lo];
    }
  }

  /** An '@' at index `i` and nowhere else is counted once. */
  lemma CountOneAt(s: string, i: nat)
    requires i < |s| && s[i] == '@'
    requires forall m :: 0 <= m < |s| && m != i ==> s[m] != '@'
    ensures CountChar(s, '@') == 1
  {
    var a, b := s[..i], s[i + 1..];
    assert s == a + [s[i]] + b;
    assert '@' !in a by {
      forall m | 0 <= m < |a| ensures a[m] != '@' { assert a[m] == s[m]; }
    }
    assert '@' !in b by {
      forall m | 0 <= m < |b| ensures b[m] != '@' { assert b[m] == s[i + 1 + m]; }
    }
  }

  /** The character-level check, given the positions of the '@' and of the
      '.' and what every other position holds. */
  lemma ValidAtPositions(s: string, i: nat, j: nat)
    requires 0 < i && i + 1 < j && j + 1 < |s| && s[i] == '@' && s[j] == '.'
    requires forall m :: 0 <= m < |s| && m != i && m != j ==> !IsWs(s[m]) && s[m] != '@'
    ensures IsValidEmail(s)
  {
    CountOneAt(s, i);
    assert NoWs(s);
    var at := IndexOf(s, '@');
    assert at == i;
    var d := s[i + 1..];
    assert d[j - i - 1] == s[j];
    assert HasInnerDot(d);
  }

  /** Every string the pattern matches passes the character-level check. */
  lemma EmailCheckComplete(s: string)
    requires MatchesEmailPattern(s)
    ensures IsValidEmail(s)
  {
    var i, j :| 0 <= i < j < |s| && s[i] == '@' && s[j] == '.'
      && PlainRun(s[..i]) && PlainRun(s[i + 1..j]) && PlainRun(s[j + 1..]);
    assert s[..i] == s[0..i] && s[j + 1..] == s[j + 1..|s|];
    PlainAt(s, 0, i);
    PlainAt(s, i + 1, j);
    PlainAt(s, j + 1, |s|);
    ValidAtPositions(s, i, j);
  }

  /** The character-level check accepts exactly what the pattern matches. */
  lemma EmailCheckIsPattern(s: string)
    ensures IsValidEmail(s) <==> MatchesEmailPattern(s)
  {
    if IsValidEmail(s) {
      EmailCheckSound(s);
    }
    if MatchesEmailPattern(s) {
      EmailCheckComplete(s);
    }
  }

  // ---------------------------------------------------------------------
  // The phone check

  /** The pattern `^[0-9]{11}$`: exactly eleven ASCII digits. */
  predicate IsElevenDigits(t: string)
  {
    |t| == 11 && AllDigits(t)
  }

  /** The phone check: the pattern is tested against the phone with every
      whitespace character removed. */
  predicate IsValidPhone(phone: string)
  {
    IsElevenDigits(StripWs(phone))
  }

  /** Testing an already stripped phone gives the same verdict. */
  lemma PhoneVerdictStable(phone: string)
    ensures IsValidPhone(StripWs(phone)) == IsValidPhone(phone)
  {
    StripWsIdempotent(phone);
  }

  /** Whitespace anywhere in the phone is ignored by the check: inserting
      blanks between two parts does not change the verdict. */
  lemma {:induction false} PhoneIgnoresInsertedBlanks(a: string, blanks: string, b: string)
    requires forall k :: 0 <= k < |blanks| ==> IsWs(blanks[k])
    ensures IsValidPhone(a + blanks + b) == IsValidPhone(a + b)
  {
    StripWsAppend(a + blanks, b);
    StripWsAppend(a, blanks);
    StripWsAppend(a, b);
    StripWsOfBlank(blanks);
    assert StripWs(a) + [] == StripWs(a);
  }

  // ---------------------------------------------------------------------
  // The submit handler

  /** Every field is non-empty (`!value` is false only for ""). */
  predicate AllFilled(name: string, email: string, phone: string, service: string, message: string)
  {
    name != "" && email != "" && phone != "" && service != "" && message != ""
  }

  /** The handler's decision. Only the empty string fails the first check;
      the email check comes second and the phone check last; a submission
      carries the five values exactly as they were read. */
  function Validate(name: string, email: string, phone: string, service: string, message: string): (r: Verdict)
    ensures r == FillAll <==> !AllFilled(name, email, phone, service, message)
    ensures r == BadEmail <==>
      AllFilled(name, email, phone, service, message) && !MatchesEmailPattern(email)
    ensures r == BadPhone <==>
      AllFilled(name, email, phone, service, message) && MatchesEmailPattern(email)
      && !IsElevenDigits(StripWs(phone))
    ensures r.Submit? <==>
      AllFilled(name, email, phone, service, message) && MatchesEmailPattern(email)
      && IsElevenDigits(StripWs(phone))
    ensures r.Submit? ==> r.form == Form(name, email, phone, service, message)
  {
    EmailCheckIsPattern(email);
    if !AllFilled(name, email, phone, service, message) then FillAll
    else if !IsValidEmail(email) then BadEmail
    else if !IsValidPhone(phone) then BadPhone
    else Submit(Form(name, email, phone, service, message))
  }

  /** An empty field is reported even when the email is malformed too: the
      emptiness check masks the email check. */
  lemma EmptyFieldMasksEmail(name: string, email: string, phone: string, service: string, message: string)
    requires name == "" || phone == "" || service == "" || message == ""
    requires !IsValidEmail(email)
    ensures Validate(name, email, phone, service, message) == FillAll
  {
  }

  /** A phone of blanks only passes the emptiness check and is then rejected
      by the phone check. */
  lemma BlankPhoneIsBadPhone(name: string, email: string, phone: string, service: string, message: string)
    requires name != "" && service != "" && message != ""
    requires IsValidEmail(email)
    requires phone != "" && forall k :: 0 <= k < |phone| ==> IsWs(phone[k])
    ensures Validate(name, email, phone, service, message) == BadPhone
  {
    StripWsOfBlank(phone);
    EmailCheckIsPattern(email);
  }

  /** A phone typed in three groups separated by spaces is accepted, and the
      submitted value still has its spaces. */
  lemma SpacedPhoneSubmittedAsTyped(name: string, email: string, service: string, message: string,
                                    a: string, b: string, c: string)
    requires name != "" && service != "" && message != ""
    requires IsValidEmail(email)
    requires IsElevenDigits(a + b + c)
    ensures Validate(name, email, a + " " + b + " " + c, service, message)
         == Submit(Form(name, email, a + " " + b + " " + c, service, message))
  {
    assert NoWs(a + b + c) by {
      forall k | 0 <= k < |a + b + c| ensures !IsWs((a + b + c)[k]) {
        assert IsAsciiDigit((a + b + c)[k]);
      }
    }
    StripWsOfClean(a + b + c);
    assert a + " " + b + " " + c == a + " " + (b + " " + c);
    PhoneIgnoresInsertedBlanks(a, " ", b + " " + c);
    assert a + (b + " " + c) == (a + b) + " " + c;
    PhoneIgnoresInsertedBlanks(a + b, " ", c);
    EmailCheckIsPattern(email);
  }

  /** The message the handler shows for each verdict; a submission shows the
      success text once the simulated send completes. */
  function NoticeFor(v: Verdict): (n: Notice)
    ensures n.kind == "error" <==> !v.Submit?
    ensures n.kind == "success" <==> v.Submit?
    ensures v == FillAll ==> n.text == "Please fill in all fields."
    ensures v == BadEmail ==> n.text == "Please enter a valid email address."
    ensures v == BadPhone ==> n.text == "Please enter a valid 11-digit phone number."
    ensures v.Submit? ==> n.text == "Thank you! Your message has been sent successfully. We will get back to you soon."
  {
    match v
    case FillAll => Notice("Please fill in all fields.", "error")
    case BadEmail => Notice("Please enter a valid email address.", "error")
    case BadPhone => Notice("Please enter a valid 11-digit phone number.", "error")
    case Submit(_) => Notice("Thank you! Your message has been sent successfully. We will get back to you soon.", "success")
  }
}
