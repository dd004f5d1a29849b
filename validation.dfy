/**
 * Client-side validation of the contact form: the trimmed record built from
 * the raw control values, and the three checks applied in order (required
 * fields, e-mail shape, Norwegian phone shape), the first failure winning.
 */
module Validation {
  import opened Wrappers
  import opened Text

  /**
   * The values read from the form controls. `location` and `inspection` are
   * None when the page has no such control (the optional-chaining reads).
   */
  datatype RawForm = RawForm(
    name: string,
    email: string,
    phone: string,
    location: Option<string>,
    projectType: string,
    description: string,
    inspection: Option<bool>)

  /** The record handed to the transport. */
  datatype FormData = FormData(
    name: string,
    email: string,
    phone: string,
    location: string,
    projectType: string,
    description: string,
    wantInspection: bool)

  datatype ErrorKind = MissingRequiredField | InvalidEmail | InvalidPhone

  datatype Verdict = Accepted | Rejected(kind: ErrorKind)

  const MissingFieldsMessage := "Vennligst fyll ut alle obligatoriske felt."
  const InvalidEmailMessage := "Vennligst oppgi en gyldig e-postadresse."
  const InvalidPhoneMessage := "Vennligst oppgi et gyldig telefonnummer."

  /** The user-facing text of each rejection. */
  function UserMessage(kind: ErrorKind): string {
    match kind
    case MissingRequiredField => MissingFieldsMessage
    case InvalidEmail => InvalidEmailMessage
    case InvalidPhone => InvalidPhoneMessage
  }

  /**
   * Builds the record: text fields are trimmed, the project type is taken
   * as is, a missing location is "" and a missing checkbox is unchecked.
   */
  function Collect(raw: RawForm): FormData {
    FormData(
      Trim(raw.name),
      Trim(raw.email),
      Trim(raw.phone),
      match raw.location { case None => [] case Some(v) => Trim(v) },
      raw.projectType,
      Trim(raw.description),
      match raw.inspection { case None => false case Some(b) => b })
  }

  /**
   * The collected record has no whitespace at the ends of its text fields,
   * each is its control's text with only end whitespace removed, a text
   * field is empty exactly when its control held only whitespace, and
   * the project type and the two optional controls are passed on as read.
   */
  lemma CollectTrims(raw: RawForm)
    ensures var d := Collect(raw);
            && Trimmed(d.name) && Trimmed(d.email) && Trimmed(d.phone)
            && Trimmed(d.location) && Trimmed(d.description)
            && PaddedBy(raw.name, d.name) && PaddedBy(raw.email, d.email)
            && PaddedBy(raw.phone, d.phone) && PaddedBy(raw.description, d.description)
            && (raw.location.Some? ==> PaddedBy(raw.location.value, d.location))
            && (d.name == [] <==> AllWs(raw.name))
            && (d.email == [] <==> AllWs(raw.email))
            && (d.phone == [] <==> AllWs(raw.phone))
            && (d.description == [] <==> AllWs(raw.description))
            && d.projectType == raw.projectType
            && (raw.location.None? ==> d.location == [])
            && (raw.location.Some? ==> (d.location == [] <==> AllWs(raw.location.value)))
            && (d.wantInspection <==> raw.inspection == Some(true))
  {
    TrimSpec(raw.name);
    TrimSpec(raw.email);
    TrimSpec(raw.phone);
    TrimSpec(raw.description);
    TrimPadded(raw.name);
    TrimPadded(raw.email);
    TrimPadded(raw.phone);
    TrimPadded(raw.description);
    if raw.location.Some? {
      TrimSpec(raw.location.value);
      TrimPadded(raw.location.value);
    }
  }

  /** Required-fields rule: an empty string is falsy. */
  predicate RequiredPresent(d: FormData) {
    d.name != [] && d.email != [] && d.phone != [] && d.description != []
  }

  // ---------------------------------------------------------------- e-mail

  /** A character `[^\s@]` accepts. */
  predicate PartChar(c: char) {
    !IsWs(c) && c != '@'
  }

  predicate AllPartChars(s: string) {
    forall k | 0 <= k < |s| :: PartChar(s[k])
  }

  /**
   * `/^[^\s@]+@[^\s@]+\.[^\s@]+$/.test(s)`: s splits as L "@" D "." T with
   * L, D and T non-empty runs of `[^\s@]`; `i` is the '@', `j` the '.'.
   */
  predicate EmailMatches(s: string) {
    exists i, j | 0 < i && i + 1 < j && j + 1 < |s| ::
      && s[i] == '@' && s[j] == '.'
      && AllPartChars(s[..i]) && AllPartChars(s[i + 1..j]) && AllPartChars(s[j + 1..])
  }

  /** '@' occurs in `s` at index `i` and nowhere else. */
  predicate OnlyAtSignAt(s: string, i: int) {
    0 <= i < |s| && s[i] == '@' && forall k | 0 <= k < |s| && k != i :: s[k] != '@'
  }

  /** The domain has a '.' that is neither its first nor its last character. */
  predicate HasInnerDot(domain: string) {
    exists k | 0 < k < |domain| - 1 :: domain[k] == '.'
  }

  /**
   * The shape stated without the regular expression: no whitespace, exactly
   * one '@', a non-empty local part, and a domain with an inner '.'.
   */
  ghost predicate EmailShape(s: string) {
    NoWs(s) && exists i | 0 < i < |s| :: OnlyAtSignAt(s, i) && HasInnerDot(s[i + 1..])
  }

  lemma EmailMatchesIsShape(s: string)
    requires EmailMatches(s)
    ensures EmailShape(s)
  {
    var i, j :| 0 < i && i + 1 < j && j + 1 < |s|
      && s[i] == '@' && s[j] == '.'
      && AllPartChars(s[..i]) && AllPartChars(s[i + 1..j]) && AllPartChars(s[j + 1..]);
    forall k | 0 <= k < |s| && k != i && k != j
      ensures PartChar(s[k])
    {
      if k < i {
        assert s[..i][k] == s[k];
      } else if k < j {
        assert s[i + 1..j][k - i - 1] == s[k];
      } else {
        assert s[j + 1..][k - j - 1] == s[k];
      }
    }
    assert NoWs(s);
    assert OnlyAtSignAt(s, i);
    assert s[i + 1..][j - i - 1] == '.';
    assert HasInnerDot(s[i + 1..]);
  }

  lemma EmailShapeMatches(s: string)
    requires EmailShape(s)
    ensures EmailMatches(s)
  {
  }

  /** The e-mail regular expression accepts exactly the local@domain.tld shape. */
  lemma EmailMatchesIff(s: string)
    ensures EmailMatches(s) <==> EmailShape(s)
  {
    if EmailMatches(s) { EmailMatchesIsShape(s); }
    if EmailShape(s) { EmailShapeMatches(s); }
  }

  // ----------------------------------------------------------------- phone

  /** `[2-9]\d{7}`: eight ASCII digits, the first one 2 to 9. */
  predicate SubscriberNumber(t: string) {
    |t| == 8 && '2' <= t[0] <= '9' && forall k | 1 <= k < 8 :: IsDigit(t[k])
  }

  /** `[\s]?[2-9]\d{7}$`: at most one whitespace character, then the number. */
  predicate AfterCountryCode(t: string) {
    SubscriberNumber(t) || (|t| > 0 && IsWs(t[0]) && SubscriberNumber(t[1..]))
  }

  /** `/^(\+47)?[\s]?[2-9]\d{7}$/.test(s)`. */
  predicate PhoneMatches(s: string) {
    AfterCountryCode(s) || (|s| >= 3 && s[..3] == "+47" && AfterCountryCode(s[3..]))
  }

  /** A Norwegian number: eight digits, the first 2 to 9, optionally after "+47". */
  ghost predicate NorwegianPhone(c: string) {
    SubscriberNumber(c) || (|c| == 11 && c[..3] == "+47" && SubscriberNumber(c[3..]))
  }

  /** On a string without whitespace the `[\s]?` of the phone pattern never matches. */
  lemma PhoneMatchesWithoutWs(s: string)
    requires NoWs(s)
    ensures PhoneMatches(s) <==> NorwegianPhone(s)
  {
  }

  /** The phone check, stated on the raw control value. */
  lemma PhoneAcceptedIff(phone: string)
    ensures PhoneMatches(StripWs(Trim(phone))) <==> NorwegianPhone(StripWs(phone))
  {
    StripWsOfTrim(phone);
    StripWsSpec(phone);
    PhoneMatchesWithoutWs(StripWs(phone));
  }

  // ------------------------------------------------------------- validator

  /** The three checks in source order; only the first failure is reported. */
  function Validate(d: FormData): Verdict {
    if !RequiredPresent(d) then Rejected(MissingRequiredField)
    else if !EmailMatches(d.email) then Rejected(InvalidEmail)
    else if !PhoneMatches(StripWs(d.phone)) then Rejected(InvalidPhone)
    else Accepted
  }

  /** An all-whitespace name, e-mail, phone or description is the one thing the first rule rejects. */
  lemma MissingFieldRejectedIff(raw: RawForm)
    ensures Validate(Collect(raw)) == Rejected(MissingRequiredField)
        <==> AllWs(raw.name) || AllWs(raw.email) || AllWs(raw.phone) || AllWs(raw.description)
  {
    CollectTrims(raw);
  }

  /** A submission gets past the first rule and fails the e-mail rule exactly when its trimmed e-mail is not of the local@domain.tld shape. */
  lemma InvalidEmailRejectedIff(raw: RawForm)
    ensures Validate(Collect(raw)) == Rejected(InvalidEmail)
        <==> && !AllWs(raw.name) && !AllWs(raw.email) && !AllWs(raw.phone) && !AllWs(raw.description)
             && !EmailShape(Trim(raw.email))
  {
    CollectTrims(raw);
    EmailMatchesIff(Collect(raw).email);
  }

  /** Acceptance on the raw values: every rule stated without regular expressions. */
  lemma AcceptedIff(raw: RawForm)
    ensures Validate(Collect(raw)) == Accepted
        <==> && !AllWs(raw.name)
             && !AllWs(raw.description)
             && EmailShape(Trim(raw.email))
             && NorwegianPhone(StripWs(raw.phone))
  {
    var d := Collect(raw);
    CollectTrims(raw);
    EmailMatchesIff(d.email);
    PhoneAcceptedIff(raw.phone);
    if AllWs(raw.phone) {
      StripWsSpec(raw.phone);
    }
  }

  /** Location, project type and the inspection checkbox never influence the verdict. */
  lemma OptionalFieldsIgnored(d: FormData, location: string, projectType: string, wantInspection: bool)
    ensures Validate(d) ==
            Validate(d.(location := location, projectType := projectType, wantInspection := wantInspection))
  {
  }

  /** A number whose first digit is 1 is refused. */
  lemma LeadingOneRefused(phone: string)
    requires phone == "12345678"
    ensures !PhoneMatches(StripWs(phone))
  {
  }

  /** The "+47" country code in front of an eight-digit number is accepted. */
  lemma CountryCodeAccepted(phone: string)
    requires phone == "+4791234567"
    ensures PhoneMatches(StripWs(phone))
  {
    assert StripWs(phone) == phone by { assert NoWs(phone); StripWsSpec(phone); }
    assert phone[..3] == "+47" && SubscriberNumber(phone[3..]);
  }

  /** Whitespace inside the number is stripped before the check. */
  lemma SpacedNumberAccepted(phone: string)
    requires phone == "9123 4567"
    ensures PhoneMatches(StripWs(phone))
  {
    var a, w, b := phone[..4], phone[4..5], phone[5..];
    assert phone == a + w + b;
    assert StripWs(a) == a by { assert NoWs(a); StripWsSpec(a); }
    assert StripWs(b) == b by { assert NoWs(b); StripWsSpec(b); }
    assert StripWs(w) == [] by { assert AllWs(w); StripWsSpec(w); }
    assert StripWs(phone) == a + b by {
      StripWsAppend(a + w, b);
      StripWsAppend(a, w);
    }
    assert SubscriberNumber(a + b);
  }

  /** "ola@example" has no '.' after its '@' and is refused; "ola@example.com" is accepted. */
  lemma EmailExamples(noTld: string, full: string)
    requires noTld == "ola@example" && full == "ola@example.com"
    ensures !EmailMatches(noTld)
    ensures EmailMatches(full)
  {
    EmailMatchesIff(noTld);
    assert full[3] == '@' && full[11] == '.';
    assert AllPartChars(full[..3]);
    assert full[4..11] == "example";
    assert AllPartChars("example") by {
      forall m | 0 <= m < 7 ensures PartChar("example"[m]) {
        assert "example"[m] in "example";
      }
    }
    assert AllPartChars(full[12..]);
  }
}
