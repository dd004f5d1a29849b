/**
 * The submit handler of the contact form: the button goes to its sending
 * state, the record is collected and validated, the transport is called
 * only for an accepted record, the outcome is presented, and the button is
 * restored on every exit path.
 */
module Submission {
  import opened Wrappers
  import opened Text
  import opened Validation
  import opened Presenter

  const SendingText := "Sender..."
  const ThanksMessage := "Takk for din henvendelse! Vi vil kontakte deg så snart som mulig."
  const GenericErrorMessage := "Beklager, noe gikk galt. Vennligst prøv igjen eller ring oss direkte."

  /**
   * How the awaited transport call settles: it resolves with a response
   * carrying `success` and perhaps `error`, or it throws.
   */
  datatype TransportOutcome =
    | Resolved(success: bool, error: Option<string>)
    | Threw(reason: string)

  predicate Succeeded(outcome: TransportOutcome) {
    outcome.Resolved? && outcome.success
  }

  /** One transport invocation, with the button state the user sees while it is pending. */
  datatype Call = Call(data: FormData, buttonDisabled: bool, buttonText: string)

  /** What one submission does that the user or the transport can observe. */
  datatype Attempt = Attempt(sent: Option<FormData>, message: string, severity: Severity, reset: bool)

  /** The effect of one submission of the raw control values, given how the transport settles. */
  function Handle(raw: RawForm, outcome: TransportOutcome): Attempt {
    var data := Collect(raw);
    match Validate(data)
    case Rejected(kind) => Attempt(None, UserMessage(kind), Error, false)
    case Accepted =>
      if Succeeded(outcome) then Attempt(Some(data), ThanksMessage, Success, true)
      else Attempt(Some(data), GenericErrorMessage, Error, false)
  }

  /** The transport is called exactly when the record passes validation, and it gets the trimmed record. */
  lemma SentIffAccepted(raw: RawForm, outcome: TransportOutcome)
    ensures Handle(raw, outcome).sent == (if Validate(Collect(raw)) == Accepted then Some(Collect(raw)) else None)
  {
  }

  /** A missing required field shows the fixed missing-fields text, whatever the e-mail, phone or transport. */
  lemma MissingFieldShown(raw: RawForm, outcome: TransportOutcome)
    requires AllWs(raw.name) || AllWs(raw.email) || AllWs(raw.phone) || AllWs(raw.description)
    ensures Handle(raw, outcome) == Attempt(None, "Vennligst fyll ut alle obligatoriske felt.", Error, false)
  {
    MissingFieldRejectedIff(raw);
    CollectTrims(raw);
  }

  /** A present record whose trimmed e-mail lacks the local@domain.tld shape shows the fixed e-mail text. */
  lemma InvalidEmailShown(raw: RawForm, outcome: TransportOutcome)
    requires !AllWs(raw.name) && !AllWs(raw.email) && !AllWs(raw.phone) && !AllWs(raw.description)
    requires !EmailShape(Trim(raw.email))
    ensures Handle(raw, outcome) == Attempt(None, "Vennligst oppgi en gyldig e-postadresse.", Error, false)
  {
    InvalidEmailRejectedIff(raw);
  }

  /** A present record with a well-formed e-mail and a phone that is not Norwegian shows the fixed phone text. */
  lemma InvalidPhoneShown(raw: RawForm, outcome: TransportOutcome)
    requires !AllWs(raw.name) && !AllWs(raw.email) && !AllWs(raw.phone) && !AllWs(raw.description)
    requires EmailShape(Trim(raw.email)) && !NorwegianPhone(StripWs(raw.phone))
    ensures Handle(raw, outcome) == Attempt(None, "Vennligst oppgi et gyldig telefonnummer.", Error, false)
  {
    MissingFieldRejectedIff(raw);
    InvalidEmailRejectedIff(raw);
    AcceptedIff(raw);
  }

  /** An accepted record whose transport call fails or throws is sent, and the generic error text is shown. */
  lemma TransportFailureShown(raw: RawForm, outcome: TransportOutcome)
    requires !AllWs(raw.name) && !AllWs(raw.description)
    requires EmailShape(Trim(raw.email)) && NorwegianPhone(StripWs(raw.phone))
    requires !Succeeded(outcome)
    ensures Handle(raw, outcome)
         == Attempt(Some(Collect(raw)), "Beklager, noe gikk galt. Vennligst prøv igjen eller ring oss direkte.", Error, false)
  {
    AcceptedIff(raw);
  }

  /** Whatever reached the transport has a well-formed e-mail, a Norwegian phone and the trimmed, unstripped phone text. */
  lemma SentRecordWellFormed(raw: RawForm, outcome: TransportOutcome)
    requires Handle(raw, outcome).sent.Some?
    ensures var d := Handle(raw, outcome).sent.value;
            && d.name != [] && d.description != []
            && EmailShape(d.email)
            && NorwegianPhone(StripWs(d.phone))
            && d.phone == Trim(raw.phone)
  {
    AcceptedIff(raw);
    CollectTrims(raw);
    StripWsOfTrim(raw.phone);
  }

  /** The form is reset exactly after an accepted record and a successful response, and then the thank-you text is shown as a success. */
  lemma ResetOnlyAfterSuccess(raw: RawForm, outcome: TransportOutcome)
    ensures Handle(raw, outcome).reset <==> Validate(Collect(raw)) == Accepted && Succeeded(outcome)
    ensures Handle(raw, outcome).severity == Success <==> Handle(raw, outcome).reset
    ensures Handle(raw, outcome).reset ==> Handle(raw, outcome).message == ThanksMessage
  {
  }

  /** The text of a failed response or a thrown error never reaches the user: every failure looks the same. */
  lemma FailureReasonHidden(raw: RawForm, o1: TransportOutcome, o2: TransportOutcome)
    requires !Succeeded(o1) && !Succeeded(o2)
    ensures Handle(raw, o1) == Handle(raw, o2)
  {
  }

  /** Every message shown is one of the five fixed texts. */
  lemma MessageIsFixed(raw: RawForm, outcome: TransportOutcome)
    ensures Handle(raw, outcome).message in
      {MissingFieldsMessage, InvalidEmailMessage, InvalidPhoneMessage, ThanksMessage, GenericErrorMessage}
  {
  }

  /** The contact form: its controls, the submit button, the status element and a log of transport calls. */
  class ContactForm {
    var fields: RawForm
    const defaults: RawForm
    var buttonDisabled: bool
    var buttonText: string
    const message: FormMessage?
    var calls: seq<Call>

    constructor (initial: RawForm, buttonText: string, message: FormMessage?)
      ensures fields == initial && defaults == initial
      ensures !buttonDisabled && this.buttonText == buttonText && this.message == message
      ensures calls == []
    {
      fields := initial;
      defaults := initial;
      buttonDisabled := false;
      this.buttonText := buttonText;
      this.message := message;
      calls := [];
    }

    /** The awaited transport call: recorded with the button state at the time, settling as `outcome`. */
    method Send(data: FormData, outcome: TransportOutcome) returns (response: TransportOutcome)
      modifies this`calls
      ensures calls == old(calls) + [Call(data, buttonDisabled, buttonText)]
      ensures response == outcome
    {
      calls := calls + [Call(data, buttonDisabled, buttonText)];
      response := outcome;
    }

    /** One submit event, the transport settling as `outcome` if it is called. */
    method Submit(outcome: TransportOutcome)
      modifies this, message
      ensures !buttonDisabled && buttonText == old(buttonText)
      ensures var a := Handle(old(fields), outcome);
              && calls == old(calls) + (if a.sent.Some? then [Call(a.sent.value, true, SendingText)] else [])
              && fields == (if a.reset then defaults else old(fields))
              && Presented(message, a.message, a.severity)
    {
      var raw, originalText := fields, buttonText;
      buttonDisabled := true;
      buttonText := SendingText;

      var data := Collect(fields);

      // required fields, then e-mail, then phone: the first failure is shown
      var verdict := Validate(data);
      if verdict.Rejected? {
        ShowFormMessage(message, UserMessage(verdict.kind), Error);
        buttonDisabled := false;
        buttonText := originalText;
        return;
      }

      var response := Send(data, outcome);
      if response.Resolved? && response.success {
        ShowFormMessage(message, ThanksMessage, Success);
        fields := defaults;
      } else {
        // a falsy `success` is rethrown and lands in the same handler as a thrown error
        ShowFormMessage(message, GenericErrorMessage, Error);
      }
      buttonDisabled := false;
      buttonText := originalText;
    }
  }
}
