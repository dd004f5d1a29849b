/**
 * The status line under the contact form (`showFormMessage`): it shows a
 * text with a severity and, for a success, queues a timer that hides the
 * line 5000 ms later. Time is not modelled; a queued timer is an entry in
 * the element's list of pending callbacks, fired in the order queued.
 */
module Presenter {

  datatype Severity = Success | Error {
    /** The string passed as `showFormMessage`'s `type` argument. */
    function Name(): string {
      match this
      case Success => "success"
      case Error => "error"
    }
  }

  const HideDelayMs: nat := 5000

  /** A pending `setTimeout` callback that sets the element's display to "none". */
  datatype Timer = HideAfter(delayMs: nat)

  /** The timers one call queues: a single hide for a success, none otherwise. */
  function TimersFor(severity: Severity): (ts: seq<Timer>)
    ensures ts != [] <==> severity.Name() == "success"
    ensures forall t | t in ts :: t == HideAfter(HideDelayMs)
    ensures |ts| <= 1
  {
    if severity == Success then [HideAfter(HideDelayMs)] else []
  }

  /** The message element, with the three properties the form writes. */
  class FormMessage {
    var text: string
    var className: string
    var display: string
    var timers: seq<Timer>

    constructor (text: string, className: string, display: string)
      ensures this.text == text && this.className == className && this.display == display
      ensures timers == []
    {
      this.text := text;
      this.className := className;
      this.display := display;
      timers := [];
    }

    /** The oldest pending hide fires; nothing else about the element changes. */
    method FireTimer()
      requires timers != []
      modifies this
      ensures display == "none"
      ensures timers == old(timers)[1..]
      ensures text == old(text) && className == old(className)
    {
      display := "none";
      timers := timers[1..];
    }
  }

  /**
   * What one `showFormMessage(el, message, type)` leaves behind: nothing when
   * the element is missing; otherwise the text, the class "form-message <type>",
   * the element shown, and the success hide queued after the earlier ones.
   */
  twostate predicate Presented(el: FormMessage?, message: string, severity: Severity)
    reads el
  {
    el != null ==>
      && el.text == message
      && el.className == "form-message " + severity.Name()
      && el.display == "block"
      && el.timers == old(el.timers) + TimersFor(severity)
  }

  method ShowFormMessage(el: FormMessage?, message: string, severity: Severity)
    modifies el
    ensures Presented(el, message, severity)
  {
    if el == null {
      return;
    }
    el.text := message;
    el.className := "form-message " + severity.Name();
    el.display := "block";
    if severity.Name() == "success" {
      el.timers := el.timers + [HideAfter(HideDelayMs)];
    }
  }

  /**
   * Earlier hides are never cancelled: on an element with no pending timer,
   * a success and then an error leave the success's hide queued, and when it
   * fires it hides the error.
   */
  method ErrorAfterSuccessIsHidden(el: FormMessage, thanks: string, failure: string)
    requires el.timers == []
    modifies el
    ensures el.text == failure && el.className == "form-message error"
    ensures el.display == "none"
    ensures el.timers == []
  {
    ShowFormMessage(el, thanks, Success);
    ShowFormMessage(el, failure, Error);
    assert el.timers == [HideAfter(HideDelayMs)];
    el.FireTimer();
  }
}
