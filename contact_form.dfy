/**
 * `handleFormSubmission(form)`: a submit swaps the button's label for
 * "Sending..." and disables it, and a timer 2000 ticks later shows one
 * success notification, resets the form and restores the label captured
 * at submit time and the enabled state. No failure branch exists.
 */
module ContactForm {
  import opened Wrappers
  import Notifications

  const SendingLabel := "Sending..."
  const SubmitDelay := 2000
  const SuccessMessage := "Message sent successfully!"

  /** A pending simulated submission: when its timer is due and the label it restores. */
  datatype PendingSend = PendingSend(due: int, originalText: string)

  /** The `#contact-form` element, its submit button and the submissions in flight. */
  class Form {
    var fields: seq<string>
    const defaults: seq<string>
    var buttonText: string
    var disabled: bool
    var pending: seq<PendingSend>

    constructor (fields: seq<string>, defaults: seq<string>, buttonText: string)
      ensures this.fields == fields && this.defaults == defaults && this.buttonText == buttonText
      ensures !disabled && pending == []
    {
      this.fields := fields;
      this.defaults := defaults;
      this.buttonText := buttonText;
      disabled := false;
      pending := [];
    }

    /**
     * The `submit` listener at time `now`: loading state, and a timer armed
     * with the current buttonText. Timers due by `now` have already fired.
     */
    method Submit(now: int)
      requires forall p :: p in pending ==> now < p.due
      modifies this
      ensures buttonText == SendingLabel && disabled
      ensures pending == old(pending) + [PendingSend(now + SubmitDelay, old(buttonText))]
      ensures fields == old(fields)
    {
      var originalText := buttonText;
      buttonText := SendingLabel;
      disabled := true;
      pending := pending + [PendingSend(now + SubmitDelay, originalText)];
    }

    /**
     * The event loop reaching time `now`: the oldest pending submission, if
     * due, shows the success notification, resets the fields and restores
     * the button. Otherwise nothing changes.
     */
    method Deliver(now: int, body: Notifications.Body) returns (fired: bool)
      requires body.Valid()
      modifies this, body
      ensures body.Valid()
      ensures fired <==> old(pending) != [] && old(pending[0].due) <= now
      ensures fired ==>
        body.toasts == old(body.toasts) + [Notifications.Fresh(SuccessMessage, "success", old(pending[0].due))] &&
        fields == defaults && buttonText == old(pending[0].originalText) && !disabled &&
        pending == old(pending[1..])
      ensures !fired ==>
        body.toasts == old(body.toasts) && fields == old(fields) && buttonText == old(buttonText) &&
        disabled == old(disabled) && pending == old(pending)
    {
      fired := false;
      if pending != [] && pending[0].due <= now {
        var send := pending[0];
        pending := pending[1..];
        body.Show(SuccessMessage, Some("success"), send.due);
        fields := defaults;
        buttonText := send.originalText;
        disabled := false;
        fired := true;
      }
    }
  }

  /**
   * One submission from an idle form: the button reads "Sending..." and is
   * disabled at once; when the timer fires exactly one success toast is
   * added, the fields are back to their defaults and the button has its
   * original buttonText and is enabled.
   */
  method SubmitAndWait(form: Form, body: Notifications.Body, now: int)
    requires form.pending == [] && body.Valid()
    modifies form, body
    ensures body.Valid()
    ensures body.toasts == old(body.toasts) + [Notifications.Fresh(SuccessMessage, "success", now + SubmitDelay)]
    ensures form.fields == form.defaults && form.buttonText == old(form.buttonText) && !form.disabled
    ensures form.pending == []
  {
    form.Submit(now);
    assert form.buttonText == SendingLabel && form.disabled;
    var early := form.Deliver(now + SubmitDelay - 1, body);
    assert !early;
    var fired := form.Deliver(now + SubmitDelay, body);
    assert fired;
  }

  /**
   * The listener never looks at `disabled`: if a second submit event reaches
   * it while the first is in flight, it captures "Sending..." as the
   * buttonText to restore, so the button ends enabled but still reading
   * "Sending...". A browser fires no submit event for a click on the
   * disabled button, nor for Enter-key implicit submission while that
   * default button is disabled, so this path needs a script call such as
   * `form.requestSubmit()` or a second submit control.
   */
  method SubmitTwice(form: Form, body: Notifications.Body, now: int)
    requires form.pending == [] && body.Valid()
    modifies form, body
    ensures !form.disabled && form.buttonText == SendingLabel
    ensures |body.toasts| == |old(body.toasts)| + 2
  {
    form.Submit(now);
    form.Submit(now);
    var first := form.Deliver(now + SubmitDelay, body);
    assert first;
    var second := form.Deliver(now + SubmitDelay, body);
    assert second;
  }
}
