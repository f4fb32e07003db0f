/** The contact form's submit handler (`initFormHandling`): it reads the
    trimmed name, email and message, and answers with one toast: a missing
    field first, then a malformed address, else thanks, in which case the
    form is reset. Nothing is sent anywhere. */
module ContactForm {
  import opened Text
  import opened Email
  import opened Notifications

  const MissingFieldsMessage := "Please fill in all fields"
  const InvalidEmailMessage := "Please enter a valid email address"
  const ThanksMessage := "Thank you for your message! We'll get back to you soon."

  /** One control of the form: not in the markup at all, or present with
      its current value and the value `reset()` puts back. */
  datatype Control = Absent | Control(value: string, defaultValue: string)

  /** `control?.value.trim()`. An absent control gives `undefined`, which the
      handler only ever tests for falsity, as it does the empty string; both
      are "" here. */
  function Entry(c: Control): string
  {
    match c
    case Absent => ""
    case Control(v, _) => Trim(v)
  }

  /** A control the handler treats as not filled in: absent, or holding
      nothing but white space. */
  ghost predicate Blank(c: Control)
  {
    c.Absent? || AllWs(c.value)
  }

  /** Trimming leaves nothing exactly when the control is blank. */
  lemma EntryEmptyWhenBlank(c: Control)
    ensures Entry(c) == [] <==> Blank(c)
  {
  }

  /** `form.reset()` on one control. */
  function ResetControl(c: Control): Control
  {
    match c
    case Absent => Absent
    case Control(_, d) => Control(d, d)
  }

  datatype Verdict = MissingField | InvalidEmail | Sent

  /** The handler's decision, with the checks in the source's order. */
  ghost function Judge(name: Control, email: Control, message: Control): Verdict
  {
    if Entry(name) == [] || Entry(email) == [] || Entry(message) == [] then MissingField
    else if !WellFormedEmail(Entry(email)) then InvalidEmail
    else Sent
  }

  /** The checks of the submit handler, run in its order on the trimmed
      values; the address is checked only once all three are filled in. */
  method Decide(name: Control, email: Control, message: Control) returns (v: Verdict)
    ensures v == Judge(name, email, message)
  {
    var n, e, m := Entry(name), Entry(email), Entry(message);
    if n == [] || e == [] || m == [] {
      return MissingField;
    }
    var ok := IsValidEmail(e);
    if !ok {
      return InvalidEmail;
    }
    return Sent;
  }

  /** The toast text and kind for each outcome. */
  function Feedback(v: Verdict): (string, string)
  {
    match v
    case MissingField => (MissingFieldsMessage, "error")
    case InvalidEmail => (InvalidEmailMessage, "error")
    case Sent => (ThanksMessage, "success")
  }

  /** The toast that the `id`-th call of `showNotification` makes for `v`. */
  function ToastFor(id: nat, v: Verdict): Notification
  {
    Notification(id, Feedback(v).0, Feedback(v).1, Background(Feedback(v).1))
  }

  /** A field is reported missing exactly when some control is absent or
      holds only white space; a blank email address therefore never draws
      the invalid-address message. */
  lemma MissingFieldWhenBlank(name: Control, email: Control, message: Control)
    ensures Judge(name, email, message) == MissingField <==> Blank(name) || Blank(email) || Blank(message)
    ensures Blank(email) ==> Judge(name, email, message) != InvalidEmail
  {
    EntryEmptyWhenBlank(name);
    EntryEmptyWhenBlank(email);
    EntryEmptyWhenBlank(message);
  }

  /** With every control filled in, the address decides: the trimmed address
      is rejected exactly when it is not well formed. */
  lemma InvalidEmailWhenMalformed(name: Control, email: Control, message: Control)
    requires !Blank(name) && !Blank(email) && !Blank(message)
    ensures Judge(name, email, message) == InvalidEmail <==> !WellFormedEmail(Trim(email.value))
    ensures Judge(name, email, message) == Sent <==> WellFormedEmail(Trim(email.value))
  {
    MissingFieldWhenBlank(name, email, message);
  }

  /** Only the success outcome carries the "success" kind, so only a sent
      form shows a green toast. */
  lemma OnlySentIsGreen(v: Verdict)
    ensures Background(Feedback(v).1) == SuccessColour <==> v == Sent
    ensures v != Sent ==> Background(Feedback(v).1) == ErrorColour
  {
  }

  /** The contact form's three controls. */
  class Form {
    var name: Control
    var email: Control
    var message: Control

    constructor(name: Control, email: Control, message: Control)
      ensures this.name == name && this.email == email && this.message == message
    {
      this.name, this.email, this.message := name, email, message;
    }

    /** The submit handler. Exactly one toast is shown, the one for the
        handler's verdict, and it is then the only toast on the page; the
        controls are reset exactly when the form was accepted. */
    method Submit(body: Body)
      requires body.Valid()
      modifies this, body
      ensures body.Valid()
      ensures Others(body.children) == Others(old(body.children))
      ensures body.nextId == old(body.nextId) + 1
      ensures var v := Judge(old(name), old(email), old(message));
              && Toasts(body.children) == [ToastFor(old(body.nextId), v)]
              && if v == Sent
                 then name == ResetControl(old(name)) && email == ResetControl(old(email))
                      && message == ResetControl(old(message))
                 else name == old(name) && email == old(email) && message == old(message)
    {
      var v := Decide(name, email, message);
      var _ := body.Show(Feedback(v).0, Feedback(v).1);
      if v == Sent {
        name, email, message := ResetControl(name), ResetControl(email), ResetControl(message);
      }
    }
  }
}
