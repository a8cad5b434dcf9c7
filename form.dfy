/** The contact form of main.js: per-field validation on blur
    (`validateField`, `showFieldError`, `clearFieldError`) and the
    submission flow of `handleFormSubmit`, split at its one `await`: `Submit`
    runs up to the simulated network step, `Complete` is the continuation
    that runs when it settles. */
module Form {
  import opened Wrappers
  import opened Validation
  import Notifications

  const FixErrorsMessage := "Por favor corrige los errores en el formulario"
  const SentMessage := "\U{1F4DA} Mensaje enviado correctamente. Te contactaremos pronto."
  const SendFailedMessage := "\U{274C} Error al enviar el mensaje. Intenta nuevamente."
  const SendingLabel := "<div class=\"spinner\"></div> Enviando..."
  const DefaultLabel := "Enviar"

  /** The error a field's `.form-group` shows after `validateField`. */
  function ErrorOf(f: Field, parsesAsUrl: string -> bool): (e: Option<string>)
    ensures e.Some? <==> Validate(f, parsesAsUrl).Invalid?
    ensures e.Some? ==> f.inFormGroup && e.value == Validate(f, parsesAsUrl).message
  {
    match Validate(f, parsesAsUrl)
    case Valid => None
    case Invalid(m) => Some(m)
  }

  /** Whether every field of the form passes. */
  predicate AllValid(fields: seq<Field>, parsesAsUrl: string -> bool) {
    forall i :: 0 <= i < |fields| ==> Validate(fields[i], parsesAsUrl) == Valid
  }

  /** The label `handleFormSubmit` saves before showing the spinner, falling
      back to "Enviar" when the button's markup is empty. */
  function OriginalLabel(text: string): (r: string)
    ensures r != []
    ensures text != [] ==> r == text
    ensures text == [] ==> r == DefaultLabel
  {
    if text != [] then text else DefaultLabel
  }

  /** `form.reset()`: every field back to its default value. */
  function Reset(fields: seq<Field>, defaults: seq<string>): (r: seq<Field>)
    requires |defaults| == |fields|
    ensures |r| == |fields|
    ensures forall i :: 0 <= i < |r| ==> r[i] == fields[i].(value := defaults[i])
  {
    seq(|fields|, i requires 0 <= i < |fields| => fields[i].(value := defaults[i]))
  }

  /** The contact form: its fields, each field's shown error (the `error`
      class and `.error-message` of its form group, one group per field),
      the submit button, and the saved labels of the submissions still
      awaiting their network step. */
  class ContactForm {
    var fields: seq<Field>
    const defaults: seq<string>
    var shownError: seq<Option<string>>
    const hasButton: bool
    var buttonText: string
    var disabled: bool
    var awaiting: seq<string>
    const notes: Notifications.NotificationCenter
    const parsesAsUrl: string -> bool

    /** One shown error per field, none outside a form group, and the
        notification centre's own invariant. */
    ghost predicate Valid()
      reads this, notes
    {
      && |defaults| == |fields| == |shownError|
      && (forall i :: 0 <= i < |fields| && !fields[i].inFormGroup ==> shownError[i] == None)
      && notes.Valid()
    }

    constructor (fields: seq<Field>, hasButton: bool, buttonText: string,
                 notes: Notifications.NotificationCenter, parsesAsUrl: string -> bool)
      requires notes.Valid()
      ensures Valid()
      ensures this.fields == fields && defaults == seq(|fields|, i requires 0 <= i < |fields| => fields[i].value)
      ensures shownError == seq(|fields|, _ => None)
      ensures this.hasButton == hasButton && this.buttonText == buttonText && !disabled && awaiting == []
      ensures this.notes == notes && this.parsesAsUrl == parsesAsUrl
    {
      this.fields := fields;
      defaults := seq(|fields|, i requires 0 <= i < |fields| => fields[i].value);
      shownError := seq(|fields|, _ => None);
      this.hasButton := hasButton;
      this.buttonText := buttonText;
      disabled := false;
      awaiting := [];
      this.notes := notes;
      this.parsesAsUrl := parsesAsUrl;
    }

    /** `validateField` on a blur of field `i`: outside a form group nothing
        happens; otherwise the old error is cleared and the new one, if any,
        shown. Returns whether the field passed. */
    method Blur(i: nat) returns (ok: bool)
      requires Valid() && i < |fields|
      modifies this
      ensures Valid()
      ensures ok == Validate(fields[i], parsesAsUrl).Valid?
      ensures shownError == old(shownError)[i := ErrorOf(fields[i], parsesAsUrl)]
      ensures fields == old(fields) && buttonText == old(buttonText) && disabled == old(disabled)
      ensures awaiting == old(awaiting)
    {
      var v := Validate(fields[i], parsesAsUrl);
      ok := v.Valid?;
      if fields[i].inFormGroup {
        shownError := shownError[i := ErrorOf(fields[i], parsesAsUrl)];
      }
    }

    /** An `input` event on field `i`: its value changes and
        `clearFieldError` removes any shown error. */
    method Edit(i: nat, value: string)
      requires Valid() && i < |fields|
      modifies this
      ensures Valid()
      ensures fields == old(fields)[i := old(fields)[i].(value := value)]
      ensures shownError == old(shownError)[i := None]
      ensures buttonText == old(buttonText) && disabled == old(disabled) && awaiting == old(awaiting)
    {
      fields := fields[i := fields[i].(value := value)];
      shownError := shownError[i := None];
    }

    /** A `focus` event on field `i`: `clearFieldError`. */
    method Focus(i: nat)
      requires Valid() && i < |fields|
      modifies this
      ensures Valid()
      ensures shownError == old(shownError)[i := None]
      ensures fields == old(fields) && buttonText == old(buttonText) && disabled == old(disabled)
      ensures awaiting == old(awaiting)
    {
      shownError := shownError[i := None];
    }

    /** The validation loop of `handleFormSubmit`: a blur is dispatched on
        every field in turn, and the form is valid when no field's group
        shows an error afterwards. */
    method BlurAll() returns (isValid: bool)
      requires Valid()
      modifies this
      ensures Valid()
      ensures isValid == AllValid(fields, parsesAsUrl)
      ensures |shownError| == |fields|
      ensures forall j :: 0 <= j < |fields| ==> shownError[j] == ErrorOf(fields[j], parsesAsUrl)
      ensures fields == old(fields) && buttonText == old(buttonText) && disabled == old(disabled)
      ensures awaiting == old(awaiting)
    {
      isValid := true;
      var i := 0;
      while i < |fields|
        invariant 0 <= i <= |fields|
        invariant Valid()
        invariant fields == old(fields) && buttonText == old(buttonText) && disabled == old(disabled)
        invariant awaiting == old(awaiting)
        invariant forall j :: 0 <= j < i ==> shownError[j] == ErrorOf(fields[j], parsesAsUrl)
        invariant isValid == forall j :: 0 <= j < i ==> Validate(fields[j], parsesAsUrl).Valid?
      {
        var _ := Blur(i);
        if shownError[i].Some? {
          isValid := false;
        }
        i := i + 1;
      }
    }

    /** `handleFormSubmit` up to its `await`: if any field fails, an error
        notification is shown and nothing else happens. Otherwise the button
        (if any) is disabled with the spinner label, and the submission
        awaits its network step with the saved label. */
    method Submit() returns (sent: bool)
      requires Valid()
      modifies this, notes
      ensures Valid()
      ensures sent == AllValid(fields, parsesAsUrl)
      ensures fields == old(fields) && |shownError| == |fields|
      ensures forall j :: 0 <= j < |fields| ==> shownError[j] == ErrorOf(fields[j], parsesAsUrl)
      ensures !sent ==> && buttonText == old(buttonText) && disabled == old(disabled) && awaiting == old(awaiting)
                        && notes.State() == Notifications.AfterShow(old(notes.State()), FixErrorsMessage, "error")
      ensures sent ==> && awaiting == old(awaiting) + [OriginalLabel(old(buttonText))]
                       && (hasButton ==> buttonText == SendingLabel && disabled)
                       && (!hasButton ==> buttonText == old(buttonText) && disabled == old(disabled))
                       && notes.State() == old(notes.State())
    {
      var isValid := BlurAll();
      if !isValid {
        notes.Show(FixErrorsMessage, "error");
        return false;
      }
      var originalText := OriginalLabel(buttonText);
      if hasButton {
        buttonText := SendingLabel;
        disabled := true;
      }
      awaiting := awaiting + [originalText];
      sent := true;
    }

    /** The rest of `handleFormSubmit` for the `k`-th awaiting submission:
        on success a success notification and `form.reset()`, on failure an
        error notification; in both cases (`finally`) the button gets back
        the label saved by that submission and is enabled again. */
    method Complete(k: nat, failed: bool)
      requires Valid() && k < |awaiting|
      modifies this, notes
      ensures Valid()
      ensures !failed ==> && fields == Reset(old(fields), defaults)
                          && notes.State() == Notifications.AfterShow(old(notes.State()), SentMessage, "success")
      ensures failed ==> && fields == old(fields)
                         && notes.State() == Notifications.AfterShow(old(notes.State()), SendFailedMessage, "error")
      ensures hasButton ==> buttonText == old(awaiting)[k] && !disabled
      ensures !hasButton ==> buttonText == old(buttonText) && disabled == old(disabled)
      ensures awaiting == old(awaiting)[..k] + old(awaiting)[k + 1..]
      ensures shownError == old(shownError)
    {
      if !failed {
        notes.Show(SentMessage, "success");
        fields := Reset(fields, defaults);
      } else {
        notes.Show(SendFailedMessage, "error");
      }
      if hasButton {
        buttonText := awaiting[k];
        disabled := false;
      }
      awaiting := awaiting[..k] + awaiting[k + 1..];
    }
  }

  /** A whole submission from an enabled, labelled button: when some field
      is invalid nothing is awaited and the button keeps its label and stays
      enabled; when all pass and the network step settles either way, the
      button ends enabled with its original label again. */
  method SubmitRestoresButton(form: ContactForm, failed: bool)
    requires form.Valid() && form.hasButton && !form.disabled && form.buttonText != []
    requires form.awaiting == []
    modifies form, form.notes
    ensures form.Valid()
    ensures form.buttonText == old(form.buttonText) && !form.disabled && form.awaiting == []
  {
    var sent := form.Submit();
    if sent {
      form.Complete(0, failed);
    }
  }
}
