/** The contact form of `initForms` (script.js): the per-field rule engine `validateField`
    and the validity decision of the submit handler. */
module ContactForm {
  import opened Wrappers
  import opened JsText
  import opened Validators

  /** A form control as `validateField` reads it: its `name` attribute, its raw `value` and
      whether it carries the `required` attribute. */
  datatype Field = Field(name: string, value: JsString, required: bool)

  /** The error `validateField` shows next to a field. */
  datatype FieldError = Required | InvalidName | InvalidEmail | InvalidPhone | MessageTooShort

  /** What `validateField` leaves on a field: no error (it returned true) or exactly one. */
  datatype Verdict = Valid | Invalid(error: FieldError)

  /** The minimum trimmed length of the `message` field. */
  const MessageMinLength := 10

  /** The text shown for each error. */
  function ErrorText(e: FieldError): string {
    match e
    case Required => "Dit veld is verplicht"
    case InvalidName => "Voer een geldige naam in (2-50 karakters)"
    case InvalidEmail => "Voer een geldig e-mailadres in"
    case InvalidPhone => "Voer een geldig telefoonnummer in (10-20 karakters)"
    case MessageTooShort => "Bericht moet minimaal 10 karakters bevatten"
  }

  /** The text shown on an unchecked privacy box. */
  const PrivacyErrorText := "U moet akkoord gaan met het privacybeleid"

  /** Each error has its own text, so the text shown tells which check failed; the privacy
      box's text differs from all of them. */
  lemma ErrorTextsDistinct(e1: FieldError, e2: FieldError)
    ensures ErrorText(e1) == ErrorText(e2) <==> e1 == e2
    ensures ErrorText(e1) != PrivacyErrorText
  {
  }

  /** The field names `validateField` dispatches on. */
  predicate IsCheckedName(name: string) {
    name == "name" || name == "email" || name == "phone" || name == "message"
  }

  /** `validateField`: trim the value; a required field that is then empty fails with the
      "required" error and nothing else is checked; an empty optional field passes; otherwise the
      field's name picks the check. */
  function ValidateField(f: Field): (v: Verdict)
    ensures AllWhitespace(f.value) ==> v == (if f.required then Invalid(Required) else Valid)
    ensures v == Invalid(Required) <==> f.required && AllWhitespace(f.value)
    ensures !AllWhitespace(f.value) && f.name == "name" ==>
      v == (if ValidateName(Trim(f.value)) then Valid else Invalid(InvalidName))
    ensures !AllWhitespace(f.value) && f.name == "email" ==>
      v == (if ValidateEmail(Trim(f.value)) then Valid else Invalid(InvalidEmail))
    ensures !AllWhitespace(f.value) && f.name == "phone" ==>
      v == (if ValidatePhone(Trim(f.value)) then Valid else Invalid(InvalidPhone))
    ensures f.name == "message" ==>
      (v.Valid? <==> (!f.required && AllWhitespace(f.value)) || |Trim(f.value)| >= MessageMinLength)
    ensures !AllWhitespace(f.value) && f.name == "message" ==>
      v == (if |Trim(f.value)| < MessageMinLength then Invalid(MessageTooShort) else Valid)
    ensures !IsCheckedName(f.name) ==> (v.Valid? <==> !(f.required && AllWhitespace(f.value)))
  {
    var value := Trim(f.value);
    if f.required && value == [] then Invalid(Required)
    else if value == [] then Valid
    else if f.name == "name" then (if ValidateName(value) then Valid else Invalid(InvalidName))
    else if f.name == "email" then (if ValidateEmail(value) then Valid else Invalid(InvalidEmail))
    else if f.name == "phone" then (if ValidatePhone(value) then Valid else Invalid(InvalidPhone))
    else if f.name == "message" then (if |value| < MessageMinLength then Invalid(MessageTooShort) else Valid)
    else Valid
  }

  /** Whitespace around a value never changes the verdict: every check sees the trimmed value. */
  lemma VerdictIgnoresPadding(f: Field, pre: JsString, post: JsString)
    requires AllWhitespace(pre) && AllWhitespace(post)
    ensures ValidateField(f.(value := pre + f.value + post)) == ValidateField(f)
  {
    TrimIgnoresPadding(pre, f.value, post);
  }

  /** A field that passes has a value its check accepts: an accepted name, address or number, or
      a message of at least ten code units, once trimmed (unless it is an empty optional field). */
  lemma ValidFieldMeetsItsCheck(f: Field)
    requires ValidateField(f).Valid? && !AllWhitespace(f.value)
    ensures f.name == "name" ==> ValidateName(Trim(f.value))
    ensures f.name == "email" ==> EmailPattern(Trim(f.value))
    ensures f.name == "phone" ==> ValidatePhone(Trim(f.value))
    ensures f.name == "message" ==> |Trim(f.value)| >= MessageMinLength
  {
  }

  /** The controls the submit handler looks up (`#contact-name`, `#contact-email`,
      `#contact-phone`, `#contact-message`, `#contact-privacy`); `None` when the form has no such
      control. The privacy control is given by its `checked` state. */
  datatype Form = Form(
    name: Option<Field>,
    email: Option<Field>,
    phone: Option<Field>,
    message: Option<Field>,
    privacy: Option<bool>)

  /** What the submit handler leaves on the privacy checkbox. */
  datatype PrivacyMark = NoPrivacyBox | PrivacyError | PrivacyCleared

  /** The result of one submit: the verdict on each present field (name, email, phone,
      message, in that order), the privacy box's state, and whether the handler went on to
      disable the button and schedule the confirmation (`sending`) or returned after the
      warning notice. */
  datatype SubmitOutcome = SubmitOutcome(verdicts: seq<Option<Verdict>>, privacy: PrivacyMark, sending: bool)

  /** The verdict on a control, if it is present. */
  function Check(f: Option<Field>): Option<Verdict> {
    match f
    case None => None
    case Some(field) => Some(ValidateField(field))
  }

  /** A control that is absent or passes. */
  predicate Passes(f: Option<Field>) {
    f.None? || ValidateField(f.value).Valid?
  }

  /** The form may be sent: every present field passes and the privacy box, if there is one,
      is checked. */
  predicate FormValid(form: Form) {
    Passes(form.name) && Passes(form.email) && Passes(form.phone) && Passes(form.message)
    && (form.privacy.Some? ==> form.privacy.value)
  }

  /** The submit handler: validate every present field in turn, with no short-circuit, then the
      privacy box; send only if nothing failed. */
  method Submit(form: Form) returns (out: SubmitOutcome)
    ensures out.verdicts == [Check(form.name), Check(form.email), Check(form.phone), Check(form.message)]
    ensures out.privacy == match form.privacy
      case None => NoPrivacyBox
      case Some(checked) => if checked then PrivacyCleared else PrivacyError
    ensures out.sending <==> FormValid(form)
  {
    var isFormValid := true;
    var name := Check(form.name);
    if name.Some? && name.value.Invalid? { isFormValid := false; }
    var email := Check(form.email);
    if email.Some? && email.value.Invalid? { isFormValid := false; }
    var phone := Check(form.phone);
    if phone.Some? && phone.value.Invalid? { isFormValid := false; }
    var message := Check(form.message);
    if message.Some? && message.value.Invalid? { isFormValid := false; }

    var privacy := NoPrivacyBox;
    if form.privacy.Some? && !form.privacy.value {
      privacy := PrivacyError;
      isFormValid := false;
    } else if form.privacy.Some? {
      privacy := PrivacyCleared;
    }
    out := SubmitOutcome([name, email, phone, message], privacy, isFormValid);
  }

  /** A present required field left blank blocks the submission and shows the "required" error
      on that field, whatever the other fields hold. */
  lemma BlankRequiredFieldBlocks(form: Form, f: Field)
    requires f.required && AllWhitespace(f.value)
    requires Some(f) in [form.name, form.email, form.phone, form.message]
    ensures !FormValid(form)
    ensures Check(Some(f)) == Some(Invalid(Required))
  {
  }

  /** A short message fails even when the field is optional; an empty optional one passes. */
  lemma MessageExamples()
    ensures ValidateField(Field("message", Units("Hallo"), false)) == Invalid(MessageTooShort)
    ensures ValidateField(Field("message", Units("  "), false)) == Valid
    ensures ValidateField(Field("message", Units("Graag meer informatie."), true)) == Valid
  {
    var short := Units("Hallo");
    TrimUnique(short, 0, |short|);
    var message := Units("Graag meer informatie.");
    TrimUnique(message, 0, |message|);
  }
}
