/**
 * The contact page's form controller (app/contactUs/page.tsx): the
 * `formData` and `errors` state slots, the edit handler that writes one
 * field and blanks that field's message, the validation pass that rebuilds
 * the message map, and the submit handler that hands a valid snapshot to
 * the submission sink. The sink (a console log and an alert in the page)
 * is modelled as the list of snapshots it has received.
 */
module ContactForm {
  import opened Wrappers
  import opened JsString
  import opened EmailPattern

  /** The `name` attributes of the six inputs the form renders. */
  datatype Field = Name | Phone | Email | Message | Time | Consent

  const AllFields: set<Field> := {Name, Phone, Email, Message, Time, Consent}

  /** The `formData` record: five text inputs and the consent checkbox. */
  datatype FormData = FormData(name: string, phone: string, email: string,
                               message: string, time: string, consent: bool)

  /** A field's current content: text for the inputs, a flag for the checkbox. */
  datatype FieldValue = Text(text: string) | Checked(checked: bool)

  /** Field-name to message; a missing key or `""` means no message. */
  type Errors = map<Field, string>

  /** An edit event's target: its `name`, `value` and `checked`. */
  datatype ChangeEvent = ChangeEvent(name: Field, value: string, checked: bool)

  /** `type === "checkbox"`: on this form only the consent input is one. */
  predicate IsCheckbox(f: Field) {
    f == Consent
  }

  /** `formData[f]`. */
  function Get(d: FormData, f: Field): FieldValue {
    match f
    case Name => Text(d.name)
    case Phone => Text(d.phone)
    case Email => Text(d.email)
    case Message => Text(d.message)
    case Time => Text(d.time)
    case Consent => Checked(d.consent)
  }

  /** What an edit event stores: `checked` for a checkbox, `value` otherwise. */
  function EventValue(e: ChangeEvent): FieldValue {
    if IsCheckbox(e.name) then Checked(e.checked) else Text(e.value)
  }

  /** The initial `formData`: every text field empty, consent not given. */
  function InitialFormData(): (d: FormData)
    ensures forall f :: f != Consent ==> Get(d, f) == Text("")
    ensures Get(d, Consent) == Checked(false)
  {
    FormData("", "", "", "", "", false)
  }

  /**
   * `{ ...prev, [name]: type === "checkbox" ? checked : value }`: the
   * event's field takes the event's value and every other field keeps its own.
   */
  function Updated(d: FormData, e: ChangeEvent): (r: FormData)
    ensures Get(r, e.name) == EventValue(e)
    ensures forall f :: f != e.name ==> Get(r, f) == Get(d, f)
  {
    match e.name
    case Name => d.(name := e.value)
    case Phone => d.(phone := e.value)
    case Email => d.(email := e.value)
    case Message => d.(message := e.value)
    case Time => d.(time := e.value)
    case Consent => d.(consent := e.checked)
  }

  /** `errors.f && <p>…</p>`: the message under field `f` is rendered. */
  predicate ErrorShown(errors: Errors, f: Field) {
    f in errors && errors[f] != ""
  }

  /**
   * `if (errors[name]) setErrors({ ...prev, [name]: "" })`: a rendered
   * message on the edited field is blanked; no other entry changes and an
   * entry that was absent or already blank is left as it was.
   */
  function Cleared(errors: Errors, f: Field): (r: Errors)
    ensures !ErrorShown(r, f)
    ensures ErrorShown(errors, f) ==> f in r && r[f] == ""
    ensures !ErrorShown(errors, f) ==> r == errors
    ensures r.Keys == errors.Keys
    ensures forall g :: g in errors && g != f ==> r[g] == errors[g]
  {
    if ErrorShown(errors, f) then errors[f := ""] else errors
  }

  /** The validation messages, one per rule (the message field's is generic). */
  const NameRequired: string := "Name is required."
  const PhoneRequired: string := "Phone is required."
  const EmailRequired: string := "Email is required."
  const InvalidEmail: string := "Invalid email."
  const MessageRequired: string := "This field is required."
  const TimeRequired: string := "Preferred time is required."
  const ConsentRequired: string := "Consent is required."

  /**
   * The rule for one field, as the validation pass applies it: the message
   * the field earns on `d`, or `None` when it passes. Presence is tested on
   * the trimmed text; the address shape on the email exactly as typed.
   */
  function FieldError(d: FormData, f: Field): Option<string> {
    match f
    case Name => if IsBlank(d.name) then Some(NameRequired) else None
    case Phone => if IsBlank(d.phone) then Some(PhoneRequired) else None
    case Email =>
      if IsBlank(d.email) then Some(EmailRequired)
      else if !IsEmailShape(d.email) then Some(InvalidEmail)
      else None
    case Message => if IsBlank(d.message) then Some(MessageRequired) else None
    case Time => if IsBlank(d.time) then Some(TimeRequired) else None
    case Consent => if !d.consent then Some(ConsentRequired) else None
  }

  /** The map a validation pass builds: one entry per failing field. */
  function ValidationErrors(d: FormData): Errors {
    map f | f in AllFields && FieldError(d, f).Some? :: FieldError(d, f).value
  }

  /** The message `m` holds for `f`, if any. */
  function Entry(m: Errors, f: Field): Option<string> {
    if f in m then Some(m[f]) else None
  }

  /** `m` holds exactly what `f`'s rule says about `d`. */
  ghost predicate RuleApplied(m: Errors, d: FormData, f: Field) {
    Entry(m, f) == FieldError(d, f)
  }

  /** Every field the form submits passes its rule. */
  predicate AllRulesPass(d: FormData) {
    && !IsBlank(d.name) && !IsBlank(d.phone) && IsEmailShape(d.email)
    && !IsBlank(d.message) && !IsBlank(d.time) && d.consent
  }

  /** An address of the accepted shape is never blank: it holds an `@`. */
  lemma EmailShapeNotBlank(s: string)
    requires IsEmailShape(s)
    ensures !IsBlank(s)
  {
    EmailShapeHasOneAt(s);
    var at :| 0 <= at < |s| && s[at] == '@';
    NotBlankWitness(s, at);
  }

  /**
   * Each field gets exactly its own rule's message: a field is in the map
   * iff its rule fails, and then with that rule's text, which is never `""`.
   * So a freshly built map renders a message for exactly the failing fields.
   */
  lemma ValidationErrorsPerField(d: FormData, f: Field)
    ensures f in ValidationErrors(d) <==> FieldError(d, f).Some?
    ensures f in ValidationErrors(d) ==> ValidationErrors(d)[f] == FieldError(d, f).value
    ensures ErrorShown(ValidationErrors(d), f) <==> FieldError(d, f).Some?
  {
    assert f in AllFields;
  }

  /** A map that holds exactly each rule's outcome is the validation map. */
  lemma AppliedRulesGiveValidationErrors(m: Errors, d: FormData)
    requires RuleApplied(m, d, Name) && RuleApplied(m, d, Phone) && RuleApplied(m, d, Email)
    requires RuleApplied(m, d, Message) && RuleApplied(m, d, Time) && RuleApplied(m, d, Consent)
    ensures m == ValidationErrors(d)
  {
    forall f
      ensures f in m <==> f in ValidationErrors(d)
      ensures f in m ==> m[f] == ValidationErrors(d)[f]
    {
      assert RuleApplied(m, d, f);
      ValidationErrorsPerField(d, f);
    }
  }

  /**
   * The email field gets at most one message: EmailRequired exactly
   * when the trimmed address is empty, InvalidEmail exactly when it is
   * not empty but the untrimmed address fails the pattern.
   */
  lemma EmailMessage(d: FormData)
    ensures Email in ValidationErrors(d) <==> !IsEmailShape(d.email)
    ensures Email in ValidationErrors(d) && ValidationErrors(d)[Email] == EmailRequired
            <==> IsBlank(d.email)
    ensures Email in ValidationErrors(d) && ValidationErrors(d)[Email] == InvalidEmail
            <==> !IsBlank(d.email) && !IsEmailShape(d.email)
  {
    ValidationErrorsPerField(d, Email);
    if IsEmailShape(d.email) {
      EmailShapeNotBlank(d.email);
    }
  }

  /**
   * Presence is tested on the trimmed address but the pattern on the
   * untrimmed one, so an address with content and a whitespace character
   * before or after it gets the invalid-address message, not the required
   * one, and fails.
   */
  lemma PaddedEmailInvalid(d: FormData, s: string, c: char)
    requires IsJsWhitespace(c) && !IsBlank(s) && (d.email == [c] + s || d.email == s + [c])
    ensures Email in ValidationErrors(d) && ValidationErrors(d)[Email] == InvalidEmail
  {
    var k :| 0 <= k < |s| && !IsJsWhitespace(s[k]);
    if d.email == [c] + s {
      NotBlankWitness(d.email, k + 1);
    } else {
      NotBlankWitness(d.email, k);
    }
    RejectsSurroundingWhitespace(s, c);
    EmailMessage(d);
  }

  /** `Object.keys(m).length === 0`: a map has no keys exactly when it is empty. */
  lemma NoKeysIffEmpty(m: Errors)
    ensures |m.Keys| == 0 <==> m == map[]
  {
    if |m.Keys| == 0 {
      assert m.Keys == {};
    } else {
      var k :| k in m.Keys;
    }
  }

  /** The pass finds nothing exactly when every rule passes. */
  lemma ValidIffAllRulesPass(d: FormData)
    ensures ValidationErrors(d) == map[] <==> AllRulesPass(d)
  {
    if AllRulesPass(d) {
      EmailShapeNotBlank(d.email);
      forall f | f in ValidationErrors(d)
        ensures false
      {
        ValidationErrorsPerField(d, f);
      }
    } else if d.consent {
      if IsBlank(d.name) { ValidationErrorsPerField(d, Name); }
      else if IsBlank(d.phone) { ValidationErrorsPerField(d, Phone); }
      else if !IsEmailShape(d.email) { ValidationErrorsPerField(d, Email); }
      else if IsBlank(d.message) { ValidationErrorsPerField(d, Message); }
      else { ValidationErrorsPerField(d, Time); }
    } else {
      ValidationErrorsPerField(d, Consent);
    }
  }

  /**
   * Rules are independent: when only field `f` fails, the map holds only
   * `f`'s message.
   */
  lemma OnlyFailingField(d: FormData, f: Field)
    requires FieldError(d, f).Some?
    requires forall g :: g != f ==> FieldError(d, g).None?
    ensures ValidationErrors(d) == map[f := FieldError(d, f).value]
  {
    assert f in AllFields;
  }

  /** A fully filled-in sample submission passes every rule. */
  lemma SampleSubmissionValid()
    ensures var d := FormData("Jane", "1234567890", "jane@example.com", "hi", "mornings", true);
            AllRulesPass(d) && ValidationErrors(d) == map[]
  {
    var d := FormData("Jane", "1234567890", "jane@example.com", "hi", "mornings", true);
    NotBlankWitness(d.name, 0);
    NotBlankWitness(d.phone, 0);
    NotBlankWitness(d.message, 0);
    NotBlankWitness(d.time, 0);
    AcceptsSampleAddress();
    ValidIffAllRulesPass(d);
  }

  /**
   * The rule pass of `validate`: start from an empty map and, rule by rule,
   * write the field's message when its rule fails. The result holds exactly
   * the failing fields, each with its own rule's message.
   */
  method CollectErrors(d: FormData) returns (newErrors: Errors)
    ensures newErrors == ValidationErrors(d)
  {
    newErrors := map[];
    if IsBlank(d.name) { newErrors := newErrors[Name := NameRequired]; }
    if IsBlank(d.phone) { newErrors := newErrors[Phone := PhoneRequired]; }
    if IsBlank(d.email) {
      newErrors := newErrors[Email := EmailRequired];
    } else if !IsEmailShape(d.email) {
      newErrors := newErrors[Email := InvalidEmail];
    }
    if IsBlank(d.message) { newErrors := newErrors[Message := MessageRequired]; }
    if IsBlank(d.time) { newErrors := newErrors[Time := TimeRequired]; }
    if !d.consent { newErrors := newErrors[Consent := ConsentRequired]; }
    AppliedRulesGiveValidationErrors(newErrors, d);
  }

  /** The `ContactUs` component's state and its three handlers. */
  class ContactUs {
    var formData: FormData
    var errors: Errors
    /** The snapshots handed to the submission sink, oldest first. */
    var submitted: seq<FormData>

    constructor ()
      ensures formData == InitialFormData() && errors == map[] && submitted == []
    {
      formData := InitialFormData();
      errors := map[];
      submitted := [];
    }

    /** The message under field `f` is rendered. */
    predicate Shows(f: Field)
      reads this
    {
      ErrorShown(errors, f)
    }

    /** `handleChange`: store the edit and blank the edited field's message. */
    method HandleChange(e: ChangeEvent)
      modifies this`formData, this`errors
      ensures formData == Updated(old(formData), e)
      ensures errors == Cleared(old(errors), e.name)
      ensures !Shows(e.name)
    {
      formData := Updated(formData, e);
      if e.name in errors && errors[e.name] != "" {
        errors := errors[e.name := ""];
      }
    }

    /**
     * `validate`: build the message map from the current fields, replace
     * `errors` with it wholesale and report whether it has no keys.
     */
    method Validate() returns (ok: bool)
      modifies this`errors
      ensures errors == ValidationErrors(formData)
      ensures ok <==> errors == map[]
      ensures ok <==> AllRulesPass(formData)
    {
      var newErrors := CollectErrors(formData);
      errors := newErrors;
      NoKeysIffEmpty(newErrors);
      ValidIffAllRulesPass(formData);
      ok := |newErrors.Keys| == 0;
    }

    /**
     * `handleSubmit`: validate, and only when that succeeds hand the current
     * snapshot to the sink, once. The fields are never changed by submitting.
     */
    method HandleSubmit() returns (accepted: bool)
      modifies this`errors, this`submitted
      ensures errors == ValidationErrors(formData)
      ensures accepted <==> AllRulesPass(formData)
      ensures submitted == old(submitted) + (if accepted then [formData] else [])
    {
      accepted := Validate();
      if !accepted {
        return;
      }
      submitted := submitted + [formData];
    }
  }

  /**
   * A visitor's session: fill in every field of a fresh form with `d`'s
   * values and submit, then submit again. The sink receives `d` once, and
   * only when `d` passes every rule; the second pass rebuilds the same map.
   */
  method FillAndSubmit(d: FormData) returns (accepted: bool, sink: seq<FormData>, shown: Errors)
    ensures accepted <==> AllRulesPass(d)
    ensures sink == if accepted then [d] else []
    ensures shown == ValidationErrors(d)
  {
    var form := new ContactUs();
    form.HandleChange(ChangeEvent(Name, d.name, false));
    form.HandleChange(ChangeEvent(Phone, d.phone, false));
    form.HandleChange(ChangeEvent(Email, d.email, false));
    form.HandleChange(ChangeEvent(Message, d.message, false));
    form.HandleChange(ChangeEvent(Time, d.time, false));
    form.HandleChange(ChangeEvent(Consent, "on", d.consent));
    assert form.formData == d;
    accepted := form.HandleSubmit();
    sink := form.submitted;
    var first := form.errors;
    var again := form.Validate();
    assert again == accepted && form.errors == first;
    shown := form.errors;
  }
}
