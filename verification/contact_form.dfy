/** The landing page's contact form: the five-field record, the per-field
    change handler, and the submit handler with its required-field check,
    email check and deferred success reset. */
module ContactForm {
  import opened Opt
  import opened Email

  /** The `name` attributes of the form's five controls. */
  datatype Field = NameField | EmailField | CompanyField | LicenseTypeField | MessageField

  datatype FormData = FormData(name: string, email: string, company: string, licenseType: string, message: string)

  const EmptyForm := FormData("", "", "", "", "")

  function Get(d: FormData, f: Field): string {
    match f
    case NameField => d.name
    case EmailField => d.email
    case CompanyField => d.company
    case LicenseTypeField => d.licenseType
    case MessageField => d.message
  }

  /** `handleInputChange`: `{...prev, [name]: value}`. The named field takes
      the new value and every other field keeps its old one. */
  function Update(d: FormData, f: Field, value: string): (r: FormData)
    ensures Get(r, f) == value
    ensures forall g :: g != f ==> Get(r, g) == Get(d, g)
  {
    match f
    case NameField => d.(name := value)
    case EmailField => d.(email := value)
    case CompanyField => d.(company := value)
    case LicenseTypeField => d.(licenseType := value)
    case MessageField => d.(message := value)
  }

  /** Writing back a field's own value leaves the form as it was. */
  lemma UpdateSameValue(d: FormData, f: Field)
    ensures Update(d, f, Get(d, f)) == d
  {
  }

  /** Of two writes to the same field only the later one is seen. */
  lemma UpdateOverwrite(d: FormData, f: Field, first: string, second: string)
    ensures Update(Update(d, f, first), f, second) == Update(d, f, second)
  {
  }

  /** A notification shown by the page's toast provider. */
  datatype Toast = Toast(title: string, description: string, destructive: bool)

  const RequiredFieldsToast := Toast("Error", "Please fill in all required fields", true)
  const InvalidEmailToast := Toast("Error", "Please enter a valid email address", true)
  const SuccessToast := Toast("Success!", "Your message has been sent. We'll be in touch soon!", false)

  /** The form's contents, the `isFormSubmitting` flag, and the number of
      success timers scheduled but not yet fired. Nothing stops a second
      valid submission while one is waiting, so there may be several. */
  datatype FormState = FormState(data: FormData, submitting: bool, pendingResets: nat)

  const InitialForm := FormState(EmptyForm, false, 0)

  /** The state after a handler ran, and the toast it raised, if any. */
  datatype Submission = Submission(state: FormState, toast: Option<Toast>)

  /** `!formData.name || !formData.email || !formData.company`: only the
      empty string is falsy, so a blank but non-empty value passes. */
  predicate MissingRequired(d: FormData) {
    d.name == "" || d.email == "" || d.company == ""
  }

  /** `handleSubmit`. The required-field check runs first, then the email
      regex; both failures clear the submitting flag, leave the data alone
      and schedule nothing. A valid form stays submitting and schedules one
      success timer. */
  function HandleSubmit(s: FormState): (r: Submission)
    ensures r.state.data == s.data
    ensures MissingRequired(s.data) ==>
      r.toast == Some(RequiredFieldsToast) && !r.state.submitting && r.state.pendingResets == s.pendingResets
    ensures !MissingRequired(s.data) && !IsEmail(s.data.email) ==>
      r.toast == Some(InvalidEmailToast) && !r.state.submitting && r.state.pendingResets == s.pendingResets
    ensures !MissingRequired(s.data) && IsEmail(s.data.email) ==>
      r.toast == None && r.state.submitting && r.state.pendingResets == s.pendingResets + 1
  {
    RegexIffEmail(s.data.email);
    if MissingRequired(s.data) then
      Submission(s.(submitting := false), Some(RequiredFieldsToast))
    else if !RegexTest(s.data.email) then
      Submission(s.(submitting := false), Some(InvalidEmailToast))
    else
      Submission(FormState(s.data, true, s.pendingResets + 1), None)
  }

  /** The deferred success callback, which fires only while a success timer
      is waiting. Whatever was typed meanwhile, every field is emptied, the
      flag is cleared, the success toast shown and one timer used up. */
  function CompleteSubmission(s: FormState): (r: Option<Submission>)
    ensures r.Some? <==> s.pendingResets > 0
    ensures r.Some? ==> forall f :: Get(r.value.state.data, f) == ""
    ensures r.Some? ==> !r.value.state.submitting && r.value.toast == Some(SuccessToast)
    ensures r.Some? ==> r.value.state.pendingResets == s.pendingResets - 1
  {
    if s.pendingResets == 0 then None
    else Some(Submission(FormState(EmptyForm, false, s.pendingResets - 1), Some(SuccessToast)))
  }

  /** A valid submission, once its timer fires, empties the form and clears
      the flag, leaving as many timers waiting as before it; from a form
      with nothing waiting, that is the initial state. */
  lemma ValidSubmissionResets(s: FormState)
    requires !MissingRequired(s.data) && IsEmail(s.data.email)
    ensures HandleSubmit(s).toast == None
    ensures CompleteSubmission(HandleSubmit(s).state)
         == Some(Submission(FormState(EmptyForm, false, s.pendingResets), Some(SuccessToast)))
    ensures s.pendingResets == 0 ==> CompleteSubmission(HandleSubmit(s).state).value.state == InitialForm
  {
  }

  /** A refused submission schedules no reset: with no timer waiting
      before, none can fire after, so the typed data stays. */
  lemma RefusedSubmissionSchedulesNothing(s: FormState)
    requires MissingRequired(s.data) || !IsEmail(s.data.email)
    ensures HandleSubmit(s).state.pendingResets == s.pendingResets
    ensures HandleSubmit(s).state.data == s.data
    ensures s.pendingResets == 0 ==> CompleteSubmission(HandleSubmit(s).state) == None
  {
  }

  /** Submitting a valid form twice before the first timer fires
      schedules two resets, and both fire: the second one empties a form
      that is already empty and shows the success toast again. */
  lemma DoubleSubmitResetsTwice(s: FormState)
    requires !MissingRequired(s.data) && IsEmail(s.data.email) && s.pendingResets == 0
    ensures var t := HandleSubmit(HandleSubmit(s).state).state;
      && t.pendingResets == 2
      && CompleteSubmission(t).Some?
      && CompleteSubmission(CompleteSubmission(t).value.state) == Some(Submission(InitialForm, Some(SuccessToast)))
  {
    var t1 := HandleSubmit(s).state;
    assert t1.data == s.data && t1.pendingResets == 1;
  }

  /** Neither the licence type nor the message ever decides the outcome. */
  lemma OptionalFieldsIgnored(s: FormState, licenseType: string, message: string)
    ensures HandleSubmit(s.(data := s.data.(licenseType := licenseType, message := message))).toast
         == HandleSubmit(s).toast
  {
  }

  /** An empty name is reported as a missing field even though the email is
      malformed too: the required-field check comes first. */
  lemma EmptyNameReported()
    ensures HandleSubmit(FormState(FormData("", "not-an-email", "Acme", "", ""), false, 0)).toast
         == Some(RequiredFieldsToast)
  {
  }

  /** With the required fields present, `"not-an-email"` is refused as an
      invalid address; the form keeps its contents and no reset is
      scheduled. */
  lemma MalformedEmailReported(d: FormData, waiting: nat)
    requires d.name != "" && d.company != "" && d.email == "not-an-email"
    ensures HandleSubmit(FormState(d, false, waiting))
         == Submission(FormState(d, false, waiting), Some(InvalidEmailToast))
  {
    NoAtRejected(d.email);
  }
}
