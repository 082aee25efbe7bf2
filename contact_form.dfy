/** The contact form handler: a fixed-order validation of one submission,
    the toast it shows, and whether the form is reset. */
module ContactForm {
  import opened Options
  import opened EmailPattern

  /** The four values `FormData.get` returns (`None` for a field it does not find). */
  datatype FormData = FormData(name: Option<string>, email: Option<string>,
                               subject: Option<string>, message: Option<string>)

  /** The three results of validation. */
  datatype Outcome = RequiredError | EmailError | Success

  /** The toast element's visible state. */
  datatype Toast = Toast(title: string, description: string, iconClass: string,
                         iconColor: string, shown: bool)

  /** A handled submission: the toast shown and the form's values afterwards. */
  datatype Submission = Submission(toast: Toast, form: FormData)

  const ErrorTitle: string := "Error"
  const RequiredMessage: string := "Please fill in all required fields."
  const EmailMessage: string := "Please enter a valid email address."
  const SuccessTitle: string := "Message Sent!"
  const SuccessMessage: string := "Thank you for your message! I'll get back to you soon."
  const ErrorIcon: string := "fas fa-exclamation-circle"
  const ErrorColor: string := "#ef4444"
  const SuccessIcon: string := "fas fa-check-circle"
  const SuccessColor: string := "#10b981"

  /** A value JavaScript treats as truthy: present and not the empty string.
      Blanks are not trimmed. */
  predicate Filled(value: Option<string>): (b: bool)
    // the only falsy values `FormData.get` can return are null and ""
    ensures !b <==> value == None || value == Some("")
  {
    value.Some? && value.value != ""
  }

  /** The required-field check, then the email check; `subject` is never looked at. */
  function Validate(d: FormData): (r: Outcome)
    ensures r == RequiredError <==> !(Filled(d.name) && Filled(d.email) && Filled(d.message))
    ensures r == EmailError <==> Filled(d.name) && Filled(d.message) && Filled(d.email)
                                 && !MatchesEmailRegex(d.email.value)
    ensures r == Success <==> Filled(d.name) && Filled(d.message) && d.email.Some?
                              && MatchesEmailRegex(d.email.value)
  {
    if !Filled(d.name) || !Filled(d.email) || !Filled(d.message) then RequiredError
    else
      EmailCheckIsRegex(d.email.value);
      if !IsValidEmail(d.email.value) then EmailError
      else Success
  }

  /** `showToast`: the given texts, and the icon chosen by the severity:
      the red exclamation for "error", the green check for anything else. */
  function ShowToast(title: string, description: string, kind: string): (t: Toast)
    ensures t.shown && t.title == title && t.description == description
    ensures t.iconColor == ErrorColor <==> kind == "error"
    ensures t.iconClass == ErrorIcon <==> kind == "error"
    ensures t.iconColor == SuccessColor <==> kind != "error"
    ensures t.iconClass == SuccessIcon <==> kind != "error"
  {
    if kind == "error" then Toast(title, description, ErrorIcon, ErrorColor, true)
    else Toast(title, description, SuccessIcon, SuccessColor, true)
  }

  /** `form.reset()`: every field the form has goes back to its (empty) default. */
  function Reset(d: FormData): (r: FormData)
    ensures !Filled(r.name) && !Filled(r.email) && !Filled(r.subject) && !Filled(r.message)
    ensures r.name.Some? == d.name.Some? && r.email.Some? == d.email.Some?
    ensures r.subject.Some? == d.subject.Some? && r.message.Some? == d.message.Some?
  {
    FormData(Clear(d.name), Clear(d.email), Clear(d.subject), Clear(d.message))
  }

  function Clear(value: Option<string>): Option<string>
  {
    if value.Some? then Some("") else None
  }

  /** `handleSubmit`: one toast per submission; only a valid one resets the form. */
  function HandleSubmit(d: FormData): (r: Submission)
    ensures r.toast.shown
    ensures Validate(d) == RequiredError ==>
              r.toast.title == ErrorTitle && r.toast.description == RequiredMessage && r.form == d
    ensures Validate(d) == EmailError ==>
              r.toast.title == ErrorTitle && r.toast.description == EmailMessage && r.form == d
    ensures Validate(d) == Success ==>
              r.toast.title == SuccessTitle && r.toast.description == SuccessMessage && r.form == Reset(d)
    ensures Validate(d) != Success ==> r.toast.iconClass == ErrorIcon && r.toast.iconColor == ErrorColor
    ensures Validate(d) == Success ==> r.toast.iconClass == SuccessIcon && r.toast.iconColor == SuccessColor
  {
    match Validate(d)
    case RequiredError => Submission(ShowToast(ErrorTitle, RequiredMessage, "error"), d)
    case EmailError => Submission(ShowToast(ErrorTitle, EmailMessage, "error"), d)
    case Success => Submission(ShowToast(SuccessTitle, SuccessMessage, "success"), Reset(d))
  }

  /** The subject never influences the outcome, the toast or the reset. */
  lemma SubjectNeverChecked(d: FormData, subject: Option<string>)
    ensures Validate(d.(subject := subject)) == Validate(d)
    ensures HandleSubmit(d.(subject := subject)).toast == HandleSubmit(d).toast
  {
  }

  /** Only a valid submission changes the form's values. */
  lemma OnlySuccessResets(d: FormData)
    ensures HandleSubmit(d).form != d <==> Validate(d) == Success
  {
  }

  /** Submitting the form again right after a successful submission is refused
      with the required-fields error: the reset emptied every field. */
  lemma ResubmitAfterSuccessIsRequiredError(d: FormData)
    requires Validate(d) == Success
    ensures Validate(HandleSubmit(d).form) == RequiredError
    ensures HandleSubmit(HandleSubmit(d).form).form == HandleSubmit(d).form
  {
  }

  /** An empty name is refused before the email is looked at, and the form is kept. */
  lemma EmptyNameExample()
    ensures HandleSubmit(FormData(Some(""), Some("a@b.com"), Some(""), Some("hi")))
            == Submission(ShowToast(ErrorTitle, RequiredMessage, "error"),
                          FormData(Some(""), Some("a@b.com"), Some(""), Some("hi")))
  {
  }

  /** A filled form with a bare word as email gets the invalid-email error. */
  lemma BadEmailExample()
    ensures HandleSubmit(FormData(Some("A"), Some("not-an-email"), Some(""), Some("hi"))).toast
            == ShowToast(ErrorTitle, EmailMessage, "error")
  {
    NoAtSignFails();
    EmailCheckIsRegex("not-an-email");
  }

  /** A filled form with a shaped email succeeds and clears every field. */
  lemma SuccessExample()
    ensures HandleSubmit(FormData(Some("A"), Some("a@b.com"), Some(""), Some("hi")))
            == Submission(ShowToast(SuccessTitle, SuccessMessage, "success"),
                          FormData(Some(""), Some(""), Some(""), Some("")))
  {
    ShapedAddressPasses();
    EmailCheckIsRegex("a@b.com");
  }

  /** Blanks count as filled: a name and a message of one space are accepted. */
  lemma BlankFieldsAccepted()
    ensures Validate(FormData(Some(" "), Some("a@b.com"), None, Some(" "))) == Success
  {
    ShapedAddressPasses();
    EmailCheckIsRegex("a@b.com");
  }
}
