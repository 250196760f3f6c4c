/**
 * The form's submit handler: it clears the success text and every error,
 * runs all four validators (each result is kept before any is combined, so
 * none is skipped), and when all four pass shows the success text and resets
 * the form.
 */
module Form {
  import opened Text
  import opened Validation

  /** The four raw field values at the moment of submission. */
  datatype Values = Values(name: string, email: string, password: string, age: string)

  /** The verdict shown under each field after a submission. */
  datatype Report = Report(name: Verdict, email: Verdict, password: Verdict, age: Verdict)
  {
    predicate AllValid()
    {
      name == Valid && email == Valid && password == Valid && age == Valid
    }
  }

  /** What a submission leaves on the page. */
  datatype Submission = Submission(report: Report, successText: string, reset: bool)

  const SuccessText := "Form submitted successfully!"

  /**
   * The submit handler. Every field's verdict is its own validator's verdict,
   * whatever the other fields hold; the success text is shown and the form
   * reset exactly when all four pass, and otherwise the success text is empty.
   */
  function Submit(form: Values): (s: Submission)
    ensures s.report.name == ValidateName(form.name)
    ensures s.report.email == ValidateEmail(form.email)
    ensures s.report.password == ValidatePassword(form.password)
    ensures s.report.age == ValidateAge(form.age)
    ensures s.reset <==> s.report.AllValid()
    ensures s.successText == (if s.reset then SuccessText else "")
  {
    var nameValid := ValidateName(form.name);
    var emailValid := ValidateEmail(form.email);
    var passwordValid := ValidatePassword(form.password);
    var ageValid := ValidateAge(form.age);
    var report := Report(nameValid, emailValid, passwordValid, ageValid);
    if report.AllValid() then Submission(report, SuccessText, true)
    else Submission(report, "", false)
  }

  /** A submission succeeds exactly when each field meets its own rules. */
  lemma SubmitSucceedsIff(form: Values)
    ensures Submit(form).reset <==>
              && AcceptableName(Trim(form.name))
              && EmailRegex(Trim(form.email))
              && StrongPassword(form.password)
              && AcceptableAge(form.age)
  {
  }
}
