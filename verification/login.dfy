/** The official login form (`LoginPage`): two text fields, a show-password
    toggle, and a submit that checks the credentials after a delay. The
    delay is split into two steps: `Submit`, which starts it, and `Resolve`,
    which the timer runs later with the credentials captured at submission. */
module Login {
  import opened Wrappers

  /** The form's state: the `credentials` object, `showPassword`, `error`
      and `isLoading`. */
  datatype Form = Form(username: string, password: string, showPassword: bool, error: string, isLoading: bool)

  /** The form as it is mounted. */
  const Blank: Form := Form("", "", false, "", false)

  /** The credentials the pending check will look at. */
  datatype Pending = Pending(username: string, password: string)

  /** The message shown after a failed check. */
  const InvalidMessage: string := "Invalid credentials. Try admin/admin123 or officer/officer123"

  /** The two accepted pairs, compared exactly (case-sensitively). */
  predicate ValidCredentials(username: string, password: string) {
    (username == "admin" && password == "admin123")
    || (username == "officer" && password == "officer123")
  }

  /** Typing into the username field. */
  function EditUsername(f: Form, username: string): (r: Form)
    ensures r.username == username && r.password == f.password
    ensures r.error == f.error && r.isLoading == f.isLoading && r.showPassword == f.showPassword
  {
    f.(username := username)
  }

  /** Typing into the password field. */
  function EditPassword(f: Form, password: string): (r: Form)
    ensures r.password == password && r.username == f.username
    ensures r.error == f.error && r.isLoading == f.isLoading && r.showPassword == f.showPassword
  {
    f.(password := password)
  }

  /** The eye button. */
  function TogglePassword(f: Form): (r: Form)
    ensures r.showPassword != f.showPassword
    ensures r.username == f.username && r.password == f.password
  {
    f.(showPassword := !f.showPassword)
  }

  /** The browser submits the form only when the submit button is enabled
      (not loading) and both `required` fields are filled in. */
  predicate CanSubmit(f: Form) {
    !f.isLoading && f.username != "" && f.password != ""
  }

  /** `handleSubmit`: clears the error, shows the spinner and starts the
      check of the credentials as they are now. */
  function Submit(f: Form): (r: (Form, Option<Pending>))
    ensures r.1.Some? <==> CanSubmit(f)
    ensures r.1.Some? ==> r.0.isLoading && r.0.error == "" && r.1.value == Pending(f.username, f.password)
    ensures r.1.None? ==> r.0 == f
    ensures r.0.username == f.username && r.0.password == f.password
  {
    if CanSubmit(f) then (f.(isLoading := true, error := ""), Some(Pending(f.username, f.password)))
    else (f, None)
  }

  /** The form after the check and whether `onLogin` was called. */
  datatype Resolution = Resolution(form: Form, loggedIn: bool)

  /** The timer's callback: `onLogin` for a valid pair, the fixed message
      otherwise; the spinner stops either way. */
  function Resolve(f: Form, p: Pending): (r: Resolution)
    ensures !r.form.isLoading
    ensures r.form.username == f.username && r.form.password == f.password
  {
    if ValidCredentials(p.username, p.password) then Resolution(f.(isLoading := false), true)
    else Resolution(f.(error := InvalidMessage, isLoading := false), false)
  }

  /** Submitting and letting the check run: login succeeds exactly for the
      two accepted pairs; a failure shows the fixed message, a success shows
      no message; the spinner is off afterwards. */
  lemma SubmitResolve(f: Form)
    requires CanSubmit(f)
    ensures var (g, p) := Submit(f);
      var r := Resolve(g, p.value);
      (r.loggedIn <==> ValidCredentials(f.username, f.password))
      && (r.form.error == InvalidMessage <==> !ValidCredentials(f.username, f.password))
      && (r.loggedIn ==> r.form.error == "")
      && !r.form.isLoading
  {
  }

  /** The check uses the credentials captured at submission: typing during
      the delay does not change the outcome. */
  lemma EditsDuringDelayIgnored(f: Form, u: string, pw: string)
    requires CanSubmit(f)
    ensures var (g, p) := Submit(f);
      Resolve(EditPassword(EditUsername(g, u), pw), p.value).loggedIn == Resolve(g, p.value).loggedIn
  {
  }

  /** While the check is pending, a second submit does nothing. */
  lemma NoDoubleSubmit(f: Form)
    requires CanSubmit(f)
    ensures var g := Submit(f).0;
      Submit(g) == (g, None)
  {
  }

  /** Only the exact pairs pass: a capitalised user name or a wrong password
      is refused. */
  lemma CredentialsAreExact()
    ensures ValidCredentials("admin", "admin123") && ValidCredentials("officer", "officer123")
    ensures !ValidCredentials("Admin", "admin123") && !ValidCredentials("admin", "officer123")
    ensures !ValidCredentials("officer", "admin123")
  {
  }
}
