/** The login form and the session switch it feeds: the schema, the
    credential decision with its per-field messages, and which screen the
    stored session id selects. */
module LoginForm {
  import opened Wrappers

  /** The values typed into the form. */
  datatype LoginInput = LoginInput(mobile: string, password: string)

  /** The configured account (the build's environment settings). */
  datatype Credentials = Credentials(mobile: string, password: string)

  const MIN_PASSWORD_LENGTH: nat := 8

  /** The schema: a non-empty mobile and a password of at least 8
      characters. With the schema resolver in place the fields' own
      validate rules are not consulted. */
  predicate SchemaValid(input: LoginInput) {
    |input.mobile| >= 1 && |input.password| >= MIN_PASSWORD_LENGTH
  }

  /** What onSubmit does: store the session id, or set one message on each
      field (an empty message shows no error). */
  datatype LoginEffect =
    | SetUserId(userId: string)
    | SetErrors(mobileError: string, passwordError: string)

  function OnSubmit(input: LoginInput, account: Credentials): (e: LoginEffect)
    ensures e.SetUserId? <==> input.mobile == account.mobile && input.password == account.password
    ensures e.SetUserId? ==> e.userId == input.mobile
    ensures e.SetErrors? ==> (e.mobileError == "Invalid Mobile" <==> input.mobile != account.mobile)
    ensures e.SetErrors? ==> (e.mobileError == "" <==> input.mobile == account.mobile)
    ensures e.SetErrors? ==> (e.passwordError == "Invalid Password" <==> input.password != account.password)
    ensures e.SetErrors? ==> (e.passwordError == "" <==> input.password == account.password)
  {
    if input.mobile == account.mobile && input.password == account.password then
      SetUserId(input.mobile)
    else
      SetErrors(if input.mobile == account.mobile then "" else "Invalid Mobile",
                if input.password == account.password then "" else "Invalid Password")
  }

  /** A refused login always shows at least one error. */
  lemma RefusalShowsAnError(input: LoginInput, account: Credentials)
    ensures var e := OnSubmit(input, account);
      e.SetErrors? ==> e.mobileError != "" || e.passwordError != ""
  {
  }

  /** handleSubmit: onSubmit runs only for input the schema accepts. */
  function HandleSubmit(input: LoginInput, account: Credentials): (e: Option<LoginEffect>)
    ensures e.Some? <==> SchemaValid(input)
    ensures e.Some? ==> e.value == OnSubmit(input, account)
  {
    if SchemaValid(input) then Some(OnSubmit(input, account)) else None
  }

  // ---------------------------------------------------------------------
  // The session

  /** The two screens: the login form, or the main layout with the table. */
  datatype Screen = LoginScreen | MainScreen

  /** The app shows the main layout exactly when the stored id is non-empty. */
  function ScreenOf(userId: string): (s: Screen)
    ensures s == MainScreen <==> userId != ""
  {
    if userId != "" then MainScreen else LoginScreen
  }

  /** The stored id after an effect: only SetUserId writes it. */
  function SessionAfter(userId: string, e: Option<LoginEffect>): (r: string)
    ensures e.Some? && e.value.SetUserId? ==> r == e.value.userId
    ensures !(e.Some? && e.value.SetUserId?) ==> r == userId
  {
    if e.Some? && e.value.SetUserId? then e.value.userId else userId
  }

  /** "Log out" stores the empty id. */
  function Logout(): (r: string)
    ensures ScreenOf(r) == LoginScreen
  {
    ""
  }

  /** From the login screen, a submission reaches the main layout exactly
      when the schema accepts the input and both fields match the account;
      the stored id is then the mobile. */
  lemma LoginReachesMain(input: LoginInput, account: Credentials)
    ensures var id := SessionAfter("", HandleSubmit(input, account));
      && (ScreenOf(id) == MainScreen
          <==> SchemaValid(input) && input.mobile == account.mobile && input.password == account.password)
      && (ScreenOf(id) == MainScreen ==> id == input.mobile)
  {
  }
}
