/** The sign-in / sign-up page. Authentication is simulated: the submit builds
    the user profile from the form alone and hands it to the application. */
module AuthPage {
  import opened Records
  import Text

  datatype AuthForm = AuthForm(name: string, email: string, password: string)

  /** `isLogin` and the form. */
  datatype Page = Page(isLogin: bool, form: AuthForm)

  const InitialPage: Page := Page(true, AuthForm("", "", ""))

  /** The fallback display name when the email has nothing before its first '@'. */
  const FallbackName: string := "User"

  /** `email.split('@')[0] || 'User'`. */
  function LoginName(email: string): (r: string)
    ensures r != "" && '@' !in r
    ensures Text.IsPrefix(r, email) || r == FallbackName
    ensures r == FallbackName <==> email == "" || email[0] == '@' || Text.BeforeFirst(email, '@') == FallbackName
  {
    var local := Text.BeforeFirst(email, '@');
    if local != "" then local else FallbackName
  }

  /** `handleSubmit`: the profile passed to the application after the simulated delay. */
  function Submit(p: Page): (r: User)
    ensures r.email == p.form.email
    ensures !p.isLogin ==> r.name == p.form.name
    ensures p.isLogin ==> r.name == LoginName(p.form.email)
  {
    User(if p.isLogin then LoginName(p.form.email) else p.form.name, p.form.email)
  }

  /** Signing in as `local@domain` shows `local`. */
  lemma LoginNameIsLocalPart(local: string, domain: string)
    requires local != "" && '@' !in local
    ensures LoginName(local + "@" + domain) == local
  {
    var email := local + "@" + domain;
    var r := Text.BeforeFirst(email, '@');
    assert email[|local|] == '@';
    assert email[..|local|] == local;
  }

  /** An address without '@' is shown whole. */
  lemma LoginNameWithoutAt(email: string)
    requires email != "" && '@' !in email
    ensures LoginName(email) == email
  {
  }

  /** The password never influences the profile. */
  lemma PasswordIgnored(p: Page, password: string)
    ensures Submit(p.(form := p.form.(password := password))) == Submit(p)
  {
  }

  /** The "Sign up" / "Log in" switch. */
  function ToggleMode(p: Page): (r: Page)
    ensures r.isLogin != p.isLogin && r.form == p.form
  {
    p.(isLogin := !p.isLogin)
  }

  lemma ToggleModeTwice(p: Page)
    ensures ToggleMode(ToggleMode(p)) == p
  {
  }
}
