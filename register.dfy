/**
 * `Register`: the sign-up page. The password and its confirmation are checked locally before
 * the account is requested, and the authentication error codes become Portuguese messages.
 */
module Register {
  import opened Models

  const Mismatch: string := "As senhas não coincidem"
  const TooShort: string := "A senha deve ter no mínimo 6 caracteres"
  const EmailInUse: string := "Este e-mail já está cadastrado"
  const InvalidEmail: string := "E-mail inválido"
  const WeakPassword: string := "Senha muito fraca. Use no mínimo 6 caracteres"
  const SignUpFailed: string := "Erro ao criar conta. Tente novamente."

  const MinPasswordLength: nat := 6

  /** Lines 37-45: the mismatch is checked first, then the length. */
  function PasswordError(password: string, confirmPassword: string): (r: Option<string>)
    ensures r == Some(Mismatch) <==> password != confirmPassword
    ensures r == Some(TooShort) <==> password == confirmPassword && |password| < MinPasswordLength
    ensures r.None? <==> password == confirmPassword && |password| >= MinPasswordLength
  {
    if password != confirmPassword then Some(Mismatch)
    else if |password| < MinPasswordLength then Some(TooShort)
    else None
  }

  /** A short pair that also differs reports the mismatch, since that check runs first. */
  lemma MismatchReportedFirst(password: string, confirmPassword: string)
    requires password != confirmPassword && |password| < MinPasswordLength
    ensures PasswordError(password, confirmPassword) == Some(Mismatch)
  {
  }

  /** The sign-up failure codes with a message of their own; every other code gets the generic one. */
  function SignUpErrorMessage(code: string): (r: string)
    ensures r == EmailInUse <==> code == "auth/email-already-in-use"
    ensures r == InvalidEmail <==> code == "auth/invalid-email"
    ensures r == WeakPassword <==> code == "auth/weak-password"
    ensures r == SignUpFailed <==> code !in {"auth/email-already-in-use", "auth/invalid-email", "auth/weak-password"}
  {
    if code == "auth/email-already-in-use" then EmailInUse
    else if code == "auth/invalid-email" then InvalidEmail
    else if code == "auth/weak-password" then WeakPassword
    else SignUpFailed
  }

  /** What `signUp` does: succeed, or fail with an error code. */
  datatype SignUpOutcome = SignedUp | Rejected(code: string)

  /** The page's state: the error shown, the busy flag, and whether it went on to the home route. */
  class RegisterPage {
    var error: string
    var loading: bool
    var navigatedHome: bool

    constructor ()
      ensures error == "" && !loading && !navigatedHome
    {
      error, loading, navigatedHome := "", false, false;
    }

    /**
     * `handleSubmit`: clears the error, runs the password checks and, only when they pass, calls
     * `signUp`, whose result is `outcome`. The submit button is disabled while loading.
     */
    method HandleSubmit(password: string, confirmPassword: string, outcome: SignUpOutcome) returns (calledSignUp: bool)
      requires !loading
      modifies this
      ensures calledSignUp <==> PasswordError(password, confirmPassword).None?
      ensures !calledSignUp ==> error == PasswordError(password, confirmPassword).value
      ensures calledSignUp && outcome.SignedUp? ==> error == ""
      ensures calledSignUp && outcome.Rejected? ==> error == SignUpErrorMessage(outcome.code)
      ensures navigatedHome == (old(navigatedHome) || (calledSignUp && outcome.SignedUp?))
      ensures !loading
    {
      error := "";
      calledSignUp := false;
      var check := PasswordError(password, confirmPassword);
      if check.Some? {
        error := check.value;
        return;
      }
      loading := true;
      calledSignUp := true;
      match outcome {
        case SignedUp =>
          navigatedHome := true;
        case Rejected(code) =>
          error := SignUpErrorMessage(code);
      }
      loading := false;
    }
  }
}
