/**
 * The input check of the login filter: the membership number must have the
 * configured length and the password a length within the configured bounds
 * before authentication is handed on to the standard filter.
 */
module AuthFilter {
  import opened Common

  /** How an authentication attempt ends at this filter. */
  datatype AuthOutcome =
    | UsernameNotFound   // the membership number is missing or of the wrong length
    | BadCredentials     // the password is missing or of a length outside the bounds
    | Delegate           // handed on to the parent filter's authentication

  datatype Thresholds = Thresholds(membershipNumberLength: int, passwordMaxLength: int, passwordMinLength: int)

  const DefaultThresholds := Thresholds(10, 20, 8)

  predicate UsernameAccepted(username: Option<string>, t: Thresholds)
  {
    username.Some? && |username.value| == t.membershipNumberLength
  }

  predicate PasswordAccepted(password: Option<string>, t: Thresholds)
  {
    password.Some? && t.passwordMinLength <= |password.value| <= t.passwordMaxLength
  }

  /** The decision of the filter: the username check comes first, then the password check. */
  function CheckCredentials(username: Option<string>, password: Option<string>, t: Thresholds): (r: AuthOutcome)
    ensures r == UsernameNotFound <==> !UsernameAccepted(username, t)
    ensures r == BadCredentials <==> UsernameAccepted(username, t) && !PasswordAccepted(password, t)
    ensures r == Delegate <==> UsernameAccepted(username, t) && PasswordAccepted(password, t)
  {
    if username.None? || |username.value| != t.membershipNumberLength then UsernameNotFound
    else if password.None? || |password.value| < t.passwordMinLength || |password.value| > t.passwordMaxLength
    then BadCredentials
    else Delegate
  }

  /** A request wrong in both fields reports the username. */
  lemma UsernameReportedFirst(username: Option<string>, password: Option<string>, t: Thresholds)
    requires !UsernameAccepted(username, t) && !PasswordAccepted(password, t)
    ensures CheckCredentials(username, password, t) == UsernameNotFound
  {
  }

  /** Password lengths exactly at the minimum or the maximum are accepted. */
  lemma PasswordBoundsInclusive(username: string, password: string, t: Thresholds)
    requires |username| == t.membershipNumberLength
    requires |password| == t.passwordMinLength || |password| == t.passwordMaxLength
    requires t.passwordMinLength <= t.passwordMaxLength
    ensures CheckCredentials(Some(username), Some(password), t) == Delegate
  {
  }

  class AtrsUsernamePasswordAuthenticationFilter {
    var membershipNumberLength: int
    var passwordMaxLength: int
    var passwordMinLength: int

    function CurrentThresholds(): Thresholds
      reads this
    {
      Thresholds(membershipNumberLength, passwordMaxLength, passwordMinLength)
    }

    /** A new filter carries the defaults: number length 10, password length 8 to 20. */
    constructor ()
      ensures CurrentThresholds() == DefaultThresholds
      ensures membershipNumberLength == 10 && passwordMaxLength == 20 && passwordMinLength == 8
    {
      membershipNumberLength := 10;
      passwordMaxLength := 20;
      passwordMinLength := 8;
    }

    /**
     * Checks the request's username and password and delegates only when both
     * pass. The body is the filter's own code over its fields; `CheckCredentials`
     * is the decision it is proved to implement, stated once over a threshold value.
     */
    method AttemptAuthentication(username: Option<string>, password: Option<string>) returns (r: AuthOutcome)
      ensures r == CheckCredentials(username, password, CurrentThresholds())
      ensures r == Delegate ==> |username.value| == membershipNumberLength
      ensures r == Delegate ==> passwordMinLength <= |password.value| <= passwordMaxLength
    {
      if username.None? || |username.value| != membershipNumberLength {
        return UsernameNotFound;
      }
      if password.None? || |password.value| < passwordMinLength || |password.value| > passwordMaxLength {
        return BadCredentials;
      }
      return Delegate;
    }

    method SetMembershipNumberLength(n: int)
      modifies this
      ensures CurrentThresholds() == old(CurrentThresholds()).(membershipNumberLength := n)
    {
      membershipNumberLength := n;
    }

    method SetPasswordMaxLength(n: int)
      modifies this
      ensures CurrentThresholds() == old(CurrentThresholds()).(passwordMaxLength := n)
    {
      passwordMaxLength := n;
    }

    method SetPasswordMinLength(n: int)
      modifies this
      ensures CurrentThresholds() == old(CurrentThresholds()).(passwordMinLength := n)
    {
      passwordMinLength := n;
    }
  }
}
