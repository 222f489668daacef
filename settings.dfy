/** `handleSubmit` of `src/app/admin/settings/page.tsx`: the client-side
    checks, the server call, the toasts and the `loading` flag. Submitting
    is two steps: the submit handler either rejects locally or sends a
    request, and the awaited server action later replies or throws. */
module Settings {
  import opened Strings
  import Actions
  import Auth

  const MinPasswordLength: nat := 12
  const TooShortMessage: string := "New password must be at least 12 characters long"
  const MismatchMessage: string := "New passwords do not match"
  const UnchangedMessage: string := "New password must be different from current password"

  /** The client-side checks in their order; `None` when all pass. */
  function ClientCheck(currentPassword: string, newPassword: string, confirmPassword: string): (r: Option<string>)
    ensures r.None? <==>
      |newPassword| >= MinPasswordLength && newPassword == confirmPassword && currentPassword != newPassword
    ensures |newPassword| < MinPasswordLength ==> r == Some(TooShortMessage)
    ensures |newPassword| >= MinPasswordLength && newPassword != confirmPassword ==> r == Some(MismatchMessage)
    ensures |newPassword| >= MinPasswordLength && newPassword == confirmPassword && currentPassword == newPassword ==>
      r == Some(UnchangedMessage)
  {
    if |newPassword| < MinPasswordLength then Some(TooShortMessage)
    else if newPassword != confirmPassword then Some(MismatchMessage)
    else if currentPassword == newPassword then Some(UnchangedMessage)
    else None
  }

  /** A form that passes the client checks is never rejected by the server
      for length or for reuse: the server repeats those two checks. Only
      the session, an empty current password, the admin lookup and the
      current-password comparison can still fail it. */
  lemma ServerAgreesWithClient(admins: map<string, Auth.Admin>, sessionEmail: Option<string>,
                               currentPassword: string, newPassword: string, confirmPassword: string,
                               compare: (string, string) -> bool, newHash: string)
    requires ClientCheck(currentPassword, newPassword, confirmPassword).None?
    ensures var o := Actions.ChangePasswordSpec(admins, sessionEmail, Some(currentPassword), Some(newPassword),
                                                compare, newHash);
      && o.result.message != Some("New password must be at least 12 characters long")
      && o.result.message != Some("New password must be different from current password")
      && (o.result.success <==>
            Actions.SignedIn(sessionEmail) && currentPassword != "" && sessionEmail.value in admins
            && compare(currentPassword, admins[sessionEmail.value].password))
  {
    Actions.ChangePasswordOrder(admins, sessionEmail, Some(currentPassword), Some(newPassword), compare, newHash);
  }

  /** `message || fallback` */
  function MessageOr(message: Option<string>, fallback: string): (r: string)
    ensures message.Some? && message.value != "" ==> r == message.value
    ensures message.None? || message.value == "" ==> r == fallback
  {
    if message.Some? && message.value != "" then message.value else fallback
  }

  datatype Toast = Success(text: string) | Failure(text: string)

  /** What the awaited `changePassword` did. */
  datatype Reply = Returned(result: Actions.ActionResult) | Threw

  /** The request the form sends. */
  datatype Request = Request(currentPassword: string, newPassword: string)

  class SettingsForm {
    var currentPassword: string
    var newPassword: string
    var confirmPassword: string
    var loading: bool
    /** Every toast shown, in order. */
    var toasts: seq<Toast>
    /** The delayed `signOut({ callbackUrl: '/login' })` is pending. */
    var signOutScheduled: bool

    constructor()
      ensures currentPassword == "" && newPassword == "" && confirmPassword == ""
      ensures !loading && toasts == [] && !signOutScheduled
    {
      currentPassword := "";
      newPassword := "";
      confirmPassword := "";
      loading := false;
      toasts := [];
      signOutScheduled := false;
    }

    /** The form is submitted: a failed client check shows its message and
        sends nothing; otherwise `loading` is set and the request is sent. */
    method Submit() returns (request: Option<Request>)
      modifies this
      ensures var check := ClientCheck(currentPassword, newPassword, confirmPassword);
        && (check.Some? ==> request.None? && toasts == old(toasts) + [Failure(check.value)]
                            && loading == old(loading))
        && (check.None? ==> request == Some(Request(currentPassword, newPassword))
                            && toasts == old(toasts) && loading)
      ensures currentPassword == old(currentPassword) && newPassword == old(newPassword)
      ensures confirmPassword == old(confirmPassword) && signOutScheduled == old(signOutScheduled)
    {
      if |newPassword| < MinPasswordLength {
        toasts := toasts + [Failure(TooShortMessage)];
        return None;
      }
      if newPassword != confirmPassword {
        toasts := toasts + [Failure(MismatchMessage)];
        return None;
      }
      if currentPassword == newPassword {
        toasts := toasts + [Failure(UnchangedMessage)];
        return None;
      }
      loading := true;
      return Some(Request(currentPassword, newPassword));
    }

    /** The server action settled. Success keeps `loading` set and schedules
        the sign-out; a failure or a throw shows an error and clears it. */
    method Settle(reply: Reply)
      modifies this
      ensures reply.Returned? && reply.result.success ==>
        && toasts == old(toasts) + [Success(MessageOr(reply.result.message, Actions.PasswordChangedMessage))]
        && signOutScheduled && loading == old(loading)
      ensures reply.Returned? && !reply.result.success ==>
        && toasts == old(toasts) + [Failure(MessageOr(reply.result.message, "Failed to change password"))]
        && !loading && signOutScheduled == old(signOutScheduled)
      ensures reply.Threw? ==>
        && toasts == old(toasts) + [Failure("An error occurred while changing password")]
        && !loading && signOutScheduled == old(signOutScheduled)
      ensures currentPassword == old(currentPassword) && newPassword == old(newPassword)
      ensures confirmPassword == old(confirmPassword)
    {
      match reply {
        case Threw =>
          toasts := toasts + [Failure("An error occurred while changing password")];
          loading := false;
        case Returned(result) =>
          if result.success {
            toasts := toasts + [Success(MessageOr(result.message, Actions.PasswordChangedMessage))];
            signOutScheduled := true;
          } else {
            toasts := toasts + [Failure(MessageOr(result.message, "Failed to change password"))];
            loading := false;
          }
      }
    }
  }
}
