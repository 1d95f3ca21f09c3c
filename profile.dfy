/**
 * The password change on the profile page (client/src/components/profile/ProfilePage.tsx): two
 * client-side checks before the request, then the fields are cleared on success. The request's
 * outcome is a parameter, and the toasts are returned instead of shown.
 */
module PasswordChange {
  import opened Wrappers
  import Gauge
  import Validation
  import JsText

  /** A toast the page shows. */
  datatype Toast = ToastSuccess(text: string) | ToastError(text: string)

  const MismatchMessage := "Konfirmasi password tidak cocok"
  const TooShortMessage := "Password baru harus minimal 6 karakter"

  /**
   * The checks before any request: the confirmation first, then the length. String length is
   * counted in characters.
   */
  function Gate(newPassword: string, confirmPassword: string): Option<string> {
    if newPassword != confirmPassword then Some(MismatchMessage)
    else if |newPassword| < 6 then Some(TooShortMessage)
    else None
  }

  /**
   * A request is made exactly when the two entries agree and have at least six characters; a
   * mismatch is reported even when the new password is also too short.
   */
  lemma GateOrder(newPassword: string, confirmPassword: string)
    ensures Gate(newPassword, confirmPassword).None? <==> newPassword == confirmPassword && |newPassword| >= 6
    ensures newPassword != confirmPassword ==> Gate(newPassword, confirmPassword) == Some(MismatchMessage)
    ensures newPassword == confirmPassword && |newPassword| < 6 ==> Gate(newPassword, confirmPassword) == Some(TooShortMessage)
  {
  }

  /**
   * The page's check is weaker than the server's password policy: whatever the policy accepts
   * passes it, but "abcdef" passes it and is not a valid password.
   */
  lemma GateWeakerThanPolicy(p: string)
    ensures Validation.IsValidPassword(p) ==> Gate(p, p).None?
    ensures Gate("abcdef", "abcdef").None? && !Validation.IsValidPassword("abcdef")
  {
    var q := "abcdef";
    assert !Validation.HasDigit(q) by {
      assert forall i | 0 <= i < |q| :: !JsText.IsDecimalDigit(q[i]);
    }
  }

  /** How the PUT to `/api/profile/password` ended. */
  datatype Outcome =
    | Changed
    /** A non-OK answer, with its body's `error` field. */
    | NotOk(error: Option<string>)
    /** The request or the reading of its body threw, with this message. */
    | Threw(message: string)

  class ProfilePage {
    var oldPassword: string
    var newPassword: string
    var confirmPassword: string
    var isChangingPassword: bool

    constructor()
      ensures oldPassword == "" && newPassword == "" && confirmPassword == "" && !isChangingPassword
    {
      oldPassword := "";
      newPassword := "";
      confirmPassword := "";
      isChangingPassword := false;
    }

    /**
     * `handleChangePassword`: a refused check shows its message and sends nothing; otherwise the
     * old and new passwords are sent, a success clears all three fields, and a failure shows the
     * server's message (or a fixed one) and keeps them.
     */
    method HandleChangePassword(outcome: Outcome) returns (sent: Option<(string, string)>, toast: Toast)
      modifies this
      ensures var gate := Gate(old(newPassword), old(confirmPassword));
        && (gate.Some? ==> sent.None? && toast == ToastError(gate.value))
        && (gate.None? ==> sent == Some((old(oldPassword), old(newPassword))))
      ensures sent.Some? && outcome.Changed? ==>
        && toast == ToastSuccess("Password berhasil diubah")
        && oldPassword == "" && newPassword == "" && confirmPassword == ""
      ensures sent.None? || !outcome.Changed? ==>
        && oldPassword == old(oldPassword) && newPassword == old(newPassword)
        && confirmPassword == old(confirmPassword)
      ensures sent.Some? && outcome.NotOk? ==>
        toast == ToastError(if Gauge.Present(outcome.error) then outcome.error.value else "Failed to change password")
      ensures sent.Some? && outcome.Threw? ==> toast == ToastError(outcome.message)
      ensures sent.Some? ==> !isChangingPassword
      ensures sent.None? ==> isChangingPassword == old(isChangingPassword)
    {
      var gate := Gate(newPassword, confirmPassword);
      if gate.Some? {
        return None, ToastError(gate.value);
      }
      isChangingPassword := true;
      sent := Some((oldPassword, newPassword));
      match outcome {
        case Changed =>
          toast := ToastSuccess("Password berhasil diubah");
          oldPassword := "";
          newPassword := "";
          confirmPassword := "";
        case NotOk(error) =>
          toast := ToastError(if Gauge.Present(error) then error.value else "Failed to change password");
        case Threw(message) =>
          toast := ToastError(message);
      }
      isChangingPassword := false;
    }
  }
}
