/**
 * The two answer validators of the Nubank prompts: the username must be
 * exactly eleven ASCII digits, the password must not be empty. A validator
 * either accepts the answer or returns the message shown to the user.
 */
module Validation {

  datatype Verdict = Accepted | Rejected(message: string)

  const InvalidUsernameMessage: string := "That's an invalid username, try again"
  const MissingPasswordMessage: string := "You must type in the password, try again"

  /** The character class `[0-9]`. */
  predicate IsAsciiDigit(c: char)
  {
    '0' <= c <= '9'
  }

  /** Every character of `s` is an ASCII digit. */
  predicate AllDigits(s: string)
    ensures AllDigits(s) <==> forall i :: 0 <= i < |s| ==> IsAsciiDigit(s[i])
  {
    s == [] || (IsAsciiDigit(s[0]) && AllDigits(s[1..]))
  }

  /** The username validator: the anchored pattern `^[0-9]{11}$`. */
  function ValidateUsername(answer: string): (v: Verdict)
    ensures v == Accepted <==> |answer| == 11 && forall i :: 0 <= i < |answer| ==> IsAsciiDigit(answer[i])
    ensures v != Accepted ==> v == Rejected(InvalidUsernameMessage)
  {
    if |answer| == 11 && AllDigits(answer) then Accepted else Rejected(InvalidUsernameMessage)
  }

  /** The password validator: an answer shorter than one character is refused. */
  function ValidatePassword(answer: string): (v: Verdict)
    ensures v == Accepted <==> answer != []
    ensures v != Accepted ==> v == Rejected(MissingPasswordMessage)
  {
    if |answer| < 1 then Rejected(MissingPasswordMessage) else Accepted
  }
}
