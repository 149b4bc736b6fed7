/** What a handler sends back: a status code and a JSON body. */
module Http {

  /** The status codes the controller answers with: 200 OK, 404 NOT_FOUND
      and 406 NOT_ACCEPTABLE. */
  datatype Status = Ok | NotFound | NotAcceptable

  /** The public view of a user record, a JSON object given as its fields. */
  datatype UserView = UserView(fields: seq<(string, string)>)

  /** Response bodies. */
  datatype Body =
    | Message(text: string)
    | Picked(user: UserView)
    | LoggedOut(loggedOut: bool)
    | QrCode(qrcode: string)
    | Verified(user: UserView, is2faVerified: bool, lastLogin: int)

  datatype Response = Response(status: Status, body: Body)

  const UserNotFound := "User not found!"
  const WrongPassword := "Wrong password!"
  const SecretNotFound := "2FA secret key not found!"
  const TokenRequired := "OTP token is required!"
  const InvalidToken := "Invalid OTP token!"
}
