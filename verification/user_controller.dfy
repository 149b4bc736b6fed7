/** The five request handlers of the user controller, each a pure transition
    from a store to a new store and a response.

    Collaborators the handlers call but whose internals are not modelled are
    parameters: `pick` is the public projection of a user record, `verify`
    the TOTP check of a token against a secret at a clock reading, `keyUri`
    the provisioning URI builder, `toDataUrl` the QR-code renderer,
    `freshSecret` the value the secret generator yields, `verifyTime` the
    clock reading the TOTP check sees, and `deviceId` and `loginTime` the
    device key and the `last_login` clock reading of a new session. The two
    clock readings are separate, as the handler reads the clock twice. */
module UserController {
  import opened Collections
  import opened Documents
  import opened Http

  /** The service label written into every provisioning URI. */
  const ServiceName := "2FA-Demo (Dev)"

  /** JavaScript falsiness of the submitted token: absent or empty. */
  predicate IsFalsy(token: Option<string>) {
    token.None? || token.value == ""
  }

  /** POST /login: find the user by email, then compare passwords. No
      collection is written; in particular no session is created. */
  function Login(db: Db, email: string, password: Option<string>, pick: User -> UserView): (r: (Db, Response))
    ensures r.0 == db
    ensures r.1.status == NotFound <==> !HasUserWithEmail(db.users, email)
    ensures r.1.status == NotFound ==> r.1.body == Message(UserNotFound)
    ensures forall i :: FirstUserWithEmail(db.users, email, i) ==>
              if password == Some(db.users[i].password)
              then r.1 == Response(Ok, Picked(pick(db.users[i])))
              else r.1 == Response(NotAcceptable, Message(WrongPassword))
  {
    match UserByEmail(db.users, email)
    case None => (db, Response(NotFound, Message(UserNotFound)))
    case Some(i) =>
      assert forall j :: FirstUserWithEmail(db.users, email, j) ==> j == i;
      var user := db.users[i];
      if Some(user.password) != password then (db, Response(NotAcceptable, Message(WrongPassword)))
      else (db, Response(Ok, Picked(pick(user))))
  }

  /** GET /:id: the public view of one user; read-only. */
  function GetUser(db: Db, id: string, pick: User -> UserView): (r: (Db, Response))
    ensures r.0 == db
    ensures r.1.status == NotFound <==> !HasUser(db.users, id)
    ensures r.1.status == NotFound ==> r.1.body == Message(UserNotFound)
    ensures forall i :: FirstUserWithId(db.users, id, i) ==>
              r.1 == Response(Ok, Picked(pick(db.users[i])))
  {
    match UserById(db.users, id)
    case None => (db, Response(NotFound, Message(UserNotFound)))
    case Some(i) =>
      assert forall j :: FirstUserWithId(db.users, id, j) ==> j == i;
      (db, Response(Ok, Picked(pick(db.users[i]))))
  }

  /** DELETE /:id/logout: acknowledges a known user; deletes nothing. */
  function Logout(db: Db, id: string): (r: (Db, Response))
    ensures r.0 == db
    ensures r.1.status == NotFound <==> !HasUser(db.users, id)
    ensures r.1.status == NotFound ==> r.1.body == Message(UserNotFound)
    ensures HasUser(db.users, id) ==> r.1 == Response(Ok, LoggedOut(true))
  {
    match UserById(db.users, id)
    case None => (db, Response(NotFound, Message(UserNotFound)))
    case Some(_) => (db, Response(Ok, LoggedOut(true)))
  }

  /** GET /:id/get_2fa_qr_code: get-or-create the user's secret, then answer
      with the QR code of its provisioning URI. */
  function Get2FAQRCode(db: Db, id: string, freshSecret: string,
                        keyUri: (string, string, string) -> string,
                        toDataUrl: string -> string): (r: (Db, Response))
    // users and sessions are never touched
    ensures r.0.users == db.users && r.0.sessions == db.sessions
    ensures r.1.status == NotFound <==> !HasUser(db.users, id)
    ensures r.1.status == NotFound ==> r.0 == db && r.1.body == Message(UserNotFound)
    // an existing secret is reused, a missing one is inserted exactly once
    ensures HasSecret(db.secrets, id) ==> r.0.secrets == db.secrets
    ensures HasUser(db.users, id) && !HasSecret(db.secrets, id) ==>
              r.0.secrets == db.secrets + [Secret(id, freshSecret)]
    // the QR code encodes the secret the store now holds for the user
    ensures forall i, k :: FirstUserWithId(db.users, id, i) && FirstSecretOf(r.0.secrets, id, k) ==>
              r.1 == Response(Ok, QrCode(toDataUrl(keyUri(db.users[i].email, ServiceName, r.0.secrets[k].value))))
  {
    match UserById(db.users, id)
    case None => (db, Response(NotFound, Message(UserNotFound)))
    case Some(i) =>
      assert forall j :: FirstUserWithId(db.users, id, j) ==> j == i;
      var user := db.users[i];
      match SecretOf(db.secrets, user.id)
      case None =>
        var issued := Secret(user.id, freshSecret);
        var uri := keyUri(user.email, ServiceName, issued.value);
        (db.(secrets := db.secrets + [issued]), Response(Ok, QrCode(toDataUrl(uri))))
      case Some(k) =>
        var uri := keyUri(user.email, ServiceName, db.secrets[k].value);
        (db, Response(Ok, QrCode(toDataUrl(uri))))
  }

  /** POST /:id/setup_2fa: check the guards in order (user, secret, token
      present, token accepted); on success turn on `require_2fa` and insert a
      verified session. */
  function Setup2FA(db: Db, id: string, otpToken: Option<string>,
                    verify: (string, string, int) -> bool, verifyTime: int,
                    deviceId: string, loginTime: int, pick: User -> UserView): (r: (Db, Response))
    // guard 1: unknown user
    ensures !HasUser(db.users, id) ==> r == (db, Response(NotFound, Message(UserNotFound)))
    // guard 2: missing secret, whatever the token
    ensures HasUser(db.users, id) && !HasSecret(db.secrets, id) ==>
              r == (db, Response(NotFound, Message(SecretNotFound)))
    // guard 3: absent or empty token
    ensures HasUser(db.users, id) && HasSecret(db.secrets, id) && IsFalsy(otpToken) ==>
              r == (db, Response(NotAcceptable, Message(TokenRequired)))
    // guard 4: token rejected against the user's secret
    ensures forall k ::
              (HasUser(db.users, id) && FirstSecretOf(db.secrets, id, k) && !IsFalsy(otpToken)
               && !verify(otpToken.value, db.secrets[k].value, verifyTime)) ==>
              r == (db, Response(NotAcceptable, Message(InvalidToken)))
    // success exactly when every guard passes
    ensures r.1.status == Ok <==>
              exists k :: HasUser(db.users, id) && FirstSecretOf(db.secrets, id, k) && !IsFalsy(otpToken)
                && verify(otpToken.value, db.secrets[k].value, verifyTime)
    ensures r.1.status != Ok ==> r.0 == db
    // on success: the flag is raised on that user only, one verified session is added
    ensures forall i :: FirstUserWithId(db.users, id, i) && r.1.status == Ok ==>
              && |r.0.users| == |db.users|
              && r.0.users[i] == db.users[i].(require2fa := true)
              && (forall j :: 0 <= j < |db.users| && j != i ==> r.0.users[j] == db.users[j])
              && r.0.secrets == db.secrets
              && r.0.sessions == db.sessions + [Session(id, deviceId, true, loginTime)]
              && r.1.body == Verified(pick(r.0.users[i]), true, loginTime)
  {
    match UserById(db.users, id)
    case None => (db, Response(NotFound, Message(UserNotFound)))
    case Some(i) =>
      assert forall j :: FirstUserWithId(db.users, id, j) ==> j == i;
      var user := db.users[i];
      match SecretOf(db.secrets, user.id)
      case None => (db, Response(NotFound, Message(SecretNotFound)))
      case Some(k) =>
        if IsFalsy(otpToken) then (db, Response(NotAcceptable, Message(TokenRequired)))
        else if !verify(otpToken.value, db.secrets[k].value, verifyTime) then
          (db, Response(NotAcceptable, Message(InvalidToken)))
        else
          var updated := user.(require2fa := true);
          var session := Session(user.id, deviceId, true, loginTime);
          var db' := Db(db.users[i := updated], db.secrets, db.sessions + [session]);
          (db', Response(Ok, Verified(pick(updated), session.verified, session.lastLogin)))
  }
}
