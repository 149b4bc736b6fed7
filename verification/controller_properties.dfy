/** Properties of the handlers that relate several calls, or that hold under
    the store's indexes. */
module ControllerProperties {
  import opened Collections
  import opened Documents
  import opened Http
  import opened UserController

  /** When emails are unique, login succeeds exactly for a stored pair of
      email and password. */
  lemma LoginAcceptsExactlyStoredCredentials(db: Db, email: string, password: Option<string>, pick: User -> UserView)
    requires UniqueEmails(db.users)
    ensures Login(db, email, password, pick).1.status == Ok <==>
              exists u :: u in db.users && u.email == email && Some(u.password) == password
  {
    var r := Login(db, email, password, pick);
    match UserByEmail(db.users, email)
    case None =>
    case Some(i) =>
      if r.1.status != Ok {
        forall u | u in db.users && u.email == email ensures Some(u.password) != password {
          var j :| 0 <= j < |db.users| && db.users[j] == u;
          assert j == i;
        }
      }
  }

  /** Issuing twice in a row: the second call changes nothing and answers with
      the same QR code, whatever value the generator would have produced. */
  lemma IssuanceIsIdempotent(db: Db, id: string, generated1: string, generated2: string,
                             keyUri: (string, string, string) -> string,
                             toDataUrl: string -> string)
    ensures var (db1, r1) := Get2FAQRCode(db, id, generated1, keyUri, toDataUrl);
            Get2FAQRCode(db1, id, generated2, keyUri, toDataUrl) == (db1, r1)
  {
    var (db1, r1) := Get2FAQRCode(db, id, generated1, keyUri, toDataUrl);
    var (db2, r2) := Get2FAQRCode(db1, id, generated2, keyUri, toDataUrl);
    match UserById(db.users, id)
    case None =>
    case Some(i) =>
      if !HasSecret(db.secrets, id) {
        assert db1.secrets[|db.secrets|] == Secret(id, generated1);
      }
      match SecretOf(db1.secrets, id)
      case None =>
      case Some(k) =>
        assert FirstSecretOf(db2.secrets, id, k);
  }

  /** A user who had no secret has exactly one after issuance; every other
      user's count is unchanged. */
  lemma FirstIssuanceCreatesExactlyOne(db: Db, id: string, generated: string,
                                       keyUri: (string, string, string) -> string,
                                       toDataUrl: string -> string, other: string)
    requires HasUser(db.users, id) && SecretCount(db.secrets, id) == 0
    ensures var db1 := Get2FAQRCode(db, id, generated, keyUri, toDataUrl).0;
            && SecretCount(db1.secrets, id) == 1
            && (other != id ==> SecretCount(db1.secrets, other) == SecretCount(db.secrets, other))
  {
    SecretCountZero(db.secrets, id);
    SecretCountAppend(db.secrets, Secret(id, generated), id);
    SecretCountAppend(db.secrets, Secret(id, generated), other);
  }

  /** Issuance keeps "at most one secret per user". */
  lemma IssuanceKeepsOneSecretPerUser(db: Db, id: string, generated: string,
                                      keyUri: (string, string, string) -> string,
                                      toDataUrl: string -> string)
    requires AtMostOneSecret(db.secrets)
    ensures AtMostOneSecret(Get2FAQRCode(db, id, generated, keyUri, toDataUrl).0.secrets)
  {
    var s1 := Get2FAQRCode(db, id, generated, keyUri, toDataUrl).0.secrets;
    if HasUser(db.users, id) && !HasSecret(db.secrets, id) {
      forall a, b | 0 <= a < b < |s1| ensures s1[a].userId != s1[b].userId {
        if b == |db.secrets| {
          assert s1[a] in db.secrets;
        } else {
          assert s1[a] == db.secrets[a] && s1[b] == db.secrets[b];
        }
      }
    }
  }

  /** Under the unique `_id` index a successful setup raises the flag on every
      document with that id and leaves every other document as it was. */
  lemma SetupTouchesOnlyThatUser(db: Db, id: string, otpToken: Option<string>,
                                 verify: (string, string, int) -> bool, verifyTime: int,
                                 deviceId: string, loginTime: int, pick: User -> UserView)
    requires UniqueIds(db.users)
    ensures var r := Setup2FA(db, id, otpToken, verify, verifyTime, deviceId, loginTime, pick);
            r.1.status == Ok ==>
              && |r.0.users| == |db.users|
              && forall j :: 0 <= j < |db.users| ==>
                   r.0.users[j] == if db.users[j].id == id then db.users[j].(require2fa := true) else db.users[j]
  {
    var r := Setup2FA(db, id, otpToken, verify, verifyTime, deviceId, loginTime, pick);
    if r.1.status == Ok {
      var i :| FirstUserWithId(db.users, id, i) by {
        var u :| u in db.users && u.id == id;
        match UserById(db.users, id)
        case Some(i) =>
      }
      forall j | 0 <= j < |db.users| && db.users[j].id == id ensures j == i {
        FirstUserIsOnlyUser(db.users, id, i, j);
      }
    }
  }

  /** Issuing a QR code and then submitting a token the verifier accepts for
      the issued secret turns two-factor authentication on for that user and
      records one verified session stamped with the login clock reading. */
  lemma IssueThenSetupEnablesTwoFactor(db: Db, id: string, generated: string,
                                       keyUri: (string, string, string) -> string,
                                       toDataUrl: string -> string,
                                       token: string,
                                       verify: (string, string, int) -> bool, verifyTime: int,
                                       deviceId: string, loginTime: int, pick: User -> UserView)
    requires HasUser(db.users, id) && !HasSecret(db.secrets, id)
    requires token != "" && verify(token, generated, verifyTime)
    ensures var db1 := Get2FAQRCode(db, id, generated, keyUri, toDataUrl).0;
            var r := Setup2FA(db1, id, Some(token), verify, verifyTime, deviceId, loginTime, pick);
            && r.1.status == Ok
            && (exists u :: u in r.0.users && u.id == id && u.require2fa)
            && r.0.sessions == db.sessions + [Session(id, deviceId, true, loginTime)]
  {
    var db1 := Get2FAQRCode(db, id, generated, keyUri, toDataUrl).0;
    var k := |db.secrets|;
    assert FirstSecretOf(db1.secrets, id, k);
    var r := Setup2FA(db1, id, Some(token), verify, verifyTime, deviceId, loginTime, pick);
    match UserById(db1.users, id)
    case Some(i) =>
      assert r.0.users[i] in r.0.users;
  }

  /** Without an issued secret, setup answers NOT_FOUND even before the token
      is looked at, so an empty or absent token cannot mask the missing secret. */
  lemma SetupBeforeIssuanceIsNotFound(db: Db, id: string, otpToken: Option<string>,
                                      verify: (string, string, int) -> bool, verifyTime: int,
                                      deviceId: string, loginTime: int, pick: User -> UserView)
    requires !HasSecret(db.secrets, id)
    ensures var r := Setup2FA(db, id, otpToken, verify, verifyTime, deviceId, loginTime, pick);
            && r.0 == db
            && r.1.status == NotFound
            && (HasUser(db.users, id) ==> r.1.body == Message(SecretNotFound))
  {
  }
}
