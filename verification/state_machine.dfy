/** The controller as a state machine: any sequence of requests, each handled
    by one of the five handlers, and the invariants of the store that every
    such sequence keeps. */
module StateMachine {
  import opened Collections
  import opened Documents
  import opened Http
  import opened UserController
  import opened ControllerProperties

  /** The collaborators shared by all requests. */
  datatype Env = Env(pick: User -> UserView,
                     verify: (string, string, int) -> bool,
                     keyUri: (string, string, string) -> string,
                     toDataUrl: string -> string)

  /** One request, with the values the handler takes from the outside world
      (generated secret, device key, clock readings) already drawn. */
  datatype Request =
    | LoginRequest(email: string, password: Option<string>)
    | GetUserRequest(id: string)
    | LogoutRequest(id: string)
    | QrCodeRequest(id: string, generated: string)
    | SetupRequest(id: string, otpToken: Option<string>, verifyTime: int,
                   deviceId: string, loginTime: int)

  function Step(env: Env, db: Db, req: Request): (Db, Response) {
    match req
    case LoginRequest(email, password) => Login(db, email, password, env.pick)
    case GetUserRequest(id) => GetUser(db, id, env.pick)
    case LogoutRequest(id) => Logout(db, id)
    case QrCodeRequest(id, generated) => Get2FAQRCode(db, id, generated, env.keyUri, env.toDataUrl)
    case SetupRequest(id, otpToken, verifyTime, deviceId, loginTime) =>
      Setup2FA(db, id, otpToken, env.verify, verifyTime, deviceId, loginTime, env.pick)
  }

  /** The store after handling `reqs` one after another. */
  function Run(env: Env, db: Db, reqs: seq<Request>): Db
    decreases |reqs|
  {
    if |reqs| == 0 then db else Run(env, Step(env, db, reqs[0]).0, reqs[1..])
  }

  // ---------------------------------------------------------------------------
  // The store invariant

  /** Some document with that id has two-factor authentication turned on. */
  ghost predicate TwoFactorRequired(users: seq<User>, id: string) {
    exists u :: u in users && u.id == id && u.require2fa
  }

  /** Every secret belongs to an existing user. */
  ghost predicate SecretsOwned(db: Db) {
    forall s :: s in db.secrets ==> HasUser(db.users, s.userId)
  }

  /** A verified session implies an issued secret and a user with
      `require_2fa` on: nobody is verified against a secret never issued. */
  ghost predicate VerifiedSessionsBacked(db: Db) {
    forall s :: s in db.sessions && s.verified ==>
      HasSecret(db.secrets, s.userId) && TwoFactorRequired(db.users, s.userId)
  }

  ghost predicate Valid(db: Db) {
    && UniqueIds(db.users)
    && AtMostOneSecret(db.secrets)
    && SecretsOwned(db)
    && VerifiedSessionsBacked(db)
  }

  // ---------------------------------------------------------------------------
  // How a store may evolve

  /** Users are neither added nor removed, and a document changes at most by
      having `require_2fa` turned on. */
  ghost predicate OnlyRaised(users: seq<User>, users': seq<User>) {
    && |users'| == |users|
    && forall j :: 0 <= j < |users| ==>
         users'[j] == users[j] || users'[j] == users[j].(require2fa := true)
  }

  /** Secrets and sessions are only ever appended to; users only raised. */
  ghost predicate Evolves(db: Db, db': Db) {
    && OnlyRaised(db.users, db'.users)
    && db.secrets <= db'.secrets
    && db.sessions <= db'.sessions
  }

  lemma OnlyRaisedKeepsUsers(users: seq<User>, users': seq<User>)
    requires OnlyRaised(users, users')
    ensures UniqueIds(users) ==> UniqueIds(users')
    ensures forall id :: HasUser(users, id) ==> HasUser(users', id)
    ensures forall id :: TwoFactorRequired(users, id) ==> TwoFactorRequired(users', id)
  {
    forall id | HasUser(users, id) ensures HasUser(users', id) {
      var u :| u in users && u.id == id;
      var j :| 0 <= j < |users| && users[j] == u;
      assert users'[j] in users';
    }
    forall id | TwoFactorRequired(users, id) ensures TwoFactorRequired(users', id) {
      var u :| u in users && u.id == id && u.require2fa;
      var j :| 0 <= j < |users| && users[j] == u;
      assert users'[j] in users';
    }
  }

  lemma EvolvesTransitive(db1: Db, db2: Db, db3: Db)
    requires Evolves(db1, db2) && Evolves(db2, db3)
    ensures Evolves(db1, db3)
  {
    forall j | 0 <= j < |db1.users|
      ensures db3.users[j] == db1.users[j] || db3.users[j] == db1.users[j].(require2fa := true)
    {
      assert db2.users[j] == db1.users[j] || db2.users[j] == db1.users[j].(require2fa := true);
    }
  }

  /** Every handler only appends to secrets and sessions and only raises
      `require_2fa`. */
  lemma StepEvolves(env: Env, db: Db, req: Request)
    ensures Evolves(db, Step(env, db, req).0)
  {
    match req
    case SetupRequest(id, otpToken, verifyTime, deviceId, loginTime) =>
      var r := Step(env, db, req);
      if r.1.status == Ok {
        match UserById(db.users, id)
        case Some(i) =>
          assert FirstUserWithId(db.users, id, i);
      }
    case _ =>
  }

  /** Secret issuance keeps the store invariant: the one secret it may insert
      belongs to an existing user who had none. */
  lemma IssuanceKeepsValid(db: Db, id: string, generated: string,
                           keyUri: (string, string, string) -> string,
                           toDataUrl: string -> string)
    requires Valid(db)
    ensures Valid(Get2FAQRCode(db, id, generated, keyUri, toDataUrl).0)
  {
    var db' := Get2FAQRCode(db, id, generated, keyUri, toDataUrl).0;
    IssuanceKeepsOneSecretPerUser(db, id, generated, keyUri, toDataUrl);
    forall s | s in db'.sessions && s.verified
      ensures HasSecret(db'.secrets, s.userId)
    {
      var t :| t in db.secrets && t.userId == s.userId;
      assert t in db'.secrets;
    }
  }

  /** Setup keeps the store invariant: the verified session it inserts is
      backed by the secret its guard found and by the flag it turns on. */
  lemma SetupKeepsValid(db: Db, id: string, otpToken: Option<string>,
                        verify: (string, string, int) -> bool, verifyTime: int,
                        deviceId: string, loginTime: int, pick: User -> UserView)
    requires Valid(db)
    ensures Valid(Setup2FA(db, id, otpToken, verify, verifyTime, deviceId, loginTime, pick).0)
  {
    var r := Setup2FA(db, id, otpToken, verify, verifyTime, deviceId, loginTime, pick);
    if r.1.status == Ok {
      var i :| FirstUserWithId(db.users, id, i) by {
        match UserById(db.users, id)
        case Some(i) =>
      }
      assert OnlyRaised(db.users, r.0.users);
      OnlyRaisedKeepsUsers(db.users, r.0.users);
      assert r.0.users[i] in r.0.users;
      forall s | s in r.0.sessions && s.verified
        ensures HasSecret(r.0.secrets, s.userId) && TwoFactorRequired(r.0.users, s.userId)
      {
        if s !in db.sessions {
          assert s == Session(id, deviceId, true, loginTime);
        }
      }
    }
  }

  /** Every handler keeps the store invariant. */
  lemma StepKeepsValid(env: Env, db: Db, req: Request)
    requires Valid(db)
    ensures Valid(Step(env, db, req).0)
  {
    match req
    case QrCodeRequest(id, generated) =>
      IssuanceKeepsValid(db, id, generated, env.keyUri, env.toDataUrl);
    case SetupRequest(id, otpToken, verifyTime, deviceId, loginTime) =>
      SetupKeepsValid(db, id, otpToken, env.verify, verifyTime, deviceId, loginTime, env.pick);
    case _ =>
  }

  /** Any sequence of requests keeps the store invariant. */
  lemma {:induction false} RunKeepsValid(env: Env, db: Db, reqs: seq<Request>)
    requires Valid(db)
    ensures Valid(Run(env, db, reqs))
    decreases |reqs|
  {
    if |reqs| > 0 {
      StepKeepsValid(env, db, reqs[0]);
      RunKeepsValid(env, Step(env, db, reqs[0]).0, reqs[1..]);
    }
  }

  /** Any sequence of requests only appends to secrets and sessions and only
      raises `require_2fa`. */
  lemma {:induction false} RunEvolves(env: Env, db: Db, reqs: seq<Request>)
    ensures Evolves(db, Run(env, db, reqs))
    decreases |reqs|
  {
    if |reqs| == 0 {
      assert OnlyRaised(db.users, db.users);
    } else {
      var db1 := Step(env, db, reqs[0]).0;
      StepEvolves(env, db, reqs[0]);
      RunEvolves(env, db1, reqs[1..]);
      EvolvesTransitive(db, db1, Run(env, db1, reqs[1..]));
    }
  }

  /** Once issued, a user's secret is the one every later lookup finds: the
      secret is never replaced or rotated. */
  lemma IssuedSecretIsPermanent(env: Env, db: Db, reqs: seq<Request>, userId: string, k: int)
    requires FirstSecretOf(db.secrets, userId, k)
    ensures var db' := Run(env, db, reqs);
            FirstSecretOf(db'.secrets, userId, k) && db'.secrets[k] == db.secrets[k]
  {
    RunEvolves(env, db, reqs);
  }

  /** A verified session stays verified, and a user with `require_2fa` on keeps
      it on: nothing in the controller deletes a session or lowers the flag. */
  lemma VerificationIsPermanent(env: Env, db: Db, reqs: seq<Request>, s: Session, id: string)
    ensures var db' := Run(env, db, reqs);
            && (s in db.sessions ==> s in db'.sessions)
            && (TwoFactorRequired(db.users, id) ==> TwoFactorRequired(db'.users, id))
  {
    var db' := Run(env, db, reqs);
    RunEvolves(env, db, reqs);
    OnlyRaisedKeepsUsers(db.users, db'.users);
    if s in db.sessions {
      var j :| 0 <= j < |db.sessions| && db.sessions[j] == s;
      assert db'.sessions[j] == s;
    }
  }
}
