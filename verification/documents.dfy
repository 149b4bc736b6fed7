/** The three document collections the controller reads and writes, and the
    queries it runs against them. Each collection is a sequence in insertion
    order; a `findOne` query answers with the first matching document. */
module Documents {
  import opened Collections

  /** A document of the users collection; `id` is the store's `_id`. */
  datatype User = User(id: string, email: string, password: string, require2fa: bool)

  /** A document of the 2FA secret collection: the TOTP shared secret of one user. */
  datatype Secret = Secret(userId: string, value: string)

  /** A document of the user session collection. */
  datatype Session = Session(userId: string, deviceId: string, verified: bool, lastLogin: int)

  /** The whole store: users, 2FA secrets and user sessions. */
  datatype Db = Db(users: seq<User>, secrets: seq<Secret>, sessions: seq<Session>)

  // ---------------------------------------------------------------------------
  // Reference predicates, stated without the lookup functions

  ghost predicate HasUserWithEmail(users: seq<User>, email: string) {
    exists u :: u in users && u.email == email
  }

  ghost predicate HasUser(users: seq<User>, id: string) {
    exists u :: u in users && u.id == id
  }

  ghost predicate HasSecret(secrets: seq<Secret>, userId: string) {
    exists s :: s in secrets && s.userId == userId
  }

  // The first-match positions of the three `findOne` queries, as instances
  // of `IsFirst`.

  ghost predicate FirstUserWithEmail(users: seq<User>, email: string, i: int) {
    IsFirst(users, (u: User) => u.email == email, i)
  }

  ghost predicate FirstUserWithId(users: seq<User>, id: string, i: int) {
    IsFirst(users, (u: User) => u.id == id, i)
  }

  ghost predicate FirstSecretOf(secrets: seq<Secret>, userId: string, k: int) {
    IsFirst(secrets, (s: Secret) => s.userId == userId, k)
  }

  /** The store's unique index on `_id`. */
  ghost predicate UniqueIds(users: seq<User>) {
    forall a, b :: 0 <= a < b < |users| ==> users[a].id != users[b].id
  }

  ghost predicate UniqueEmails(users: seq<User>) {
    forall a, b :: 0 <= a < b < |users| ==> users[a].email != users[b].email
  }

  /** At most one secret document per user. */
  ghost predicate AtMostOneSecret(secrets: seq<Secret>) {
    forall a, b :: 0 <= a < b < |secrets| ==> secrets[a].userId != secrets[b].userId
  }

  /** The number of secret documents owned by `userId`. */
  function SecretCount(secrets: seq<Secret>, userId: string): nat
    decreases |secrets|
  {
    if |secrets| == 0 then 0
    else (if secrets[0].userId == userId then 1 else 0) + SecretCount(secrets[1..], userId)
  }

  // ---------------------------------------------------------------------------
  // The `findOne` queries

  /** `findOne({ email })` on the users collection. */
  function UserByEmail(users: seq<User>, email: string): (r: Option<nat>)
    ensures r.Some? ==> FirstUserWithEmail(users, email, r.value)
    ensures r.None? <==> !HasUserWithEmail(users, email)
  {
    FindFirst(users, (u: User) => u.email == email)
  }

  /** `findOne({ _id })` on the users collection. */
  function UserById(users: seq<User>, id: string): (r: Option<nat>)
    ensures r.Some? ==> FirstUserWithId(users, id, r.value)
    ensures r.None? <==> !HasUser(users, id)
  {
    FindFirst(users, (u: User) => u.id == id)
  }

  /** `findOne({ user_id })` on the 2FA secret collection. */
  function SecretOf(secrets: seq<Secret>, userId: string): (r: Option<nat>)
    ensures r.Some? ==> FirstSecretOf(secrets, userId, r.value)
    ensures r.None? <==> !HasSecret(secrets, userId)
  {
    FindFirst(secrets, (s: Secret) => s.userId == userId)
  }

  // ---------------------------------------------------------------------------
  // Lemmas about the collections

  /** Under the unique `_id` index, the first user with an id is the only one. */
  lemma FirstUserIsOnlyUser(users: seq<User>, id: string, i: int, j: int)
    requires UniqueIds(users)
    requires FirstUserWithId(users, id, i)
    requires 0 <= j < |users| && users[j].id == id
    ensures j == i
  {
  }

  /** Appending a secret raises its owner's count by one and nobody else's. */
  lemma {:induction false} SecretCountAppend(secrets: seq<Secret>, s: Secret, userId: string)
    ensures SecretCount(secrets + [s], userId)
         == SecretCount(secrets, userId) + (if s.userId == userId then 1 else 0)
    decreases |secrets|
  {
    if |secrets| == 0 {
      assert secrets + [s] == [s];
    } else {
      assert (secrets + [s])[1..] == secrets[1..] + [s];
      SecretCountAppend(secrets[1..], s, userId);
    }
  }

  /** A user owns no secret exactly when the count of their secrets is zero. */
  lemma {:induction false} SecretCountZero(secrets: seq<Secret>, userId: string)
    ensures SecretCount(secrets, userId) == 0 <==> !HasSecret(secrets, userId)
    decreases |secrets|
  {
    if |secrets| > 0 {
      SecretCountZero(secrets[1..], userId);
      if HasSecret(secrets, userId) && secrets[0].userId != userId {
        var s :| s in secrets && s.userId == userId;
        assert s in secrets[1..];
      }
      if HasSecret(secrets[1..], userId) {
        var s :| s in secrets[1..] && s.userId == userId;
        assert s in secrets;
      }
    }
  }

  /** The pairwise form of "at most one secret per user" bounds every count by one. */
  lemma {:induction false} AtMostOneSecretCount(secrets: seq<Secret>, userId: string)
    requires AtMostOneSecret(secrets)
    ensures SecretCount(secrets, userId) <= 1
    decreases |secrets|
  {
    if |secrets| > 0 {
      var rest := secrets[1..];
      assert AtMostOneSecret(rest) by {
        forall a, b | 0 <= a < b < |rest|
          ensures rest[a].userId != rest[b].userId
        {
          assert rest[a] == secrets[a + 1] && rest[b] == secrets[b + 1];
        }
      }
      AtMostOneSecretCount(rest, userId);
      if secrets[0].userId == userId {
        assert !HasSecret(rest, userId) by {
          forall s | s in rest ensures s.userId != userId {
            var b :| 0 <= b < |rest| && rest[b] == s;
            assert secrets[b + 1] == s;
          }
        }
        SecretCountZero(rest, userId);
      }
    }
  }

  /** Two secrets with the same owner make that owner's count at least two. */
  lemma {:induction false} SharedOwnerCountsTwice(secrets: seq<Secret>, a: int, b: int)
    requires 0 <= a < b < |secrets| && secrets[a].userId == secrets[b].userId
    ensures SecretCount(secrets, secrets[a].userId) >= 2
    decreases |secrets|
  {
    var rest := secrets[1..];
    if a == 0 {
      assert rest[b - 1] in rest;
      SecretCountZero(rest, secrets[a].userId);
    } else {
      assert rest[a - 1] == secrets[a] && rest[b - 1] == secrets[b];
      SharedOwnerCountsTwice(rest, a - 1, b - 1);
    }
  }

  /** The two forms of "at most one secret per user" agree: no two secrets
      share an owner exactly when every user's count is at most one. */
  lemma AtMostOneSecretIffCounts(secrets: seq<Secret>)
    ensures AtMostOneSecret(secrets) <==> forall userId :: SecretCount(secrets, userId) <= 1
  {
    if AtMostOneSecret(secrets) {
      forall userId ensures SecretCount(secrets, userId) <= 1 {
        AtMostOneSecretCount(secrets, userId);
      }
    } else {
      var a, b :| 0 <= a < b < |secrets| && secrets[a].userId == secrets[b].userId;
      SharedOwnerCountsTwice(secrets, a, b);
    }
  }
}
