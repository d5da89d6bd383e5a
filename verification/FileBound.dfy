/** What the bound on a save means: how many users the file can hold. */
module FileBound {
  import opened Base
  import opened IdmCommon
  import opened FileManager
  import opened DatabaseSpec

  /** The user can authenticate: it has a credential and an enrolled entry. */
  predicate IsEnrolledUser(u: User) {
    |u.credentials| > 0 && |u.enrolled| > 0
  }

  const MAX_SAVED_USERS := 26

  lemma {:induction false} UsersSizeAtLeast(users: seq<User>)
    requires forall k :: 0 <= k < |users| ==> IsEnrolledUser(users[k])
    ensures UsersSize(users) >= 76 * |users|
  {
    if |users| > 0 {
      assert IsEnrolledUser(users[0]);
      forall k | 0 <= k < |users[1..]| ensures IsEnrolledUser(users[1..][k]) {
        assert users[1..][k] == users[k + 1];
      }
      UsersSizeAtLeast(users[1..]);
    }
  }

  /** No list of more than 26 users that each have a credential can be saved, though a list takes up to 1000. */
  lemma SavedUsersBound(users: seq<User>, file: Option<seq<byte>>, env: SaveEnv)
    requires forall k :: 0 <= k < |users| ==> IsEnrolledUser(users[k])
    requires Save(Some(users), file, env).0 == RESULT_SUCCESS
    ensures |users| <= MAX_SAVED_USERS
  {
    SavesIff(users, file, env);
    UsersSizeAtLeast(users);
  }

  /** The n-th of so many users with one PIN each. */
  function PinUser(n: nat): User
    requires n < MAX_USER
  {
    User(n as i32, n as u64, [CredentialInfo(n as u64, PIN_AUTH, 0, 0, 3)], [EnrolledInfo(PIN_AUTH, n as u64)])
  }

  function PinUsers(n: nat): seq<User>
    requires n <= MAX_USER
  {
    if n == 0 then [] else [PinUser(n - 1)] + PinUsers(n - 1)
  }

  lemma {:induction false} PinUsersAt(n: nat, k: nat)
    requires k < n <= MAX_USER
    ensures |PinUsers(n)| == n && PinUsers(n)[k] == PinUser(n - 1 - k)
  {
    if k > 0 {
      PinUsersAt(n - 1, k - 1);
    } else if n > 1 {
      PinUsersAt(n - 1, 0);
    }
  }

  lemma PinUserOk(n: nat)
    requires n < MAX_USER
    ensures UserOk(PinUser(n)) && UserSize(PinUser(n)) == 76
  {
    var u := PinUser(n);
    assert EnrolledHasType(PIN_AUTH)(u.enrolled[0]);
  }

  lemma PinUsersOk(n: nat)
    requires n <= MAX_USER
    ensures UsersOk(PinUsers(n)) && |PinUsers(n)| == n
  {
    forall k | 0 <= k < n ensures |PinUsers(n)| == n && PinUsers(n)[k] == PinUser(n - 1 - k) && UserOk(PinUsers(n)[k]) {
      PinUsersAt(n, k);
      PinUserOk(n - 1 - k);
    }
  }

  lemma {:induction false} PinUsersSize(n: nat)
    requires n <= MAX_USER
    ensures UsersSize(PinUsers(n)) == 76 * n
  {
    if n > 0 {
      PinUserOk(n - 1);
      PinUsersSize(n - 1);
      assert PinUsers(n)[1..] == PinUsers(n - 1);
    }
  }

  /** Users with one PIN each are well formed up to the limit of 1000, and can be saved up to 26. */
  lemma PinUsersSaved(n: nat, file: Option<seq<byte>>, env: SaveEnv)
    requires n <= MAX_USER && env.bufferMalloced && env.write == Written
    ensures UsersOk(PinUsers(n))
    ensures Save(Some(PinUsers(n)), file, env).0 == RESULT_SUCCESS <==> n <= MAX_SAVED_USERS
  {
    PinUsersOk(n);
    PinUsersSize(n);
    SavesIff(PinUsers(n), file, env);
  }
}
