/** The read-only half of db/user.py: credential checks and the user lookup.
    Each reads the users table and changes nothing.  Hashing (str_to_hash)
    is an opaque function passed in as `hash`. */
module Credentials {
  import opened Common
  import opened Tables
  import Validators

  /** The stored hash matches hash(password + salt). */
  predicate Authentic(u: User, password: string, hash: string -> string)
  {
    u.password == hash(password + u.salt)
  }

  /** validate_user: format checks, then one answer (401) for both an
      unknown e-mail and a wrong password; on success the user's uid. */
  function ValidateUser(users: seq<User>, email: string, password: string,
                        hash: string -> string): (r: Reply<string>)
    ensures !Validators.IsValidEmail(email) ==> r == Failure(400, InvalidEmail)
    ensures Validators.IsValidEmail(email) && password == "" ==> r == Failure(400, PasswordRequired)
    ensures r.Success? ==> exists i :: 0 <= i < |users| && users[i].email == email
                                       && Authentic(users[i], password, hash)
                                       && r.value == users[i].uid
    ensures r.Failure? && Validators.IsValidEmail(email) && password != "" ==>
              r == Failure(401, BadCredentials)
  {
    if !Validators.IsValidEmail(email) then Failure(400, InvalidEmail)
    else if password == "" then Failure(400, PasswordRequired)
    else match IndexWhere(users, (u: User) => u.email == email)
      case None => Failure(401, BadCredentials)
      case Some(i) =>
        if !Authentic(users[i], password, hash) then Failure(401, BadCredentials)
        else Success(users[i].uid)
  }

  /** With e-mails unique, validate_user succeeds exactly for a registered
      e-mail with the right password, and otherwise gives the same 401
      whether the e-mail is unknown or the password wrong. */
  lemma ValidateUserExact(users: seq<User>, email: string, password: string,
                          hash: string -> string)
    requires UniqueEmails(users)
    requires Validators.IsValidEmail(email) && password != ""
    ensures forall i :: 0 <= i < |users| && users[i].email == email ==>
              ValidateUser(users, email, password, hash) ==
                (if Authentic(users[i], password, hash) then Success(users[i].uid)
                 else Failure(401, BadCredentials))
    ensures (forall i :: 0 <= i < |users| ==> users[i].email != email) ==>
              ValidateUser(users, email, password, hash) == Failure(401, BadCredentials)
  {
    var found := IndexWhere(users, (u: User) => u.email == email);
    forall i | 0 <= i < |users| && users[i].email == email
      ensures found == Some(i)
    {
      assert found.Some?;
    }
  }

  /** validate_user_by_uid: the same check keyed by uid. */
  function ValidateUserByUid(users: seq<User>, uid: string, password: string,
                             hash: string -> string): (r: Reply<string>)
    ensures uid == "" ==> r == Failure(400, UidRequired)
    ensures uid != "" && password == "" ==> r == Failure(400, PasswordRequired)
    ensures r.Success? ==>
              && r.value == uid
              && exists i :: 0 <= i < |users| && users[i].uid == uid && Authentic(users[i], password, hash)
    ensures r.Failure? && uid != "" && password != "" ==> r == Failure(401, BadCredentials)
    ensures UniqueUids(users) && uid != "" && password != "" ==>
              (r.Success? <==> exists i :: 0 <= i < |users| && users[i].uid == uid
                                           && Authentic(users[i], password, hash))
  {
    if uid == "" then Failure(400, UidRequired)
    else if password == "" then Failure(400, PasswordRequired)
    else match IndexWhere(users, (u: User) => u.uid == uid)
      case None => Failure(401, BadCredentials)
      case Some(i) =>
        if !Authentic(users[i], password, hash) then Failure(401, BadCredentials)
        else Success(users[i].uid)
  }

  /** The public part of a user row (no password, no salt). */
  datatype UserInfo = UserInfo(
    uid: string, email: string, name: string, profileUrl: Option<string>, createdAt: int)

  /** get_info: the public fields of the user with this uid, or 404. */
  function GetInfo(users: seq<User>, uid: string): (r: Reply<UserInfo>)
    ensures r.Failure? <==> forall i :: 0 <= i < |users| ==> users[i].uid != uid
    ensures r.Failure? ==> r == Failure(404, UserNotFound)
    ensures r.Success? ==>
              exists i :: && 0 <= i < |users| && users[i].uid == uid
                          && r.value == UserInfo(uid, users[i].email, users[i].name,
                                                 users[i].profileUrl, users[i].createdAt)
  {
    match IndexWhere(users, (u: User) => u.uid == uid)
    case None => Failure(404, UserNotFound)
    case Some(i) =>
      var u := users[i];
      Success(UserInfo(u.uid, u.email, u.name, u.profileUrl, u.createdAt))
  }

  /** find_password: always refused; the reason depends only on the format. */
  function FindPassword(email: string): (r: Reply<()>)
    ensures r.Failure? && r.code == 400
    ensures r.error == InvalidEmail <==> !Validators.IsValidEmail(email)
  {
    if !Validators.IsValidEmail(email) then Failure(400, InvalidEmail)
    else Failure(400, PasswordResetUnsupported)
  }
}
