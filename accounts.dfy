/** The state-changing half of db/user.py: issuing and checking e-mail
    verification codes, registering a user, deleting an account with its
    sessions and foods, and setting the profile picture.  Generated values
    (the six-digit code, the salt, the uid) and the hash are parameters; the
    outgoing e-mails are not modelled. */
module Accounts {
  import opened Common
  import opened Tables
  import Validators
  import Credentials
  import SessionDb

  /** A new code may be requested once a minute. */
  const CooldownMinutes: int := 1
  /** A code is accepted for three minutes after it was issued. */
  const CodeLifetimeMinutes: int := 3
  /** Attempts beyond the fifth are refused. */
  const MaxAttempts: int := 5

  /** is_minutes_passed(t, m): at least m whole minutes lie between t and now. */
  predicate MinutesPassed(t: int, m: int, now: int)
  {
    now - t >= m * MinuteSeconds
  }

  /** Some user row carries this e-mail (SELECT email FROM users WHERE email = ?). */
  predicate EmailRegistered(users: seq<User>, email: string)
  {
    exists u :: u in users && u.email == email
  }

  // ---------------------------------------------------------------------
  // The remaining-time message of send_email_verify_code (db/user.py:189-193)

  function DigitChar(d: int): char
    requires 0 <= d < 10
  {
    ('0' as int + d) as char
  }

  function DigitValue(c: char): int
  {
    c as int - '0' as int
  }

  /** The decimal numeral of n, as an f-string prints an int. */
  function NatStr(n: nat): (r: string)
    ensures |r| >= 1
    ensures forall i :: 0 <= i < |r| ==> '0' <= r[i] <= '9'
    ensures r[0] == '0' <==> n == 0
  {
    if n < 10 then [DigitChar(n)] else NatStr(n / 10) + [DigitChar(n % 10)]
  }

  /** Reads a decimal numeral back. */
  function ParseNat(s: string): int
  {
    if s == [] then 0 else ParseNat(s[..|s| - 1]) * 10 + DigitValue(s[|s| - 1])
  }

  lemma {:induction false} ParseNatStr(n: nat)
    ensures ParseNat(NatStr(n)) == n
  {
    if n >= 10 {
      ParseNatStr(n / 10);
      var s := NatStr(n);
      assert s[..|s| - 1] == NatStr(n / 10);
    }
  }

  /** f"{s // 60}:{s % 60:02d}": whole minutes, a colon, two-digit seconds.
      The field before the colon reads as the whole minutes and the two
      digits after it as the seconds left over, below 60. */
  function WaitString(s: nat): (r: string)
    ensures |r| >= 4 && r[|r| - 3] == ':'
    ensures forall i :: 0 <= i < |r| && i != |r| - 3 ==> '0' <= r[i] <= '9'
    ensures ParseNat(r[..|r| - 3]) == s / 60
    ensures ParseNat(r[|r| - 2..]) == s % 60 < 60
    ensures r[0] == '0' <==> s < 60
  {
    var r := NatStr(s / 60) + [':', DigitChar(s % 60 / 10), DigitChar(s % 60 % 10)];
    assert r[..|r| - 3] == NatStr(s / 60);
    ParseNatStr(s / 60);
    var tail := r[|r| - 2..];
    assert tail[..1] == [DigitChar(s % 60 / 10)];
    assert ParseNat(tail[..1]) == s % 60 / 10;
    r
  }

  /** Reads an "m:ss" string back as seconds. */
  function WaitSeconds(w: string): int
  {
    if |w| < 4 then -1 else ParseNat(w[..|w| - 3]) * 60 + ParseNat(w[|w| - 2..])
  }

  /** The message loses nothing: the seconds it was made from can be read back,
      so two different waits never print alike. */
  lemma WaitStringRoundTrip(s: nat)
    ensures WaitSeconds(WaitString(s)) == s
  {
  }

  /** max(0, created_at + 1 minute - now) in whole seconds. */
  function RemainingSeconds(createdAt: int, now: int): (r: nat)
    ensures r > 0 <==> !MinutesPassed(createdAt, CooldownMinutes, now)
    ensures r > 0 && now >= createdAt ==> r <= MinuteSeconds
  {
    if createdAt + CooldownMinutes * MinuteSeconds - now > 0
    then createdAt + CooldownMinutes * MinuteSeconds - now
    else 0
  }

  /** While the cooldown runs (and the clock has not gone back) the message
      is "0:ss" with ss the remaining seconds in 01..59, or "1:00". */
  lemma CooldownMessage(createdAt: int, now: int)
    requires createdAt <= now && !MinutesPassed(createdAt, CooldownMinutes, now)
    ensures var s := RemainingSeconds(createdAt, now);
            var w := WaitString(s);
            |w| == 4 && (w == "1:00" || (w[..2] == "0:" && 1 <= s <= 59 && ParseNat(w[2..]) == s))
  {
    var s := RemainingSeconds(createdAt, now);
    assert 1 <= s <= 60;
    if s == 60 {
      assert NatStr(1) == "1";
    } else {
      assert NatStr(0) == "0";
    }
  }

  // ---------------------------------------------------------------------
  // send_email_verify_code (db/user.py:162-204)

  /** send_email_verify_code: a first request inserts a row; a repeat for an
      e-mail nobody registered replaces the code once the one-minute cooldown
      is over (even on a verified row) and is refused with the remaining time
      before that; an e-mail already registered is refused with 409 (but only
      when a verification row exists). */
  method SendEmailVerifyCode(db: Database, email: string, code: string, now: int)
    returns (r: Reply<()>)
    requires db.Valid()
    modifies db
    ensures db.Valid()
    ensures db.users == old(db.users) && db.sessions == old(db.sessions)
    ensures db.foods == old(db.foods) && db.chats == old(db.chats)
    ensures db.chatItems == old(db.chatItems)
    ensures email !in old(db.verifications) ==>
              && r == Success(())
              && db.verifications == old(db.verifications)[email := Verification(code, false, 0, now, now)]
    ensures email in old(db.verifications) && EmailRegistered(old(db.users), email) ==>
              r == Failure(409, EmailTaken) && db.verifications == old(db.verifications)
    ensures email in old(db.verifications) && !EmailRegistered(old(db.users), email) ==>
              var v := old(db.verifications)[email];
              if MinutesPassed(v.createdAt, CooldownMinutes, now) then
                && r == Success(())
                && db.verifications == old(db.verifications)[email := Verification(code, false, 0, now, now)]
              else
                && r == Failure(400, RateLimited(WaitString(RemainingSeconds(v.createdAt, now))))
                && db.verifications == old(db.verifications)
  {
    if email in db.verifications {
      var v := db.verifications[email];
      if EmailRegistered(db.users, email) {
        return Failure(409, EmailTaken);
      }
      if MinutesPassed(v.createdAt, CooldownMinutes, now) {
        db.verifications := db.verifications[email := Verification(code, false, 0, now, now)];
        return Success(());
      }
      return Failure(400, RateLimited(WaitString(RemainingSeconds(v.createdAt, now))));
    }
    // the column defaults: not verified, no attempts, both times now
    db.verifications := db.verifications[email := Verification(code, false, 0, now, now)];
    r := Success(());
  }

  // ---------------------------------------------------------------------
  // verify_code (db/user.py:206-249)

  /** The answer of one verify_code on an existing row and the row it leaves. */
  datatype Attempted = Attempted(reply: Reply<()>, row: Verification)

  /** One attempt on a stored row: a verified row is refused untouched;
      otherwise the attempt is counted first and then judged, in order, by the
      three-minute expiry, the count read before the increment (at most five)
      and the code itself. */
  function Attempt(v: Verification, given: string, now: int): (r: Attempted)
    ensures v.verified ==> r == Attempted(Failure(400, AlreadyVerified), v)
    ensures !v.verified ==>
              r.row == v.(tryCount := v.tryCount + 1, updatedAt := now, verified := r.reply.Success?)
    ensures r.reply.Success? <==>
              && !v.verified && !MinutesPassed(v.createdAt, CodeLifetimeMinutes, now)
              && v.tryCount < MaxAttempts && given == v.code
    ensures !v.verified && MinutesPassed(v.createdAt, CodeLifetimeMinutes, now) ==>
              r.reply == Failure(400, CodeExpired)
    ensures !v.verified && !MinutesPassed(v.createdAt, CodeLifetimeMinutes, now) && v.tryCount >= MaxAttempts ==>
              r.reply == Failure(429, TooManyAttempts)
    ensures (r.reply.Failure? && !v.verified && !MinutesPassed(v.createdAt, CodeLifetimeMinutes, now)
             && v.tryCount < MaxAttempts) ==> r.reply == Failure(400, CodeMismatch)
  {
    if v.verified then Attempted(Failure(400, AlreadyVerified), v)
    else
      var counted := v.(tryCount := v.tryCount + 1, updatedAt := now);
      if MinutesPassed(v.createdAt, CodeLifetimeMinutes, now) then Attempted(Failure(400, CodeExpired), counted)
      else if v.tryCount >= MaxAttempts then Attempted(Failure(429, TooManyAttempts), counted)
      else if given == v.code then Attempted(Success(()), counted.(verified := true))
      else Attempted(Failure(400, CodeMismatch), counted)
  }

  /** verify_code: format checks, then one Attempt on the stored row; an
      e-mail without a row gives 404. */
  method VerifyCode(db: Database, email: string, given: string, now: int) returns (r: Reply<()>)
    requires db.Valid()
    modifies db
    ensures db.Valid()
    ensures db.users == old(db.users) && db.sessions == old(db.sessions)
    ensures db.foods == old(db.foods) && db.chats == old(db.chats)
    ensures db.chatItems == old(db.chatItems)
    ensures !Validators.IsValidEmail(email) ==>
              r == Failure(400, InvalidEmail) && db.verifications == old(db.verifications)
    ensures Validators.IsValidEmail(email) && given == "" ==>
              r == Failure(400, CodeRequired) && db.verifications == old(db.verifications)
    ensures Validators.IsValidEmail(email) && given != "" && email !in old(db.verifications) ==>
              r == Failure(404, NoVerification) && db.verifications == old(db.verifications)
    ensures Validators.IsValidEmail(email) && given != "" && email in old(db.verifications) ==>
              var a := Attempt(old(db.verifications)[email], given, now);
              r == a.reply && db.verifications == old(db.verifications)[email := a.row]
  {
    if !Validators.IsValidEmail(email) {
      return Failure(400, InvalidEmail);
    }
    if given == "" {
      return Failure(400, CodeRequired);
    }
    if email !in db.verifications {
      return Failure(404, NoVerification);
    }
    var a := Attempt(db.verifications[email], given, now);
    db.verifications := db.verifications[email := a.row];
    r := a.reply;
  }

  /** One verify_code call: the code typed and the time it is made. */
  datatype Try = Try(code: string, at: int)

  /** The answers to a series of verify_code calls on one row. */
  function Run(v: Verification, tries: seq<Try>): (r: seq<Reply<()>>)
    ensures |r| == |tries|
    decreases |tries|
  {
    if tries == [] then []
    else
      var a := Attempt(v, tries[0].code, tries[0].at);
      [a.reply] + Run(a.row, tries[1..])
  }

  /** A verified row refuses every later attempt. */
  lemma {:induction false} VerifiedRefusesAll(v: Verification, tries: seq<Try>)
    requires v.verified
    ensures forall j :: 0 <= j < |tries| ==> Run(v, tries)[j] == Failure(400, AlreadyVerified)
  {
    if tries != [] {
      VerifiedRefusesAll(v, tries[1..]);
    }
  }

  /** In any series of attempts at most one succeeds; it is one of the first
      MaxAttempts - tryCount attempts, types the stored code and comes before
      the code expires. */
  lemma {:induction false} AcceptedOnlyEarly(v: Verification, tries: seq<Try>, k: int)
    requires 0 <= k < |tries| && Run(v, tries)[k].Success?
    ensures !v.verified && v.tryCount + k < MaxAttempts
    ensures tries[k].code == v.code && !MinutesPassed(v.createdAt, CodeLifetimeMinutes, tries[k].at)
    ensures forall j :: 0 <= j < |tries| && j != k ==> Run(v, tries)[j].Failure?
    decreases |tries|
  {
    var a := Attempt(v, tries[0].code, tries[0].at);
    var rest := Run(a.row, tries[1..]);
    assert Run(v, tries) == [a.reply] + rest;
    if k == 0 {
      VerifiedRefusesAll(a.row, tries[1..]);
      assert forall j :: 1 <= j < |tries| ==> Run(v, tries)[j] == rest[j - 1];
    } else {
      assert Run(v, tries)[k] == rest[k - 1];
      AcceptedOnlyEarly(a.row, tries[1..], k - 1);
      assert forall j :: 1 <= j < |tries| ==> Run(v, tries)[j] == rest[j - 1];
    }
  }

  /** A freshly issued code can only be accepted on one of the first five
      attempts, within three minutes of issue. */
  lemma FreshCodeWindow(code: string, issuedAt: int, tries: seq<Try>, k: int)
    requires 0 <= k < |tries| && Run(Verification(code, false, 0, issuedAt, issuedAt), tries)[k].Success?
    ensures k < MaxAttempts
    ensures tries[k].code == code && tries[k].at - issuedAt < CodeLifetimeMinutes * MinuteSeconds
  {
    AcceptedOnlyEarly(Verification(code, false, 0, issuedAt, issuedAt), tries, k);
  }

  // ---------------------------------------------------------------------
  // create_user (db/user.py:89-127)

  /** A new user row whose e-mail and uid are both unused keeps the keys unique. */
  lemma AppendFreshUser(users: seq<User>, u: User)
    requires UniqueUids(users) && UniqueEmails(users)
    requires !EmailRegistered(users, u.email)
    requires forall i :: 0 <= i < |users| ==> users[i].uid != u.uid
    ensures UniqueUids(users + [u]) && UniqueEmails(users + [u])
  {
    forall i | 0 <= i < |users| ensures users[i].email != u.email {
      assert users[i] in users;
    }
  }

  /** After registration the user can log in with the password chosen. */
  lemma NewUserCanLogIn(users: seq<User>, u: User, password: string, hash: string -> string)
    requires !EmailRegistered(users, u.email)
    requires Validators.IsValidEmail(u.email) && password != ""
    requires u.password == hash(password + u.salt)
    ensures Credentials.ValidateUser(users + [u], u.email, password, hash) == Success(u.uid)
  {
    var t := users + [u];
    forall i | 0 <= i < |users| ensures t[i].email != u.email {
      assert t[i] in users;
    }
    var p := (x: User) => x.email == u.email;
    assert t[|users|] == u && p(t[|users|]);
    var found := IndexWhere(t, p);
    assert found.Some?;
    assert forall i :: 0 <= i < |users| ==> !p(t[i]);
  }

  /** create_user: the first failing check decides, in the order e-mail
      format, password format, name format, e-mail already registered (409),
      e-mail not verified (400), uid already taken (the IntegrityError path,
      409); on success one row is appended whose password is the salted hash,
      never the plain text. */
  method CreateUser(db: Database, email: string, password: string, name: string,
                    salt: string, uid: string, now: int, hash: string -> string)
    returns (r: Reply<()>)
    requires db.Valid()
    modifies db
    ensures db.Valid()
    ensures db.verifications == old(db.verifications) && db.sessions == old(db.sessions)
    ensures db.foods == old(db.foods) && db.chats == old(db.chats)
    ensures db.chatItems == old(db.chatItems)
    ensures !Validators.IsValidEmail(email) ==> r == Failure(400, InvalidEmail)
    ensures Validators.IsValidEmail(email) && !Validators.IsValidPassword(password) ==>
              r == Failure(400, InvalidPassword)
    ensures (Validators.IsValidEmail(email) && Validators.IsValidPassword(password)
             && !Validators.IsValidUsername(name)) ==> r == Failure(400, InvalidName)
    ensures (Validators.IsValidEmail(email) && Validators.IsValidPassword(password)
             && Validators.IsValidUsername(name) && EmailRegistered(old(db.users), email)) ==>
              r == Failure(409, EmailTaken)
    ensures (Validators.IsValidEmail(email) && Validators.IsValidPassword(password)
             && Validators.IsValidUsername(name) && !EmailRegistered(old(db.users), email)
             && !(email in old(db.verifications) && old(db.verifications)[email].verified)) ==>
              r == Failure(400, NotVerified)
    ensures (Validators.IsValidEmail(email) && Validators.IsValidPassword(password)
             && Validators.IsValidUsername(name) && !EmailRegistered(old(db.users), email)
             && email in old(db.verifications) && old(db.verifications)[email].verified
             && exists i :: 0 <= i < |old(db.users)| && old(db.users)[i].uid == uid) ==>
              r == Failure(409, EmailTaken)
    ensures r.Success? <==>
              && Validators.IsValidEmail(email) && Validators.IsValidPassword(password)
              && Validators.IsValidUsername(name) && !EmailRegistered(old(db.users), email)
              && email in old(db.verifications) && old(db.verifications)[email].verified
              && forall i :: 0 <= i < |old(db.users)| ==> old(db.users)[i].uid != uid
    ensures r.Failure? ==> db.users == old(db.users)
    ensures r.Success? ==>
              && db.users == old(db.users) + [User(uid, email, hash(password + salt), salt, name, None, now)]
              && Credentials.ValidateUser(db.users, email, password, hash) == Success(uid)
  {
    if !Validators.IsValidEmail(email) {
      return Failure(400, InvalidEmail);
    }
    if !Validators.IsValidPassword(password) {
      return Failure(400, InvalidPassword);
    }
    if !Validators.IsValidUsername(name) {
      return Failure(400, InvalidName);
    }
    var hashed := hash(password + salt);
    if EmailRegistered(db.users, email) {
      return Failure(409, EmailTaken);
    }
    if email !in db.verifications || !db.verifications[email].verified {
      return Failure(400, NotVerified);
    }
    if IndexWhere(db.users, (u: User) => u.uid == uid).Some? {
      return Failure(409, EmailTaken);
    }
    InsertUser(db, User(uid, email, hashed, salt, name, None, now), password, hash);
    r := Success(());
  }

  /** The INSERT INTO users of a row whose e-mail and uid are unused. */
  method InsertUser(db: Database, row: User, password: string, hash: string -> string)
    requires db.Valid()
    requires !EmailRegistered(db.users, row.email)
    requires IndexWhere(db.users, (u: User) => u.uid == row.uid).None?
    requires Validators.IsValidEmail(row.email) && password != ""
    requires row.password == hash(password + row.salt)
    modifies db
    ensures db.Valid()
    ensures db.verifications == old(db.verifications) && db.sessions == old(db.sessions)
    ensures db.foods == old(db.foods) && db.chats == old(db.chats)
    ensures db.chatItems == old(db.chatItems)
    ensures db.users == old(db.users) + [row]
    ensures Credentials.ValidateUser(db.users, row.email, password, hash) == Success(row.uid)
  {
    AppendFreshUser(db.users, row);
    NewUserCanLogIn(db.users, row, password, hash);
    db.users := db.users + [row];
  }

  // ---------------------------------------------------------------------
  // delete_user (db/user.py:129-160)

  /** DELETE FROM foods WHERE uid = ?: exactly the other users' foods
      remain, each as often as before. */
  function RemoveUserFoods(t: seq<Food>, uid: string): (r: seq<Food>)
    ensures forall f :: f in r <==> f in t && f.uid != uid
    ensures forall f: Food :: f.uid != uid ==> multiset(r)[f] == multiset(t)[f]
  {
    var r := Filter(t, (f: Food) => f.uid != uid);
    assert forall f :: f in r <==> f in t && f.uid != uid by {
      forall f ensures f in r <==> f in t && f.uid != uid {
        FilterMembership(t, (x: Food) => x.uid != uid, f);
      }
    }
    r
  }

  /** DELETE FROM users WHERE uid = ?: exactly the other users' rows
      remain. */
  function RemoveUser(t: seq<User>, uid: string): (r: seq<User>)
    ensures forall u :: u in r <==> u in t && u.uid != uid
  {
    var r := Filter(t, (u: User) => u.uid != uid);
    assert forall u :: u in r <==> u in t && u.uid != uid by {
      forall u ensures u in r <==> u in t && u.uid != uid {
        FilterMembership(t, (x: User) => x.uid != uid, u);
      }
    }
    r
  }

  /** The cascade leaves the user with no active session, no food and no row,
      and leaves every other user's session rows as they were. */
  lemma CascadeEffect(sessions: seq<Session>, foods: seq<Food>, users: seq<User>, uid: string)
    ensures SessionDb.ActiveSids(SessionDb.Deactivate(sessions, SessionDb.OwnerId(uid)), uid) == {}
    ensures forall i :: 0 <= i < |sessions| && sessions[i].uid != uid ==>
              SessionDb.Deactivate(sessions, SessionDb.OwnerId(uid))[i] == sessions[i]
    ensures forall f :: f in RemoveUserFoods(foods, uid) ==> f.uid != uid
    ensures forall u :: u in RemoveUser(users, uid) ==> u.uid != uid
  {
  }

  /** Once deleted, an account can no longer log in with its e-mail. */
  lemma DeletedUserCannotLogIn(users: seq<User>, email: string, password: string,
                               hash: string -> string, other: string)
    requires UniqueEmails(users)
    requires Credentials.ValidateUser(users, email, password, hash).Success?
    ensures var uid := Credentials.ValidateUser(users, email, password, hash).value;
            Credentials.ValidateUser(RemoveUser(users, uid), email, other, hash).Failure?
  {
    var uid := Credentials.ValidateUser(users, email, password, hash).value;
    var i :| 0 <= i < |users| && users[i].email == email && users[i].uid == uid;
    var left := RemoveUser(users, uid);
    forall k | 0 <= k < |left| ensures left[k].email != email {
      var x := left[k];
      assert x in users && x.uid != uid;
      var j :| 0 <= j < |users| && users[j] == x;
      assert j != i;
    }
    UnknownEmailCannotLogIn(left, email, other, hash);
  }

  /** No row with the e-mail: validate_user fails. */
  lemma UnknownEmailCannotLogIn(users: seq<User>, email: string, password: string, hash: string -> string)
    requires forall k :: 0 <= k < |users| ==> users[k].email != email
    ensures Credentials.ValidateUser(users, email, password, hash).Failure?
  {
  }

  /** The cascade keeps the store's keys unique. */
  lemma CascadeKeepsValid(sessions: seq<Session>, foods: seq<Food>, users: seq<User>, uid: string)
    requires UniqueSids(sessions) && UniqueFids(foods) && UniqueUids(users) && UniqueEmails(users)
    ensures UniqueSids(SessionDb.Deactivate(sessions, SessionDb.OwnerId(uid)))
    ensures UniqueFids(RemoveUserFoods(foods, uid))
    ensures UniqueUids(RemoveUser(users, uid)) && UniqueEmails(RemoveUser(users, uid))
  {
    var d := SessionDb.Deactivate(sessions, SessionDb.OwnerId(uid));
    assert forall i :: 0 <= i < |sessions| ==> d[i].sid == sessions[i].sid;
    FilterKeepsDistinct(foods, (f: Food) => f.uid != uid, (f: Food) => f.fid);
    FilterKeepsDistinct(users, (u: User) => u.uid != uid, (u: User) => u.uid);
    FilterKeepsDistinct(users, (u: User) => u.uid != uid, (u: User) => u.email);
  }

  /** delete_user: with credentials validate_user accepts, deactivate all the
      user's sessions, delete the user's foods and the user row; otherwise
      answer as validate_user did and change nothing. */
  method DeleteUser(db: Database, email: string, password: string, hash: string -> string)
    returns (r: Reply<()>)
    requires db.Valid()
    modifies db
    ensures db.Valid()
    ensures db.verifications == old(db.verifications) && db.chats == old(db.chats)
    ensures db.chatItems == old(db.chatItems)
    ensures var v := Credentials.ValidateUser(old(db.users), email, password, hash);
            if v.Failure? then
              && r == Failure(v.code, v.error)
              && db.users == old(db.users) && db.sessions == old(db.sessions) && db.foods == old(db.foods)
            else
              && r == Success(())
              && db.sessions == SessionDb.Deactivate(old(db.sessions), SessionDb.OwnerId(v.value))
              && db.foods == RemoveUserFoods(old(db.foods), v.value)
              && db.users == RemoveUser(old(db.users), v.value)
  {
    var v := Credentials.ValidateUser(db.users, email, password, hash);
    if v.Failure? {
      return Failure(v.code, v.error);
    }
    Cascade(db, v.value);
    r := Success(());
  }

  /** The three statements of the deletion, committed together. */
  method Cascade(db: Database, uid: string)
    requires db.Valid()
    modifies db
    ensures db.Valid()
    ensures db.verifications == old(db.verifications) && db.chats == old(db.chats)
    ensures db.chatItems == old(db.chatItems)
    ensures db.sessions == SessionDb.Deactivate(old(db.sessions), SessionDb.OwnerId(uid))
    ensures db.foods == RemoveUserFoods(old(db.foods), uid)
    ensures db.users == RemoveUser(old(db.users), uid)
  {
    var sessions := SessionDb.Deactivate(db.sessions, SessionDb.OwnerId(uid));
    var foods := RemoveUserFoods(db.foods, uid);
    var users := RemoveUser(db.users, uid);
    CascadeKeepsValid(db.sessions, db.foods, db.users, uid);
    assert UniqueSids(sessions) && UniqueFids(foods) && UniqueUids(users) && UniqueEmails(users);
    db.sessions, db.foods, db.users := sessions, foods, users;
  }

  // ---------------------------------------------------------------------
  // set_profile_url (db/user.py:7-27)

  /** UPDATE users SET profile_url = ? WHERE uid = ?: the user's own rows
      get the new picture, and nothing else changes. */
  function SetProfile(t: seq<User>, uid: string, url: string): (r: seq<User>)
    ensures |r| == |t|
    ensures forall i :: 0 <= i < |t| ==> r[i] == t[i].(profileUrl := r[i].profileUrl)
    ensures forall i :: 0 <= i < |t| ==> r[i].profileUrl == if t[i].uid == uid then Some(url) else t[i].profileUrl
  {
    seq(|t|, i requires 0 <= i < |t| => if t[i].uid == uid then t[i].(profileUrl := Some(url)) else t[i])
  }

  /** get_info shows the new picture and the user's other fields as they
      were. */
  lemma SetProfileEffect(t: seq<User>, uid: string, url: string)
    ensures Credentials.GetInfo(t, uid).Success? ==>
              Credentials.GetInfo(SetProfile(t, uid, url), uid) ==
                Success(Credentials.GetInfo(t, uid).value.(profileUrl := Some(url)))
  {
    var s := SetProfile(t, uid, url);
    var p := (u: User) => u.uid == uid;
    var before := IndexWhere(t, p);
    var after := IndexWhere(s, p);
    forall k | 0 <= k < |t| ensures p(s[k]) == p(t[k]) {
    }
    if before.Some? {
      assert after == before;
    }
  }

  /** set_profile_url: an unusable session (unknown or expired) gives 405, an
      inactive one 401, a session whose user row is gone 400; otherwise that
      user's picture is set. */
  method SetProfileUrl(db: Database, sid: string, url: string, now: int) returns (r: Reply<()>)
    requires db.Valid()
    modifies db
    ensures db.Valid()
    ensures db.verifications == old(db.verifications) && db.sessions == old(db.sessions)
    ensures db.foods == old(db.foods) && db.chats == old(db.chats)
    ensures db.chatItems == old(db.chatItems)
    ensures var s := SessionDb.GetInfo(old(db.sessions), sid, now);
            && (s.None? ==> r == Failure(405, InvalidSession))
            && (s.Some? && !s.value.active ==> r == Failure(401, InactiveSession))
            && (s.Some? && s.value.active ==>
                  if forall i :: 0 <= i < |old(db.users)| ==> old(db.users)[i].uid != s.value.uid
                  then r == Failure(400, ProfileUpdateFailed)
                  else r == Success(()))
    ensures db.users == if r.Success? then SetProfile(old(db.users), SessionDb.GetInfo(old(db.sessions), sid, now).value.uid, url)
                        else old(db.users)
  {
    var s := SessionDb.GetInfo(db.sessions, sid, now);
    if s.None? {
      return Failure(405, InvalidSession);
    }
    if !s.value.active {
      return Failure(401, InactiveSession);
    }
    var uid := s.value.uid;
    if IndexWhere(db.users, (u: User) => u.uid == uid).None? {
      // the UPDATE touched no row
      return Failure(400, ProfileUpdateFailed);
    }
    var updated := SetProfile(db.users, uid, url);
    assert forall i :: 0 <= i < |db.users| ==> updated[i].uid == db.users[i].uid && updated[i].email == db.users[i].email;
    db.users := updated;
    r := Success(());
  }
}
