/** db/session.py: issuing, reading, listing and deactivating login
    sessions.  A session lives 31 days; expiry is checked lazily when the row
    is read.  Logging in keeps only the five most recently created sessions of
    the user active. */
module SessionDb {
  import opened Common
  import opened Tables
  import opened Sorting
  import Validators
  import Credentials

  const SessionLifetime: int := 31 * DaySeconds
  const MaxActiveSessions: nat := 5

  // ---------------------------------------------------------------------
  // get_info (db/session.py:83-113)

  /** get_info: the stored row of session sid, unless there is none or the
      current time is past its expiry.  The row is returned as stored; an
      inactive session is not rejected here.  (The code's UPDATE that would
      flag an expired row inactive is never committed, so the table is left
      as it was.) */
  function GetInfo(t: seq<Session>, sid: string, now: int): (r: Option<Session>)
    ensures (forall i :: 0 <= i < |t| ==> t[i].sid != sid) ==> r.None?
    ensures r.Some? ==> r.value in t && r.value.sid == sid && now <= r.value.expiresAt
  {
    match IndexWhere(t, (s: Session) => s.sid == sid)
    case None => None
    case Some(i) => if now > t[i].expiresAt then None else Some(t[i])
  }

  /** With unique session ids, get_info gives the stored row exactly when it
      exists and has not expired. */
  lemma GetInfoExact(t: seq<Session>, sid: string, now: int, i: int)
    requires UniqueSids(t)
    requires 0 <= i < |t| && t[i].sid == sid
    ensures GetInfo(t, sid, now) == if now > t[i].expiresAt then None else Some(t[i])
  {
    var found := IndexWhere(t, (s: Session) => s.sid == sid);
    assert found.Some?;
  }

  /** The session is usable by the food and chat operations: found,
      unexpired and active. */
  predicate IsLive(t: seq<Session>, sid: string, now: int)
  {
    GetInfo(t, sid, now).Some? && GetInfo(t, sid, now).value.active
  }

  // ---------------------------------------------------------------------
  // Deactivation (db/session.py:38, db/session.py:71, db/user.py:144)

  /** The WHERE clause of the three deactivating UPDATEs: one session by its
      id (deactivate_session), all of one user's (delete_user), or one user's
      except a set of ids (the cap of create_session). */
  datatype SessionKey =
    | SessionId(sid: string)
    | OwnerId(uid: string)
    | OwnerExcept(uid: string, keep: set<string>)

  predicate KeyMatches(s: Session, k: SessionKey)
  {
    match k
    case SessionId(sid) => s.sid == sid
    case OwnerId(uid) => s.uid == uid
    case OwnerExcept(uid, keep) => s.uid == uid && s.sid !in keep
  }

  /** UPDATE user_sessions SET is_active = 0 WHERE <k>: a row is active
      afterwards iff it was active and k does not select it, and nothing but
      the active flag changes. */
  function Deactivate(t: seq<Session>, k: SessionKey): (r: seq<Session>)
    ensures |r| == |t|
    ensures forall i :: 0 <= i < |t| ==> r[i].active == (t[i].active && !KeyMatches(t[i], k))
    ensures forall i :: 0 <= i < |t| ==> r[i] == t[i].(active := r[i].active)
  {
    seq(|t|, i requires 0 <= i < |t| => if KeyMatches(t[i], k) then t[i].(active := false) else t[i])
  }

  // ---------------------------------------------------------------------
  // The five-session cap (db/session.py:70-72)

  /** ORDER BY created_at DESC, as an ascending order on the negated time. */
  function RecencyKey(s: Session): int { -s.createdAt }

  /** All sessions of uid (WHERE uid = ?), in row order. */
  function UserSessions(t: seq<Session>, uid: string): (r: seq<Session>)
    ensures forall x :: x in r <==> x in t && x.uid == uid
  {
    var r := Filter(t, (s: Session) => s.uid == uid);
    assert forall x :: x in r <==> x in t && x.uid == uid by {
      forall x ensures x in r <==> x in t && x.uid == uid {
        FilterMembership(t, (s: Session) => s.uid == uid, x);
      }
    }
    r
  }

  /** The sessions of uid, most recently created first, each as often as
      it is stored. */
  function NewestFirst(t: seq<Session>, uid: string): (r: seq<Session>)
    ensures forall i, j :: 0 <= i < j < |r| ==> r[i].createdAt >= r[j].createdAt
    ensures forall x :: x in r <==> x in t && x.uid == uid
    ensures multiset(r) == multiset(UserSessions(t, uid))
  {
    var r := SortBy(UserSessions(t, uid), RecencyKey);
    assert forall i, j :: 0 <= i < j < |r| ==> RecencyKey(r[i]) <= RecencyKey(r[j]);
    assert forall x :: x in r <==> x in UserSessions(t, uid) by {
      forall x ensures x in r <==> x in UserSessions(t, uid) {
        SortByMembership(UserSessions(t, uid), RecencyKey, x);
      }
    }
    r
  }

  /** The subquery ... ORDER BY created_at DESC LIMIT 5: the first five of
      the newest-first list, or all of it when it is shorter. */
  function Newest(t: seq<Session>, uid: string): (r: seq<Session>)
    ensures |r| == if |NewestFirst(t, uid)| <= MaxActiveSessions then |NewestFirst(t, uid)| else MaxActiveSessions
    ensures forall k :: 0 <= k < |r| ==> r[k] == NewestFirst(t, uid)[k]
  {
    var all := NewestFirst(t, uid);
    if |all| <= MaxActiveSessions then all else all[..MaxActiveSessions]
  }

  /** The session ids occurring in s. */
  function SidsOf(s: seq<Session>): (r: set<string>)
    ensures |r| <= |s|
    ensures forall i :: 0 <= i < |s| ==> s[i].sid in r
  {
    if s == [] then {}
    else
      var rest := SidsOf(s[1..]);
      assert forall i :: 1 <= i < |s| ==> s[i] == s[1..][i - 1];
      {s[0].sid} + rest
  }

  /** SidsOf holds no id that is not in the list. */
  lemma {:induction false} SidsOfOnly(s: seq<Session>, x: string)
    requires x in SidsOf(s)
    ensures exists i :: 0 <= i < |s| && s[i].sid == x
  {
    if s[0].sid != x {
      SidsOfOnly(s[1..], x);
      var i :| 0 <= i < |s| - 1 && s[1..][i].sid == x;
      assert s[i + 1].sid == x;
    }
  }

  lemma SidsOfHas(s: seq<Session>, k: int)
    requires 0 <= k < |s|
    ensures s[k].sid in SidsOf(s)
  {
  }

  /** UPDATE user_sessions SET is_active = 0 WHERE uid = ? AND session_id
      NOT IN (the five newest).  Only active flags change, only on uid's
      sessions, only from active to inactive; the five newest stay as they
      were. */
  function CapSessions(t: seq<Session>, uid: string): (r: seq<Session>)
    ensures |r| == |t|
    ensures forall i :: 0 <= i < |t| ==> r[i] == t[i].(active := r[i].active)
    ensures forall i :: 0 <= i < |t| && r[i].active ==> t[i].active
    ensures forall i :: 0 <= i < |t| && t[i].uid != uid ==> r[i] == t[i]
    ensures forall i :: 0 <= i < |t| && t[i].sid in SidsOf(Newest(t, uid)) ==> r[i] == t[i]
  {
    Deactivate(t, OwnerExcept(uid, SidsOf(Newest(t, uid))))
  }

  /** The ids of the active sessions of uid. */
  function ActiveSids(t: seq<Session>, uid: string): set<string>
  {
    set i | 0 <= i < |t| && t[i].uid == uid && t[i].active :: t[i].sid
  }

  /** After the cap, uid has at most five active session ids. */
  lemma CapLimit(t: seq<Session>, uid: string)
    ensures |ActiveSids(CapSessions(t, uid), uid)| <= MaxActiveSessions
  {
    var r := CapSessions(t, uid);
    var keep := SidsOf(Newest(t, uid));
    assert ActiveSids(r, uid) <= keep;
    SubsetCard(ActiveSids(r, uid), keep);
  }

  lemma SubsetCard<X>(a: set<X>, b: set<X>)
    requires a <= b
    ensures |a| <= |b|
  {
    assert b == a + (b - a);
  }

  /** Every session of uid outside the five newest is inactive after the cap,
      and it was created no later than any of the five kept. */
  lemma CapRecency(t: seq<Session>, uid: string, i: int)
    requires 0 <= i < |t| && t[i].uid == uid
    requires t[i].sid !in SidsOf(Newest(t, uid))
    ensures !CapSessions(t, uid)[i].active
    ensures forall k :: 0 <= k < |Newest(t, uid)| ==>
              Newest(t, uid)[k].createdAt >= t[i].createdAt
  {
    OutsideNewestIsOlder(t, uid, t[i]);
  }

  lemma OutsideNewestIsOlder(t: seq<Session>, uid: string, x: Session)
    requires x in t && x.uid == uid
    requires x.sid !in SidsOf(Newest(t, uid))
    ensures forall k :: 0 <= k < |Newest(t, uid)| ==> Newest(t, uid)[k].createdAt >= x.createdAt
  {
    var all := NewestFirst(t, uid);
    var top := Newest(t, uid);
    NotInList(top, x);
    PrefixOutsider(all, top, x);
  }

  /** In a newest-first list, an entry that is not in a prefix top is no
      newer than any entry of top. */
  lemma PrefixOutsider(all: seq<Session>, top: seq<Session>, x: Session)
    requires |top| <= |all| && x in all
    requires forall k :: 0 <= k < |top| ==> top[k] == all[k]
    requires forall i, j :: 0 <= i < j < |all| ==> all[i].createdAt >= all[j].createdAt
    requires forall k :: 0 <= k < |top| ==> top[k] != x
    ensures forall k :: 0 <= k < |top| ==> top[k].createdAt >= x.createdAt
  {
    var j :| 0 <= j < |all| && all[j] == x;
    assert |top| <= j;
  }

  lemma NotInList(s: seq<Session>, x: Session)
    requires x.sid !in SidsOf(s)
    ensures forall k :: 0 <= k < |s| ==> s[k] != x
  {
    forall k | 0 <= k < |s| ensures s[k] != x {
      SidsOfHas(s, k);
    }
  }

  /** The session just inserted stays active through the cap when it is the
      user's newest: CreateSession never deactivates the session it issues
      (its created_at is the insertion time, later than any earlier row). */
  lemma NewSessionKept(t: seq<Session>, row: Session)
    requires row.active
    requires forall i :: 0 <= i < |t| && t[i].uid == row.uid ==> t[i].createdAt < row.createdAt
    ensures CapSessions(t + [row], row.uid)[|t|] == row
    ensures row.sid in ActiveSids(CapSessions(t + [row], row.uid), row.uid)
  {
    var u := t + [row];
    NewestHead(t, row);
    var top := Newest(u, row.uid);
    assert top[0] == row;
    SidsOfHas(top, 0);
    var r := CapSessions(u, row.uid);
    assert u[|t|] == row;
    assert r[|t|] == row;
  }

  /** A session created after all of its user's others heads the
      newest-first list. */
  lemma NewestHead(t: seq<Session>, row: Session)
    requires forall i :: 0 <= i < |t| && t[i].uid == row.uid ==> t[i].createdAt < row.createdAt
    ensures |NewestFirst(t + [row], row.uid)| > 0 && NewestFirst(t + [row], row.uid)[0] == row
  {
    var u := t + [row];
    var all := NewestFirst(u, row.uid);
    assert row in u;
    assert row in all;
    var j :| 0 <= j < |all| && all[j] == row;
    if j > 0 {
      assert all[0].createdAt >= all[j].createdAt;
    }
    assert all[0] in u && all[0].uid == row.uid && all[0].createdAt >= row.createdAt;
    assert forall x :: x in t && x.uid == row.uid ==> x.createdAt < row.createdAt;
  }

  /** The cap keeps session ids unique. */
  lemma CapPreservesUnique(t: seq<Session>, uid: string)
    requires UniqueSids(t)
    ensures UniqueSids(CapSessions(t, uid))
  {
    var r := CapSessions(t, uid);
    assert forall i :: 0 <= i < |t| ==> r[i].sid == t[i].sid;
  }

  /** Appending a row with a new id keeps session ids unique. */
  lemma AppendFreshSid(t: seq<Session>, row: Session)
    requires UniqueSids(t)
    requires IndexWhere(t, (s: Session) => s.sid == row.sid).None?
    ensures UniqueSids(t + [row])
  {
  }

  // ---------------------------------------------------------------------
  // create_session (db/session.py:47-81)

  /** The INSERT of a new session row followed by the cap on its user. */
  method InsertAndCap(db: Database, row: Session)
    requires db.Valid()
    requires IndexWhere(db.sessions, (s: Session) => s.sid == row.sid).None?
    modifies db
    ensures db.Valid()
    ensures db.verifications == old(db.verifications) && db.users == old(db.users)
    ensures db.foods == old(db.foods) && db.chats == old(db.chats)
    ensures db.chatItems == old(db.chatItems)
    ensures db.sessions == CapSessions(old(db.sessions) + [row], row.uid)
  {
    var inserted := db.sessions + [row];
    AppendFreshSid(db.sessions, row);
    CapPreservesUnique(inserted, row.uid);
    db.sessions := CapSessions(inserted, row.uid);
  }

  /** create_session: format checks, then the credential check, then insert
      a session expiring 31 days from now and apply the cap.  A clash of the
      generated id with an existing one is the IntegrityError path. */
  method CreateSession(db: Database, email: string, password: string,
                       userAgent: string, ipAddress: string,
                       sid: string, now: int, hash: string -> string)
    returns (r: Option<string>)
    requires db.Valid()
    modifies db
    ensures db.Valid()
    ensures db.verifications == old(db.verifications) && db.users == old(db.users)
    ensures db.foods == old(db.foods) && db.chats == old(db.chats)
    ensures db.chatItems == old(db.chatItems)
    ensures r.Some? <==>
              && Validators.IsValidEmail(email) && Validators.IsValidPassword(password)
              && Credentials.ValidateUser(old(db.users), email, password, hash).Success?
              && forall i :: 0 <= i < |old(db.sessions)| ==> old(db.sessions)[i].sid != sid
    ensures r.None? ==> db.sessions == old(db.sessions)
    ensures r.Some? ==>
              var uid := Credentials.ValidateUser(old(db.users), email, password, hash).value;
              && r.value == sid
              && db.sessions == CapSessions(old(db.sessions) +
                   [Session(sid, uid, userAgent, ipAddress, true, now, now + SessionLifetime, now)], uid)
  {
    // the format checks run before the store is touched
    var formatOk := Validators.IsValidEmail(email) && Validators.IsValidPassword(password);
    if !formatOk {
      return None;
    }
    var auth := Credentials.ValidateUser(db.users, email, password, hash);
    if auth.Failure? || IndexWhere(db.sessions, (s: Session) => s.sid == sid).Some? {
      return None;
    }
    var uid := auth.value;
    InsertAndCap(db, Session(sid, uid, userAgent, ipAddress, true, now, now + SessionLifetime, now));
    r := Some(sid);
  }

  // ---------------------------------------------------------------------
  // deactivate_session (db/session.py:24-45)


  /** Deactivation is one way: afterwards the session reads as missing,
      expired or inactive, so a second deactivation fails; every other row
      is untouched. */
  lemma DeactivateOneWay(t: seq<Session>, sid: string, now: int)
    ensures !IsLive(Deactivate(t, SessionId(sid)), sid, now)
    ensures forall i :: 0 <= i < |t| && t[i].sid != sid ==> Deactivate(t, SessionId(sid))[i] == t[i]
  {
    var d := Deactivate(t, SessionId(sid));
    match IndexWhere(d, (s: Session) => s.sid == sid)
    case None =>
    case Some(i) => assert !d[i].active;
  }

  /** deactivate_session: fails for an unknown, expired or already inactive
      session; otherwise marks it inactive. */
  method DeactivateSession(db: Database, sid: string, now: int) returns (ok: bool)
    requires db.Valid()
    modifies db
    ensures db.Valid()
    ensures db.verifications == old(db.verifications) && db.users == old(db.users)
    ensures db.foods == old(db.foods) && db.chats == old(db.chats)
    ensures db.chatItems == old(db.chatItems)
    ensures ok <==> IsLive(old(db.sessions), sid, now)
    ensures db.sessions == if ok then Deactivate(old(db.sessions), SessionId(sid)) else old(db.sessions)
  {
    var info := GetInfo(db.sessions, sid, now);
    if info.None? {
      return false;
    }
    if !info.value.active {
      return false;
    }
    DeactivateOneWay(db.sessions, sid, now);
    db.sessions := Deactivate(db.sessions, SessionId(sid));
    ok := true;
  }

  // ---------------------------------------------------------------------
  // get_session_list (db/session.py:7-22)

  /** get_session_list: for a live acting session, every session of the
      same user, active or not, most recently created first. */
  function GetSessionList(t: seq<Session>, sid: string, now: int): (r: Option<seq<Session>>)
    ensures r.Some? <==> IsLive(t, sid, now)
    ensures r.Some? ==>
              var uid := GetInfo(t, sid, now).value.uid;
              && (forall x :: x in r.value <==> x in t && x.uid == uid)
              && multiset(r.value) == multiset(Filter(t, (s: Session) => s.uid == uid))
              && (forall i, j :: 0 <= i < j < |r.value| ==> r.value[i].createdAt >= r.value[j].createdAt)
  {
    match GetInfo(t, sid, now)
    case None => None
    case Some(s) =>
      if !s.active then None
      else
        var rows := NewestFirst(t, s.uid);
        assert s in rows;
        if rows == [] then None else Some(rows)
  }
}
