/** The persistent store: one row type per table and the database object
    whose fields are the tables.  Times are integer seconds on one clock.
    Tables that the source scans in row order (users, user_sessions, foods)
    are sequences in insertion order; tables only ever addressed by their key
    (email_verification, food_chat, food_chat_items) are maps. */
module Tables {
  import opened Common

  const MinuteSeconds: int := 60
  const DaySeconds: int := 86400

  /** A row of email_verification, keyed by e-mail. */
  datatype Verification = Verification(
    code: string, verified: bool, tryCount: int, createdAt: int, updatedAt: int)

  /** A row of users. */
  datatype User = User(
    uid: string, email: string, password: string, salt: string, name: string,
    profileUrl: Option<string>, createdAt: int)

  /** A row of user_sessions. */
  datatype Session = Session(
    sid: string, uid: string, userAgent: string, ipAddress: string, active: bool,
    lastAccessed: int, expiresAt: int, createdAt: int)

  /** A row of foods; expirationDate is the instant the stored date stands for. */
  datatype Food = Food(
    fid: string, uid: string, name: Option<string>, foodType: string, count: int,
    volume: Option<string>, imageUrl: Option<string>, barcode: string,
    expirationDate: int, active: bool, updatedAt: int)

  /** The values the code writes into food_chat.status. */
  datatype ChatStatus = Queued | Creating | Completed | Failed

  /** A row of food_chat, keyed by fcid.  A fresh row has no status yet
      (the column's default is not part of the model). */
  datatype Chat = Chat(
    fcid: string, uid: string, status: Option<ChatStatus>, response: Option<string>,
    inputTokens: Option<int>, outputTokens: Option<int>, updatedAt: int)

  ghost predicate UniqueUids(t: seq<User>)
  {
    forall i, j :: 0 <= i < j < |t| ==> t[i].uid != t[j].uid
  }

  ghost predicate UniqueEmails(t: seq<User>)
  {
    forall i, j :: 0 <= i < j < |t| ==> t[i].email != t[j].email
  }

  ghost predicate UniqueSids(t: seq<Session>)
  {
    forall i, j :: 0 <= i < j < |t| ==> t[i].sid != t[j].sid
  }

  ghost predicate UniqueFids(t: seq<Food>)
  {
    forall i, j :: 0 <= i < j < |t| ==> t[i].fid != t[j].fid
  }

  /** The database: every table the core reads or writes. */
  class Database {
    var verifications: map<string, Verification>
    var users: seq<User>
    var sessions: seq<Session>
    var foods: seq<Food>
    var chats: map<string, Chat>
    var chatItems: map<string, seq<string>>

    /** The primary-key and UNIQUE constraints of the schema. */
    ghost predicate Valid()
      reads this
    {
      && UniqueUids(users) && UniqueEmails(users)
      && UniqueSids(sessions) && UniqueFids(foods)
    }

    /** init_db: all tables empty. */
    constructor ()
      ensures Valid()
      ensures verifications == map[] && users == [] && sessions == []
      ensures foods == [] && chats == map[] && chatItems == map[]
    {
      verifications := map[];
      users := [];
      sessions := [];
      foods := [];
      chats := map[];
      chatItems := map[];
    }
  }
}
