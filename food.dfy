/** db/food.py: looking up, listing, soft-deleting and registering the foods
    a user keeps.  Every operation starts from the caller's session; the
    external product lookups of registration are a parameter. */
module FoodDb {
  import opened Common
  import opened Tables
  import opened Sorting
  import SessionDb

  const MinCount: int := 1
  const MaxCount: int := 100

  /** The session check the food and chat operations begin with: an unknown
      or expired session is refused with 404, an inactive one with 401. */
  function CheckSession(sessions: seq<Session>, sid: string, now: int): (r: Reply<Session>)
    ensures r.Success? <==> SessionDb.IsLive(sessions, sid, now)
    ensures r.Success? ==> r.value == SessionDb.GetInfo(sessions, sid, now).value
    ensures SessionDb.GetInfo(sessions, sid, now).None? ==> r == Failure(404, InvalidSession)
    ensures r.Failure? && SessionDb.GetInfo(sessions, sid, now).Some? ==> r == Failure(401, InactiveSession)
  {
    match SessionDb.GetInfo(sessions, sid, now)
    case None => Failure(404, InvalidSession)
    case Some(s) => if !s.active then Failure(401, InactiveSession) else Success(s)
  }

  // ---------------------------------------------------------------------
  // get_info (db/food.py:37-72)

  predicate Owns(f: Food, uid: string, fid: string)
  {
    f.fid == fid && f.uid == uid
  }

  /** The two SELECTs of get_info: the row with this fid under uid; failing
      that, 401 if the fid exists under someone else and 404 if it does not
      exist at all. */
  function Lookup(foods: seq<Food>, uid: string, fid: string): (r: Reply<Food>)
    ensures r.Success? <==> exists f :: f in foods && Owns(f, uid, fid)
    ensures r.Success? ==> r.value in foods && Owns(r.value, uid, fid)
    ensures r == Failure(401, NotOwner) <==>
              && (forall f :: f in foods ==> !Owns(f, uid, fid))
              && exists f :: f in foods && f.fid == fid
    ensures r == Failure(404, FoodNotFound) <==> forall f :: f in foods ==> f.fid != fid
    ensures r.Failure? ==> r == Failure(401, NotOwner) || r == Failure(404, FoodNotFound)
  {
    match IndexWhere(foods, (f: Food) => Owns(f, uid, fid))
    case Some(i) => Success(foods[i])
    case None =>
      match IndexWhere(foods, (f: Food) => f.fid == fid)
      case Some(j) => Failure(401, NotOwner)
      case None => Failure(404, FoodNotFound)
  }

  /** get_info: the session check, then a non-empty fid, then Lookup. */
  function GetInfo(sessions: seq<Session>, foods: seq<Food>, sid: string, fid: string, now: int)
    : (r: Reply<Food>)
    ensures !SessionDb.IsLive(sessions, sid, now) ==>
              var c := CheckSession(sessions, sid, now); r == Failure(c.code, c.error)
    ensures SessionDb.IsLive(sessions, sid, now) && fid == "" ==> r == Failure(400, InvalidFoodId)
    ensures SessionDb.IsLive(sessions, sid, now) && fid != "" ==>
              r == Lookup(foods, SessionDb.GetInfo(sessions, sid, now).value.uid, fid)
  {
    match CheckSession(sessions, sid, now)
    case Failure(code, err) => Failure(code, err)
    case Success(s) =>
      if fid == "" then Failure(400, InvalidFoodId)
      else Lookup(foods, s.uid, fid)
  }

  /** get_info answers with a row only to its owner: the row has the fid
      asked for and the uid of the live session. */
  lemma GetInfoOwnership(sessions: seq<Session>, foods: seq<Food>, sid: string, fid: string, now: int)
    requires GetInfo(sessions, foods, sid, fid, now).Success?
    ensures SessionDb.IsLive(sessions, sid, now)
    ensures var f := GetInfo(sessions, foods, sid, fid, now).value;
            f in foods && f.fid == fid && f.uid == SessionDb.GetInfo(sessions, sid, now).value.uid
  {
  }

  // ---------------------------------------------------------------------
  // get_list_info (db/food.py:74-106)

  function ExpiryKey(f: Food): int { f.expirationDate }

  /** The WHERE uid = ? condition of the food list query. */
  function OwnerIs(uid: string): Food -> bool { (f: Food) => f.uid == uid }

  /** The foods of uid (SELECT * FROM foods WHERE uid = ?) sorted by expiry. */
  function OwnedByExpiry(foods: seq<Food>, uid: string): (r: seq<Food>)
    ensures forall f :: f in r <==> f in foods && f.uid == uid
    ensures multiset(r) == multiset(Filter(foods, OwnerIs(uid)))
    ensures forall i, j :: 0 <= i < j < |r| ==> r[i].expirationDate <= r[j].expirationDate
  {
    var rows := Filter(foods, OwnerIs(uid));
    var sorted := SortBy(rows, ExpiryKey);
    assert forall f :: f in sorted <==> f in foods && f.uid == uid by {
      forall f ensures f in sorted <==> f in foods && f.uid == uid {
        SortByMembership(rows, ExpiryKey, f);
        FilterMembership(foods, OwnerIs(uid), f);
      }
    }
    sorted
  }

  /** get_list_info: every food of the session's user, soonest expiry first;
      404 when the user has none. */
  function GetListInfo(sessions: seq<Session>, foods: seq<Food>, sid: string, now: int)
    : (r: Reply<seq<Food>>)
    ensures !SessionDb.IsLive(sessions, sid, now) ==>
              var c := CheckSession(sessions, sid, now); r == Failure(c.code, c.error)
    ensures SessionDb.IsLive(sessions, sid, now) ==>
              var uid := SessionDb.GetInfo(sessions, sid, now).value.uid;
              && (r == Failure(404, NoFoods) <==> forall f :: f in foods ==> f.uid != uid)
              && (r.Success? <==> exists f :: f in foods && f.uid == uid)
    ensures r.Success? ==>
              var uid := SessionDb.GetInfo(sessions, sid, now).value.uid;
              && (forall f :: f in r.value <==> f in foods && f.uid == uid)
              && multiset(r.value) == multiset(Filter(foods, OwnerIs(uid)))
              && (forall i, j :: 0 <= i < j < |r.value| ==> r.value[i].expirationDate <= r.value[j].expirationDate)
  {
    match CheckSession(sessions, sid, now)
    case Failure(code, err) => Failure(code, err)
    case Success(s) =>
      var rows := OwnedByExpiry(foods, s.uid);
      if rows == [] then Failure(404, NoFoods)
      else
        assert rows[0] in rows;
        Success(rows)
  }

  // ---------------------------------------------------------------------
  // delete_food (db/food.py:12-35)

  /** UPDATE foods SET is_active = FALSE, updated_at = now WHERE fid = ?:
      no row is removed; the rows of food fid become inactive with the new
      update time, and every other row is left as it was. */
  function SoftDelete(t: seq<Food>, fid: string, now: int): (r: seq<Food>)
    ensures |r| == |t|
    ensures forall i :: 0 <= i < |t| ==> r[i] == t[i].(active := r[i].active, updatedAt := r[i].updatedAt)
    ensures forall i :: 0 <= i < |t| ==> r[i].active == (t[i].active && t[i].fid != fid)
    ensures forall i :: 0 <= i < |t| && t[i].fid != fid ==> r[i] == t[i]
    ensures forall i :: 0 <= i < |t| && t[i].fid == fid ==> r[i].updatedAt == now
  {
    seq(|t|, i requires 0 <= i < |t| => if t[i].fid == fid then t[i].(active := false, updatedAt := now) else t[i])
  }

  /** After a soft delete the owner's lookup still finds the food, now
      inactive. */
  lemma SoftDeleteEffect(t: seq<Food>, fid: string, uid: string, now: int)
    ensures Lookup(t, uid, fid).Success? ==>
              && Lookup(SoftDelete(t, fid, now), uid, fid).Success?
              && !Lookup(SoftDelete(t, fid, now), uid, fid).value.active
  {
    var d := SoftDelete(t, fid, now);
    if Lookup(t, uid, fid).Success? {
      var f :| f in t && Owns(f, uid, fid);
      var i :| 0 <= i < |t| && t[i] == f;
      assert d[i] in d && Owns(d[i], uid, fid);
    }
  }

  /** Soft deletion keeps every fid, so the primary key stays unique. */
  lemma SoftDeleteKeepsUnique(t: seq<Food>, fid: string, now: int)
    requires UniqueFids(t)
    ensures UniqueFids(SoftDelete(t, fid, now))
  {
    var d := SoftDelete(t, fid, now);
    assert forall i :: 0 <= i < |t| ==> d[i].fid == t[i].fid;
  }

  /** delete_food: only a food get_info hands to the caller can be deleted,
      and the row is flagged inactive rather than removed. */
  method DeleteFood(db: Database, sid: string, fid: string, now: int) returns (r: Reply<()>)
    requires db.Valid()
    modifies db
    ensures db.Valid()
    ensures db.verifications == old(db.verifications) && db.users == old(db.users)
    ensures db.sessions == old(db.sessions) && db.chats == old(db.chats)
    ensures db.chatItems == old(db.chatItems)
    ensures var g := GetInfo(old(db.sessions), old(db.foods), sid, fid, now);
            && (g.Failure? ==> r == Failure(g.code, g.error) && db.foods == old(db.foods))
            && (g.Success? ==> r == Success(()) && db.foods == SoftDelete(old(db.foods), fid, now))
  {
    // the code's own first test only rejects a missing or expired session,
    // which get_info rejects in the same way
    var g := GetInfo(db.sessions, db.foods, sid, fid, now);
    if g.Failure? {
      return Failure(g.code, g.error);
    }
    SoftDeleteKeepsUnique(db.foods, fid, now);
    db.foods := SoftDelete(db.foods, fid, now);
    r := Success(());
  }

  // ---------------------------------------------------------------------
  // regi_food_with_barcode (db/food.py:108-179)

  /** What the two external product lookups produced, or the defaults the
      code falls back to when they fail (no name, type "no information",
      expiry three months out, no picture, no volume). */
  datatype ProductFacts = ProductFacts(
    name: Option<string>, foodType: string, volume: Option<string>,
    imageUrl: Option<string>, expirationDate: int)

  /** regi_food_with_barcode: a known session (active or not), a valid
      barcode and a count in 1..100 are checked before anything is written;
      then one row is stored under the session's user.  An fid already in use
      is the failed INSERT (409).  The answer carries get_info of the new row,
      which is empty when the session is inactive (or the generated fid empty). */
  method RegiFoodWithBarcode(db: Database, sid: string, barcode: string, count: int,
                             isValidBarcode: string -> bool, facts: ProductFacts,
                             fid: string, now: int)
    returns (r: Reply<Option<Food>>)
    requires db.Valid()
    modifies db
    ensures db.Valid()
    ensures db.verifications == old(db.verifications) && db.users == old(db.users)
    ensures db.sessions == old(db.sessions) && db.chats == old(db.chats)
    ensures db.chatItems == old(db.chatItems)
    ensures SessionDb.GetInfo(old(db.sessions), sid, now).None? ==> r == Failure(404, InvalidSession)
    ensures (SessionDb.GetInfo(old(db.sessions), sid, now).Some?
             && (barcode == "" || !isValidBarcode(barcode))) ==> r == Failure(400, InvalidBarcode)
    ensures (SessionDb.GetInfo(old(db.sessions), sid, now).Some?
             && barcode != "" && isValidBarcode(barcode)
             && !(MinCount <= count <= MaxCount)) ==> r == Failure(400, InvalidCount)
    ensures (SessionDb.GetInfo(old(db.sessions), sid, now).Some?
             && barcode != "" && isValidBarcode(barcode) && MinCount <= count <= MaxCount
             && exists i :: 0 <= i < |old(db.foods)| && old(db.foods)[i].fid == fid) ==>
              r == Failure(409, RegisterFailed)
    ensures r.Success? <==>
              && SessionDb.GetInfo(old(db.sessions), sid, now).Some?
              && barcode != "" && isValidBarcode(barcode) && MinCount <= count <= MaxCount
              && forall i :: 0 <= i < |old(db.foods)| ==> old(db.foods)[i].fid != fid
    ensures r.Failure? ==> db.foods == old(db.foods)
    ensures r.Success? ==>
              var s := SessionDb.GetInfo(old(db.sessions), sid, now).value;
              var row := Food(fid, s.uid, facts.name, facts.foodType, count, facts.volume,
                              facts.imageUrl, barcode, facts.expirationDate, true, now);
              && db.foods == old(db.foods) + [row]
              && r.value == if s.active && fid != "" then Some(row) else None
  {
    var s := SessionDb.GetInfo(db.sessions, sid, now);
    if s.None? {
      return Failure(404, InvalidSession);
    }
    if barcode == "" || !isValidBarcode(barcode) {
      return Failure(400, InvalidBarcode);
    }
    if count <= 0 || count > MaxCount {
      return Failure(400, InvalidCount);
    }
    if IndexWhere(db.foods, (f: Food) => f.fid == fid).Some? {
      return Failure(409, RegisterFailed);
    }
    var row := Food(fid, s.value.uid, facts.name, facts.foodType, count, facts.volume,
                    facts.imageUrl, barcode, facts.expirationDate, true, now);
    var data := InsertFood(db, row, sid, now);
    r := Success(data);
  }

  /** The INSERT of a row with an unused fid, then get_info of that row. */
  method InsertFood(db: Database, row: Food, sid: string, now: int) returns (data: Option<Food>)
    requires db.Valid()
    requires IndexWhere(db.foods, (f: Food) => f.fid == row.fid).None?
    requires SessionDb.GetInfo(db.sessions, sid, now).Some?
    requires row.uid == SessionDb.GetInfo(db.sessions, sid, now).value.uid
    modifies db
    ensures db.Valid()
    ensures db.verifications == old(db.verifications) && db.users == old(db.users)
    ensures db.sessions == old(db.sessions) && db.chats == old(db.chats)
    ensures db.chatItems == old(db.chatItems)
    ensures db.foods == old(db.foods) + [row]
    ensures data == if SessionDb.GetInfo(db.sessions, sid, now).value.active && row.fid != "" then Some(row) else None
  {
    var t := db.foods + [row];
    assert t[|db.foods|] == row;
    assert forall i :: 0 <= i < |db.foods| ==> t[i].fid != row.fid;
    db.foods := t;
    var g := GetInfo(db.sessions, db.foods, sid, row.fid, now);
    if g.Success? {
      assert g.value == row;
      data := Some(row);
    } else {
      data := None;
    }
  }
}
