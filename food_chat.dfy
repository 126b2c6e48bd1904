/** db/food_chat.py: recipe-generation jobs.  A job (a food_chat row with
    its food_chat_items) is created from a list of the caller's foods, queued,
    and later taken from the front of the queue by the worker, which asks a
    language model for a recipe.  The model's answer is a parameter. */
module FoodChatDb {
  import opened Common
  import opened Tables
  import SessionDb
  import FoodDb

  const MinItems: int := 2
  const MaxItems: int := 10

  /** What get_info returns: the chat row and its food ids in row order. */
  datatype ChatView = ChatView(chat: Chat, items: seq<string>)

  /** An entry {sid, fcid} of the pending queue. */
  datatype Job = Job(sid: string, fcid: string)

  /** The optional arguments of food_chat_config; None leaves a column alone. */
  datatype ChatUpdate = ChatUpdate(
    status: Option<ChatStatus>, response: Option<string>,
    inputTokens: Option<int>, outputTokens: Option<int>)

  /** The language model's reply, or any exception raised while asking. */
  datatype LlmOutcome = Answer(text: string, inputTokens: int, outputTokens: int) | Unavailable

  // ---------------------------------------------------------------------
  // get_info (db/food_chat.py:40-70)

  /** get_info: after the session check, the chat only if it belongs to the
      session's user (404 otherwise, whether it is someone else's or absent). */
  function GetInfo(sessions: seq<Session>, chats: map<string, Chat>, items: map<string, seq<string>>,
                   sid: string, fcid: string, now: int): (r: Reply<ChatView>)
    ensures !SessionDb.IsLive(sessions, sid, now) ==>
              var c := FoodDb.CheckSession(sessions, sid, now); r == Failure(c.code, c.error)
    ensures SessionDb.IsLive(sessions, sid, now) ==>
              (r.Success? <==> fcid in chats && chats[fcid].uid == SessionDb.GetInfo(sessions, sid, now).value.uid)
    ensures SessionDb.IsLive(sessions, sid, now) && r.Failure? ==> r == Failure(404, ChatNotFound)
    ensures r.Success? ==>
              && fcid in chats && r.value.chat == chats[fcid]
              && r.value.items == (if fcid in items then items[fcid] else [])
  {
    match FoodDb.CheckSession(sessions, sid, now)
    case Failure(code, err) => Failure(code, err)
    case Success(s) =>
      if fcid in chats && chats[fcid].uid == s.uid then
        Success(ChatView(chats[fcid], if fcid in items then items[fcid] else []))
      else Failure(404, ChatNotFound)
  }

  // ---------------------------------------------------------------------
  // food_chat_config (db/food_chat.py:116-143)

  predicate NoFields(u: ChatUpdate)
  {
    u.status.None? && u.response.None? && u.inputTokens.None? && u.outputTokens.None?
  }

  /** The row after UPDATE food_chat SET <the given columns>, updated_at = now:
      a column given in u takes u's value, a column not given keeps its own,
      the update time becomes now, and nothing else changes. */
  function Configured(c: Chat, u: ChatUpdate, now: int): (r: Chat)
    ensures r == c.(status := r.status, response := r.response, inputTokens := r.inputTokens,
                    outputTokens := r.outputTokens, updatedAt := r.updatedAt)
    ensures r.updatedAt == now
    ensures u.status.Some? ==> r.status == u.status
    ensures u.status.None? ==> r.status == c.status
    ensures u.response.Some? ==> r.response == u.response
    ensures u.response.None? ==> r.response == c.response
    ensures u.inputTokens.Some? ==> r.inputTokens == u.inputTokens
    ensures u.inputTokens.None? ==> r.inputTokens == c.inputTokens
    ensures u.outputTokens.Some? ==> r.outputTokens == u.outputTokens
    ensures u.outputTokens.None? ==> r.outputTokens == c.outputTokens
  {
    c.(status := if u.status.Some? then u.status else c.status,
       response := if u.response.Some? then u.response else c.response,
       inputTokens := if u.inputTokens.Some? then u.inputTokens else c.inputTokens,
       outputTokens := if u.outputTokens.Some? then u.outputTokens else c.outputTokens,
       updatedAt := now)
  }

  /** Two updates in a row: the later one's fields win. */
  function Merge(first: ChatUpdate, second: ChatUpdate): ChatUpdate
  {
    ChatUpdate(
      if second.status.Some? then second.status else first.status,
      if second.response.Some? then second.response else first.response,
      if second.inputTokens.Some? then second.inputTokens else first.inputTokens,
      if second.outputTokens.Some? then second.outputTokens else first.outputTokens)
  }

  /** Repeating an update changes nothing more, and two updates in a row
      equal one merged update. */
  lemma ConfiguredLaws(c: Chat, u: ChatUpdate, v: ChatUpdate, now: int, later: int)
    ensures Configured(Configured(c, u, now), u, now) == Configured(c, u, now)
    ensures Configured(Configured(c, u, now), v, later) == Configured(c, Merge(u, v), later)
  {
  }

  /** food_chat_config: with no field given, 400 and no change; otherwise the
      given columns of the row are set (an unknown fcid updates no row and
      still reports success). */
  method FoodChatConfig(db: Database, fcid: string, u: ChatUpdate, now: int) returns (r: Reply<()>)
    modifies db
    ensures db.verifications == old(db.verifications) && db.users == old(db.users)
    ensures db.sessions == old(db.sessions) && db.foods == old(db.foods)
    ensures db.chatItems == old(db.chatItems)
    ensures NoFields(u) ==> r == Failure(400, NothingToUpdate) && db.chats == old(db.chats)
    ensures !NoFields(u) ==>
              && r == Success(())
              && db.chats == if fcid in old(db.chats)
                             then old(db.chats)[fcid := Configured(old(db.chats)[fcid], u, now)]
                             else old(db.chats)
  {
    if NoFields(u) {
      return Failure(400, NothingToUpdate);
    }
    if fcid in db.chats {
      var c := db.chats[fcid];
      if u.status.Some? {
        c := c.(status := u.status);
      }
      if u.response.Some? {
        c := c.(response := u.response);
      }
      if u.inputTokens.Some? {
        c := c.(inputTokens := u.inputTokens);
      }
      if u.outputTokens.Some? {
        c := c.(outputTokens := u.outputTokens);
      }
      c := c.(updatedAt := now);
      db.chats := db.chats[fcid := c];
    }
    r := Success(());
  }

  function StatusOnly(s: ChatStatus): ChatUpdate
  {
    ChatUpdate(Some(s), None, None, None)
  }

  // ---------------------------------------------------------------------
  // generate_chat (db/food_chat.py:145-214), status logic

  /** Position in the one-way machine queued -> creating -> completed | failed. */
  function Rank(s: Option<ChatStatus>): int
  {
    match s
    case None => 0
    case Some(Queued) => 1
    case Some(Creating) => 2
    case Some(Completed) => 3
    case Some(Failed) => 3
  }

  /** The refusal for a chat that is being generated or already finished. */
  function Refusal(s: Option<ChatStatus>): (r: Option<Error>)
    ensures r.None? <==> s.None? || s == Some(Queued)
  {
    match s
    case Some(Creating) => Some(AlreadyCreating)
    case Some(Completed) => Some(AlreadyCompleted)
    case Some(Failed) => Some(AlreadyFailed)
    case _ => None
  }

  /** The second status write: completed with the answer and its token
      counts, or failed. */
  function Finished(o: LlmOutcome): (r: ChatUpdate)
    ensures r.status == Some(if o.Answer? then Completed else Failed)
    ensures o.Answer? ==>
              r.response == Some(o.text) && r.inputTokens == Some(o.inputTokens)
              && r.outputTokens == Some(o.outputTokens)
    ensures o.Unavailable? ==> r.response.None? && r.inputTokens.None? && r.outputTokens.None?
  {
    match o
    case Answer(text, inTokens, outTokens) => ChatUpdate(Some(Completed), Some(text), Some(inTokens), Some(outTokens))
    case Unavailable => StatusOnly(Failed)
  }

  /** The answer of generate_chat and the chat table it leaves. */
  datatype Generated = Generated(reply: Reply<ChatView>, chats: map<string, Chat>)

  /** generate_chat: get_info's checks, then the refusal of a chat already
      creating, completed or failed; otherwise the status goes to creating and
      then to completed (with the answer) or failed. */
  function GenerateEffect(sessions: seq<Session>, chats: map<string, Chat>, items: map<string, seq<string>>,
                          sid: string, fcid: string, outcome: LlmOutcome, now: int): (r: Generated)
    ensures r.chats.Keys == chats.Keys
    ensures forall k :: k in chats && k != fcid ==> r.chats[k] == chats[k]
    ensures forall k :: k in chats && Refusal(chats[k].status).Some? ==> r.chats[k] == chats[k]
    ensures forall k :: k in chats ==> Rank(r.chats[k].status) >= Rank(chats[k].status)
    ensures r.chats != chats ==>
              && SessionDb.IsLive(sessions, sid, now) && fcid in chats
              && chats[fcid].uid == SessionDb.GetInfo(sessions, sid, now).value.uid
              && r.chats[fcid].status == (if outcome.Answer? then Some(Completed) else Some(Failed))
    ensures r.reply.Success? ==>
              && outcome.Answer? && fcid in chats && Refusal(chats[fcid].status).None?
              && r.chats[fcid].status == Some(Completed) && r.chats[fcid].response == Some(outcome.text)
              && r.chats[fcid] == chats[fcid].(status := Some(Completed), response := Some(outcome.text),
                                               inputTokens := Some(outcome.inputTokens),
                                               outputTokens := Some(outcome.outputTokens), updatedAt := now)
              && r.reply.value == ChatView(r.chats[fcid], if fcid in items then items[fcid] else [])
    ensures r.chats != chats && outcome.Unavailable? ==>
              && r.reply == Failure(500, GenerationFailed)
              && r.chats[fcid] == chats[fcid].(status := Some(Failed), updatedAt := now)
    ensures GetInfo(sessions, chats, items, sid, fcid, now).Failure? ==>
              r == Generated(Failure(GetInfo(sessions, chats, items, sid, fcid, now).code,
                                     GetInfo(sessions, chats, items, sid, fcid, now).error), chats)
    ensures GetInfo(sessions, chats, items, sid, fcid, now).Success? && Refusal(chats[fcid].status).Some? ==>
              r == Generated(Failure(400, Refusal(chats[fcid].status).value), chats)
    ensures (SessionDb.IsLive(sessions, sid, now) && fcid in chats
             && chats[fcid].uid == SessionDb.GetInfo(sessions, sid, now).value.uid
             && Refusal(chats[fcid].status).None?) ==>
              r.reply.Success? == outcome.Answer? && r.chats != chats
  {
    match GetInfo(sessions, chats, items, sid, fcid, now)
    case Failure(code, err) => Generated(Failure(code, err), chats)
    case Success(view) =>
      match Refusal(view.chat.status)
      case Some(err) => Generated(Failure(400, err), chats)
      case None =>
        var creating := Configured(view.chat, StatusOnly(Creating), now);
        var done := Configured(creating, Finished(outcome), now);
        var after := chats[fcid := done];
        assert done.status != view.chat.status;
        if outcome.Answer? then Generated(Success(ChatView(done, view.items)), after)
        else Generated(Failure(500, GenerationFailed), after)
  }

  /** generate_chat as the two successive status writes. */
  method GenerateChat(db: Database, sid: string, fcid: string, outcome: LlmOutcome, now: int)
    returns (r: Reply<ChatView>)
    modifies db
    ensures db.verifications == old(db.verifications) && db.users == old(db.users)
    ensures db.sessions == old(db.sessions) && db.foods == old(db.foods)
    ensures db.chatItems == old(db.chatItems)
    ensures Generated(r, db.chats) ==
              GenerateEffect(old(db.sessions), old(db.chats), old(db.chatItems), sid, fcid, outcome, now)
  {
    // the code's own first session test rejects exactly what get_info rejects
    var info := GetInfo(db.sessions, db.chats, db.chatItems, sid, fcid, now);
    if info.Failure? {
      return Failure(info.code, info.error);
    }
    var refusal := Refusal(info.value.chat.status);
    if refusal.Some? {
      return Failure(400, refusal.value);
    }
    var ignored := FoodChatConfig(db, fcid, StatusOnly(Creating), now);
    ignored := FoodChatConfig(db, fcid, Finished(outcome), now);
    if outcome.Answer? {
      var after := GetInfo(db.sessions, db.chats, db.chatItems, sid, fcid, now);
      r := Success(after.value);
    } else {
      r := Failure(500, GenerationFailed);
    }
  }

  // ---------------------------------------------------------------------
  // De-duplication of the requested food ids (db/food_chat.py:93-96)

  predicate NoDuplicates<T(==)>(s: seq<T>)
  {
    forall i, j :: 0 <= i < j < |s| ==> s[i] != s[j]
  }

  /** The ids in the order first met, each once (the loop's "skip an id
      already collected"). */
  function Dedup(s: seq<string>): (r: seq<string>)
    ensures forall x :: x in r <==> x in s
    ensures NoDuplicates(r)
    ensures |r| <= |s|
  {
    if s == [] then []
    else
      var d := Dedup(s[..|s| - 1]);
      assert forall x :: x in s <==> x in s[..|s| - 1] || x == s[|s| - 1] by {
        assert s == s[..|s| - 1] + [s[|s| - 1]];
      }
      if s[|s| - 1] in d then d else d + [s[|s| - 1]]
  }

  /** Index of the first occurrence of x. */
  function FirstIndex(s: seq<string>, x: string): (k: nat)
    requires x in s
    ensures k < |s| && s[k] == x
    ensures forall j :: 0 <= j < k ==> s[j] != x
  {
    if s[0] == x then 0 else 1 + FirstIndex(s[1..], x)
  }

  lemma FirstIndexPrefix(s: seq<string>, y: string, x: string)
    requires x in s
    ensures FirstIndex(s + [y], x) == FirstIndex(s, x)
  {
    var k := FirstIndex(s, x);
    var t := s + [y];
    assert t[k] == x;
    var k' := FirstIndex(t, x);
    assert k' <= k;
    assert t[k'] == s[k'];
  }

  /** Dedup keeps first occurrences in their original order. */
  lemma {:induction false} DedupOrder(s: seq<string>)
    ensures forall i, j :: 0 <= i < j < |Dedup(s)| ==>
              FirstIndex(s, Dedup(s)[i]) < FirstIndex(s, Dedup(s)[j])
  {
    if s != [] {
      var init := s[..|s| - 1];
      var last := s[|s| - 1];
      assert s == init + [last];
      DedupOrder(init);
      var d := Dedup(init);
      forall x | x in d ensures FirstIndex(s, x) == FirstIndex(init, x) {
        FirstIndexPrefix(init, last, x);
      }
      if last in d {
        assert Dedup(s) == d;
      } else {
        assert last !in init;
        assert FirstIndex(s, last) == |s| - 1;
        assert Dedup(s) == d + [last];
        forall i | 0 <= i < |d| ensures FirstIndex(s, d[i]) < |s| - 1 {
          assert d[i] in d;
        }
      }
    }
  }

  /** Appending an id extends Dedup exactly when the id is new. */
  lemma DedupSnoc(s: seq<string>, x: string)
    ensures Dedup(s + [x]) == if x in Dedup(s) then Dedup(s) else Dedup(s) + [x]
  {
    assert (s + [x])[..|s + [x]| - 1] == s;
  }

  /** The same, one index further into a list. */
  lemma DedupStep(s: seq<string>, i: int)
    requires 0 <= i < |s|
    ensures Dedup(s[..i + 1]) == if s[i] in Dedup(s[..i]) then Dedup(s[..i]) else Dedup(s[..i]) + [s[i]]
  {
    assert s[..i + 1] == s[..i] + [s[i]];
    DedupSnoc(s[..i], s[i]);
  }

  // ---------------------------------------------------------------------
  // The pending queue and the worker (db/food_chat.py:10-38)

  /** One worker step: the job taken and generate_chat's answer. */
  datatype Processed = Processed(job: Job, reply: Reply<ChatView>)

  /** The FoodChat service: the pending queue shared by all requests. */
  class FoodChatService {
    var queue: seq<Job>

    /** The service starts with an empty queue (its thread is the worker
        loop, modelled as WorkerStep). */
    constructor ()
      ensures queue == []
    {
      queue := [];
    }

    /** queue_add: append {sid, fcid} at the back and mark the chat queued. */
    method QueueAdd(db: Database, sid: string, fcid: string, now: int)
      modifies this, db
      ensures queue == old(queue) + [Job(sid, fcid)]
      ensures db.verifications == old(db.verifications) && db.users == old(db.users)
      ensures db.sessions == old(db.sessions) && db.foods == old(db.foods)
      ensures db.chatItems == old(db.chatItems)
      ensures db.chats == if fcid in old(db.chats)
                          then old(db.chats)[fcid := Configured(old(db.chats)[fcid], StatusOnly(Queued), now)]
                          else old(db.chats)
    {
      queue := queue + [Job(sid, fcid)];
      var ignored := FoodChatConfig(db, fcid, StatusOnly(Queued), now);
    }

    /** One pass of the worker loop: with an empty queue nothing happens;
        otherwise the oldest job (the front) is removed and generated. */
    method WorkerStep(db: Database, outcome: LlmOutcome, now: int) returns (r: Option<Processed>)
      modifies this, db
      ensures db.verifications == old(db.verifications) && db.users == old(db.users)
      ensures db.sessions == old(db.sessions) && db.foods == old(db.foods)
      ensures db.chatItems == old(db.chatItems)
      ensures old(queue) == [] ==> r.None? && queue == [] && db.chats == old(db.chats)
      ensures old(queue) != [] ==>
                && r.Some? && r.value.job == old(queue)[0]
                && queue == old(queue)[1..]
                && Generated(r.value.reply, db.chats) ==
                     GenerateEffect(old(db.sessions), old(db.chats), old(db.chatItems),
                                    r.value.job.sid, r.value.job.fcid, outcome, now)
    {
      if queue == [] {
        return None;
      }
      var job := queue[0];
      queue := queue[1..];
      var reply := GenerateChat(db, job.sid, job.fcid, outcome, now);
      r := Some(Processed(job, reply));
    }
  }

  // ---------------------------------------------------------------------
  // create_chat_db (db/food_chat.py:72-114)

  /** Every food id of s before n passes the lookup. */
  ghost predicate AllFound(lookup: string -> Reply<Food>, s: seq<string>, n: int)
    requires 0 <= n <= |s|
  {
    forall j :: 0 <= j < n ==> lookup(s[j]).Success?
  }

  /** The get_info of a food id made on behalf of the session. */
  function FoodLookup(sessions: seq<Session>, foods: seq<Food>, sid: string, now: int): string -> Reply<Food>
  {
    (fid: string) => FoodDb.GetInfo(sessions, foods, sid, fid, now)
  }

  /** The lookup loop of create_chat_db: the first id whose lookup fails is
      reported with its index; otherwise the ids de-duplicated. */
  method CollectItems(lookup: string -> Reply<Food>, fids: seq<string>)
    returns (r: Reply<seq<string>>)
    ensures r.Success? <==> AllFound(lookup, fids, |fids|)
    ensures r.Success? ==> r.value == Dedup(fids)
    ensures r.Failure? ==>
              && r.error.AtIndex? && 0 <= r.error.index < |fids|
              && AllFound(lookup, fids, r.error.index)
              && var g := lookup(fids[r.error.index]);
                 g.Failure? && r == Failure(g.code, AtIndex(r.error.index, g.error))
  {
    var kept: seq<string> := [];
    var i := 0;
    while i < |fids|
      invariant 0 <= i <= |fids|
      invariant AllFound(lookup, fids, i)
      invariant kept == Dedup(fids[..i])
    {
      var info := lookup(fids[i]);
      if info.Failure? {
        return Failure(info.code, AtIndex(i, info.error));
      }
      // get_info's row carries the id asked for, so comparing the rows
      // collected by fid compares the ids themselves
      DedupStep(fids, i);
      if fids[i] !in kept {
        kept := kept + [fids[i]];
      }
      i := i + 1;
    }
    assert fids[..i] == fids;
    r := Success(kept);
  }

  /** create_chat_db: the session check, the list length (raw, duplicates
      counted) before any lookup, the lookups, then one chat row, its items
      and one queue entry.  Nothing is written on any failure. */
  method CreateChatDb(db: Database, svc: FoodChatService, sid: string, fids: seq<string>,
                      fcid: string, now: int)
    returns (r: Reply<ChatView>)
    requires fcid !in db.chats && fcid !in db.chatItems
    modifies db, svc
    ensures db.verifications == old(db.verifications) && db.users == old(db.users)
    ensures db.sessions == old(db.sessions) && db.foods == old(db.foods)
    ensures !SessionDb.IsLive(old(db.sessions), sid, now) ==>
              var c := FoodDb.CheckSession(old(db.sessions), sid, now); r == Failure(c.code, c.error)
    ensures SessionDb.IsLive(old(db.sessions), sid, now) ==>
              && (|fids| == 0 ==> r == Failure(400, EmptyItemList))
              && (0 < |fids| < MinItems ==> r == Failure(400, TooFewItems))
              && (|fids| > MaxItems ==> r == Failure(400, TooManyItems))
              && (MinItems <= |fids| <= MaxItems ==>
                    (r.Success? <==> AllFound(FoodLookup(old(db.sessions), old(db.foods), sid, now), fids, |fids|)))
              && (MinItems <= |fids| <= MaxItems && r.Failure? ==> r.error.AtIndex?)
    ensures r.Failure? && r.error.AtIndex? ==>
              && 0 <= r.error.index < |fids|
              && AllFound(FoodLookup(old(db.sessions), old(db.foods), sid, now), fids, r.error.index)
              && var g := FoodDb.GetInfo(old(db.sessions), old(db.foods), sid, fids[r.error.index], now);
                 g.Failure? && r == Failure(g.code, AtIndex(r.error.index, g.error))
    ensures r.Failure? ==>
              db.chats == old(db.chats) && db.chatItems == old(db.chatItems) && svc.queue == old(svc.queue)
    ensures r.Success? ==>
              var uid := SessionDb.GetInfo(old(db.sessions), sid, now).value.uid;
              var row := Chat(fcid, uid, Some(Queued), None, None, None, now);
              && db.chats == old(db.chats)[fcid := row]
              && db.chatItems == old(db.chatItems)[fcid := Dedup(fids)]
              && svc.queue == old(svc.queue) + [Job(sid, fcid)]
              && r.value == ChatView(row, Dedup(fids))
  {
    var c := FoodDb.CheckSession(db.sessions, sid, now);
    if c.Failure? {
      return Failure(c.code, c.error);
    }
    var uid := c.value.uid;
    if |fids| == 0 {
      return Failure(400, EmptyItemList);
    }
    if |fids| < MinItems {
      return Failure(400, TooFewItems);
    }
    if |fids| > MaxItems {
      return Failure(400, TooManyItems);
    }
    var collected := CollectItems(FoodLookup(db.sessions, db.foods, sid, now), fids);
    if collected.Failure? {
      return Failure(collected.code, collected.error);
    }
    var view := InsertJob(db, svc, sid, fcid, uid, collected.value, now);
    r := Success(view);
  }

  /** The INSERTs of the chat row and its items, queue_add, and get_info of
      the new chat. */
  method InsertJob(db: Database, svc: FoodChatService, sid: string, fcid: string, uid: string,
                   items: seq<string>, now: int)
    returns (view: ChatView)
    requires fcid !in db.chats && fcid !in db.chatItems
    requires SessionDb.IsLive(db.sessions, sid, now)
    requires uid == SessionDb.GetInfo(db.sessions, sid, now).value.uid
    modifies db, svc
    ensures db.verifications == old(db.verifications) && db.users == old(db.users)
    ensures db.sessions == old(db.sessions) && db.foods == old(db.foods)
    ensures db.chats == old(db.chats)[fcid := Chat(fcid, uid, Some(Queued), None, None, None, now)]
    ensures db.chatItems == old(db.chatItems)[fcid := items]
    ensures svc.queue == old(svc.queue) + [Job(sid, fcid)]
    ensures view == ChatView(Chat(fcid, uid, Some(Queued), None, None, None, now), items)
  {
    db.chats := db.chats[fcid := Chat(fcid, uid, None, None, None, None, now)];
    db.chatItems := db.chatItems[fcid := items];
    svc.QueueAdd(db, sid, fcid, now);
    var info := GetInfo(db.sessions, db.chats, db.chatItems, sid, fcid, now);
    view := info.value;
  }
}
