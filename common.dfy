/** Shared vocabulary: the uniform result every operation returns, the error
    kinds behind the source's messages, and two sequence helpers (the first
    row matching a condition, and a WHERE-style filter) used by every table. */
module Common {

  datatype Option<+T> = None | Some(value: T)

  /** Why an operation failed; one constructor per distinct failure message. */
  datatype Error =
    // format checks
    | InvalidEmail | PasswordRequired | InvalidPassword | InvalidName
    | UidRequired | CodeRequired
    // credential store
    | EmailTaken | NotVerified | BadCredentials | UserNotFound
    | PasswordResetUnsupported | ProfileUpdateFailed
    // email verification
    | AlreadyVerified | CodeExpired | TooManyAttempts | CodeMismatch
    | NoVerification | RateLimited(wait: string)
    // sessions
    | InvalidSession | InactiveSession
    // food items
    | InvalidFoodId | NotOwner | FoodNotFound | NoFoods
    | InvalidBarcode | InvalidCount | RegisterFailed
    // recipe jobs
    | EmptyItemList | TooFewItems | TooManyItems
    | AtIndex(index: nat, inner: Error)
    | ChatNotFound | NothingToUpdate
    | AlreadyCreating | AlreadyCompleted | AlreadyFailed | GenerationFailed

  /** The source's ResultDTO: success (HTTP code 200) with a payload, or an
      HTTP-style error code with its reason. */
  datatype Reply<+T> = Success(value: T) | Failure(code: int, error: Error)

  /** Index of the first element satisfying p, as a SELECT ... fetchone()
      over a table kept in rowid order. */
  function IndexWhere<T>(s: seq<T>, p: T -> bool): (r: Option<nat>)
    ensures r.Some? ==> r.value < |s| && p(s[r.value])
    ensures r.Some? ==> forall k :: 0 <= k < r.value ==> !p(s[k])
    ensures r.None? <==> forall k :: 0 <= k < |s| ==> !p(s[k])
  {
    if s == [] then None
    else if p(s[0]) then Some(0)
    else match IndexWhere(s[1..], p)
      case None => None
      case Some(i) => Some(i + 1)
  }

  /** The rows satisfying p, in their original order (a WHERE clause). */
  function Filter<T(!new)>(s: seq<T>, p: T -> bool): (r: seq<T>)
    ensures forall x :: x in r ==> p(x)
    ensures forall x :: multiset(r)[x] == if p(x) then multiset(s)[x] else 0
    ensures |r| <= |s|
  {
    if s == [] then []
    else
      assert s == [s[0]] + s[1..];
      if p(s[0]) then [s[0]] + Filter(s[1..], p) else Filter(s[1..], p)
  }

  /** Filter keeps exactly the elements that satisfy p. */
  lemma FilterMembership<T(!new)>(s: seq<T>, p: T -> bool, x: T)
    ensures x in Filter(s, p) <==> x in s && p(x)
  {
    assert x in Filter(s, p) <==> multiset(Filter(s, p))[x] > 0;
    assert x in s <==> multiset(s)[x] > 0;
  }

  /** Keys that were distinct in s stay distinct in any WHERE-filtered result
      (deleting rows never breaks a primary key). */
  lemma {:induction false} FilterKeepsDistinct<T(!new), K>(s: seq<T>, p: T -> bool, key: T -> K)
    requires forall i, j :: 0 <= i < j < |s| ==> key(s[i]) != key(s[j])
    ensures forall i, j :: 0 <= i < j < |Filter(s, p)| ==> key(Filter(s, p)[i]) != key(Filter(s, p)[j])
  {
    if s != [] {
      var tail := s[1..];
      assert forall i, j :: 0 <= i < j < |tail| ==> key(tail[i]) != key(tail[j]) by {
        forall i, j | 0 <= i < j < |tail| ensures key(tail[i]) != key(tail[j]) {
          assert tail[i] == s[i + 1] && tail[j] == s[j + 1];
        }
      }
      FilterKeepsDistinct(tail, p, key);
      var rest := Filter(tail, p);
      if p(s[0]) {
        forall j | 0 <= j < |rest| ensures key(s[0]) != key(rest[j]) {
          FilterMembership(tail, p, rest[j]);
          var m :| 0 <= m < |tail| && tail[m] == rest[j];
          assert s[m + 1] == rest[j];
        }
        assert Filter(s, p) == [s[0]] + rest;
      } else {
        assert Filter(s, p) == rest;
      }
    }
  }
}
