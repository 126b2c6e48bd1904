# 25-ggcg core, modelled in Dafny

25-ggcg is a small food-management web service. Users sign up with an
e-mail verification code, log in to sessions (at most five active per
user), register foods by barcode, and ask a language model for a recipe
built from two to ten of their foods. Recipe requests go through a
first-in-first-out job queue.

This project models the storage layer behind those features:

- `utils/re.py`: the input format checks.
- `db/user.py`: accounts, e-mail verification, credentials, the profile picture.
- `db/session.py`: login sessions and the five-session cap.
- `db/food.py`: food lookup, listing, soft deletion, and the validation prefix of barcode registration.
- `db/food_chat.py`: recipe jobs. This covers the queue, one worker step, job creation, the partial-update helper, the status logic of generation, and the chat lookup.

Each table is a field of one `Tables.Database` object:

- A `seq` in row order for the tables the code scans (`users`, `user_sessions`, `foods`).
- A `map` for the tables only addressed by key (`email_verification`, `food_chat`, `food_chat_items`).

Every operation that writes is a `method` with `modifies db`. Its `ensures`
gives the whole new state as a pure function of the old one. The lemmas
about those pure functions state what the service promises.
`Database.Valid()` is the uniqueness of uid, e-mail, session id and food id.
The user, session and food operations require it and ensure it. The chat
operations (`FoodChatConfig`, `GenerateChat`, `QueueAdd`, `WorkerStep`,
`CreateChatDb`, `InsertJob`) neither require nor ensure it: they leave the
users, sessions and foods unchanged, which is all `Valid()` reads.

Modules:

- `Common`: `Option`, the `Reply` result type (a status code plus an error), `IndexWhere`, `Filter`.
- `Sorting`: insertion sort by an integer key.
- `Validators`: the format checks.
- `Tables`: the row types and the database.
- `Credentials`: the read-only part of `db/user.py`.
- `Accounts`: the writing part of `db/user.py`. The split follows the import cycle between `db/user.py` and `db/session.py`.
- `SessionDb`, `FoodDb`, `FoodChatDb`.

Values the system gets from outside become parameters:

- the clock (`now`, in integer seconds);
- generated identifiers and codes (`uid`, `sid`, `fid`, `salt`, the six-digit code, `fcid`);
- the password hash function (`hash`);
- the barcode format check (`isValidBarcode`);
- what the two product APIs return (`ProductFacts`);
- the language model's answer (`LlmOutcome`).

Where the code and its documented intent differ, the model follows the code:

- **Session expiry.** `db/session.py` `get_info` refuses an expired session. Its `UPDATE ... is_active = 0` is never committed, because the connection is closed without a commit. So expiry does not flip the stored flag in the model either.
- **Set profile picture.** An unusable session gives code 405 here (`db/user.py:11`), not the 404 the other operations use.
- **Barcode registration.** `regi_food_with_barcode` checks that the session exists but not that it is active. The registration goes through for an inactive session. Its answer then carries no food, because the follow-up `get_info` fails.
- **Food lookup.** `get_info` and `get_list_info` do not filter out soft-deleted foods. A deleted food is still returned, with `active == false`.
- **Chat item count.** `create_chat_db` checks the 2..10 limit against the raw list, duplicates included, before de-duplicating.

Two call sites in the code test the truthiness of a value whose type they do not expect:

- `create_session` tests the `ResultDTO` of `validate_user`.
- The food and chat functions call `.result` on the dict returned by `db/session.py` `get_info`.

The model gives the evidently intended meaning:

- Login needs `validate_user` to succeed and uses its uid.
- A missing or expired session answers 404 (`InvalidSession`). An inactive one answers 401, the code the functions return themselves.

Other modelling choices:

- `is_minutes_passed(t, m)` is read as "at least `m` minutes have passed", that is `now - t >= 60 * m`.
- Stored dates are integer instants. `get_list_info` sorts on the date string, and the model reads that order as time order, which holds for a fixed-width date format. `utils.datetime_to_str` is not part of this model.

## Model

| member | source | states |
|---|---|---|
| Validators.IsValidPassword | utils/re.py:12-22 | a password is accepted iff it has at least 8 characters and contains an upper-case letter, a lower-case letter, a digit and one of the listed symbols |
| Validators.PasswordExtension | utils/re.py:12-22 | every condition is an "at least" condition, so a valid password stays valid whatever is appended |
| Validators.AllOf | utils/re.py:3 | a character-class run matches iff every character is in the class |
| Validators.HasCharIn | utils/re.py:15-21 | `re.search` of a class succeeds iff some character is in the class |
| Validators.CountOf | utils/re.py:3 | the occurrence count is at most the length, and zero exactly when the character is absent |
| Validators.LastIndexOf | utils/re.py:3 | the last occurrence: the character is there and nowhere after it; None iff absent |
| Validators.DropFinalNewline | utils/re.py:3-4 | Python's `$` allows one final newline: the string checked is the input or the input less one final "\n", and the latter exactly when the input ends in a newline |
| Validators.IsValidEmail | utils/re.py:6-7 | the definition: the e-mail shape check applied to the input with one final newline allowed (its agreement with the regex is IsValidEmailMatchesRegex) |
| Validators.EmailShapeIsRegex | utils/re.py:3 | the deterministic "first @, last dot" check accepts exactly the strings the backtracking reading of the e-mail regex matches in full |
| Validators.ShapeGivesSplit | utils/re.py:3 | every string of e-mail shape has a regex split (local part, @, domain body, dot, 2+ letters) |
| Validators.SplitGivesShape | utils/re.py:3 | every regex split gives a string of e-mail shape |
| Validators.IsValidEmailMatchesRegex | utils/re.py:6-7 | `is_valid_email` holds iff `re.match` of the regex succeeds, including the final-newline allowance |
| Validators.ValidEmailCharacters | utils/re.py:3-7 | a valid e-mail has exactly one @, and every other character is in the local-part class or is the one final newline |
| Validators.ShapeSingleAt | utils/re.py:3 | a string of e-mail shape holds exactly one @ |
| Validators.ShapeCharacters | utils/re.py:3 | a string of e-mail shape uses only local-part characters and @ |
| Validators.IsValidUsername | utils/re.py:4-10 | a name is accepted iff, without a final newline, it is 2 to 10 precomposed Hangul syllables |
| Validators.UsernameShape | utils/re.py:4-10 | a valid name has 2..11 characters, all Hangul except possibly a final newline, and at most 10 when it ends in Hangul |
| Credentials.ValidateUser | db/user.py:29-46 | invalid e-mail gives 400, empty password 400, anything else that fails 401; success means a row with that e-mail whose stored hash matches |
| Credentials.ValidateUserExact | db/user.py:29-46 | with unique e-mails, login succeeds with the uid of the row iff its hash matches, and fails when no row has the e-mail |
| Credentials.ValidateUserByUid | db/user.py:48-65 | empty uid gives 400, empty password 400, other failures 401; with unique uids, success iff the row with that uid authenticates |
| Credentials.GetInfo | db/user.py:67-87 | 404 iff no row has the uid; otherwise the public fields of that row (no password, no salt) |
| Credentials.FindPassword | db/user.py:251-255 | always refused with 400; the reason is "invalid e-mail" iff the format check fails |
| Accounts.RemainingSeconds | db/user.py:187-192 | the seconds left are positive iff the one-minute cooldown has not passed, and at most 60 |
| Accounts.MinutesPassed | db/user.py:230 | the reading of `is_minutes_passed(t, m)`: at least 60 m seconds lie between t and now |
| Accounts.NatStr | db/user.py:193 | a decimal numeral is non-empty and all digits, and starts with 0 only when it is the numeral of 0 (no leading zero) |
| Accounts.ParseNatStr | db/user.py:193 | the numeral of n reads back as n |
| Accounts.WaitString | db/user.py:193 | the "m:ss" message: digits, then a colon before the last two digits; the part before the colon reads as the whole minutes s // 60 and the two digits as the seconds s % 60, below 60; the minutes carry no leading zero, so the message starts with 0 iff s is under a minute |
| Accounts.WaitStringRoundTrip | db/user.py:189-193 | the wait message loses nothing: it reads back as the seconds it was made from |
| Accounts.CooldownMessage | db/user.py:187-196 | during the cooldown the message is exactly "1:00", or "0:ss" where ss reads as the remaining seconds, 1 to 59 |
| Accounts.SendEmailVerifyCode | db/user.py:163-204 | a first request inserts an unverified row with zero tries; a repeat for a registered e-mail gives 409; after a minute the row is reset; earlier, 400 with the wait string and no change; nothing else changes |
| Accounts.Attempt | db/user.py:219-246 | a verified row is refused untouched; otherwise the try counter goes up and the update time is set; success iff unexpired, fewer than 5 earlier tries and the code matches; then "expired", 429, "mismatch" in that order |
| Accounts.VerifyCode | db/user.py:207-249 | format errors (400) and a missing row (404) leave the table unchanged; otherwise the row becomes what one Attempt gives and the answer is its answer |
| Accounts.Run | db/user.py:207-249 | a series of attempts yields one answer per attempt |
| Accounts.VerifiedRefusesAll | db/user.py:223-225 | once verified, every later attempt is refused as already verified |
| Accounts.AcceptedOnlyEarly | db/user.py:226-243 | in any series at most one attempt succeeds: it is within the first five tries, before expiry, with the right code, and every other attempt fails |
| Accounts.FreshCodeWindow | db/user.py:181-243 | a freshly issued code can only be accepted on one of the first five attempts, within three minutes of issue |
| Accounts.AppendFreshUser | db/user.py:105-121 | a new row with an unused e-mail and uid keeps uids and e-mails unique |
| Accounts.NewUserCanLogIn | db/user.py:97-121 | after registration, validate_user with the chosen password succeeds with the new uid |
| Accounts.CreateUser | db/user.py:89-127 | checks in order e-mail, password, name (400), already registered (409), not verified (400), uid clash (409); success iff all pass; then exactly the new row is appended, holding hash(password + salt), and the user can log in |
| Accounts.InsertUser | db/user.py:117-121 | the INSERT appends the row, keeps the keys unique, and makes the credentials valid |
| Accounts.RemoveUserFoods | db/user.py:147 | exactly the other users' foods remain, each as often as before |
| Accounts.RemoveUser | db/user.py:150 | exactly the other users' rows remain |
| Accounts.CascadeEffect | db/user.py:143-150 | after the cascade the user has no active session, no food and no row; other users' sessions are untouched |
| Accounts.DeletedUserCannotLogIn | db/user.py:129-150 | once deleted, the account can no longer log in with its e-mail |
| Accounts.CascadeKeepsValid | db/user.py:143-152 | the cascade keeps every key unique |
| Accounts.DeleteUser | db/user.py:129-160 | when validate_user refuses the credentials, its answer is returned and nothing changes; otherwise the three statements of the cascade are applied |
| Accounts.Cascade | db/user.py:142-152 | sessions, foods and users become the deactivated, filtered and filtered tables |
| Accounts.SetProfile | db/user.py:19 | the user's row gets the new picture URL; no other column and no other row changes |
| Accounts.SetProfileEffect | db/user.py:19-20 | get_info then shows the new URL and the user's other fields unchanged |
| Accounts.SetProfileUrl | db/user.py:7-27 | no usable session gives 405, an inactive one 401, no user row 400; otherwise the URL is set on the session user's row and nothing else changes |
| SessionDb.GetInfo | db/session.py:83-113 | no row gives None; a result is the stored row with that id, not expired |
| SessionDb.GetInfoExact | db/session.py:83-113 | with unique ids, get_info gives the row exactly when it has not expired |
| SessionDb.UserSessions | db/session.py:17 | the rows selected are exactly the user's sessions |
| SessionDb.NewestFirst | db/session.py:17-71 | the user's sessions, the same multiset as the WHERE uid = ? selection, ordered by creation time, newest first |
| SessionDb.Newest | db/session.py:71 | the LIMIT 5 subquery: the first five entries of the newest-first list, or all of it when it has fewer than five |
| SessionDb.SidsOf | db/session.py:71 | every id of the list is in the set, which is no larger than the list |
| SessionDb.SidsOfOnly | db/session.py:71 | every id in the set is the id of some row of the list |
| SessionDb.CapLimit | db/session.py:70-72 | after the cap the user has at most five active sessions |
| SessionDb.CapRecency | db/session.py:70-72 | a session of the user outside the five newest is inactive after the cap, and each of the five is at least as recent |
| SessionDb.OutsideNewestIsOlder | db/session.py:71 | any session left out of the five newest is no newer than all five kept |
| SessionDb.CapSessions | db/session.py:71 | the cap only clears active flags, only on the user's sessions, and leaves the five newest as they were; the table keeps its length |
| SessionDb.NewSessionKept | db/session.py:64-71 | a session inserted with a creation time later than all its user's other sessions is still active after the cap |
| SessionDb.CapPreservesUnique | db/session.py:71 | the cap keeps session ids unique |
| SessionDb.AppendFreshSid | db/session.py:66-67 | a new row with an unused id keeps session ids unique |
| SessionDb.InsertAndCap | db/session.py:64-72 | the sessions become the old table plus the new row, then capped for its user |
| SessionDb.CreateSession | db/session.py:47-81 | a session is issued iff the formats are valid, the credentials authenticate and the id is new; it expires in 31 days and the cap is applied; otherwise nothing changes |
| SessionDb.Deactivate | db/session.py:38 | the UPDATE by session id (and, with an owner key, the one of delete_user at db/user.py:144): a row is active afterwards iff it was active and the key does not select it; only the active flag changes |
| SessionDb.DeactivateOneWay | db/session.py:38 | after deactivation the session is no longer usable, so a second deactivation fails; no other row changes |
| SessionDb.DeactivateSession | db/session.py:24-45 | succeeds iff the session is usable, and then exactly that session is deactivated |
| SessionDb.GetSessionList | db/session.py:7-22 | a list iff the session is usable: all of that user's sessions, active or not, newest first |
| FoodDb.CheckSession | db/food.py:38-42 | success iff the session is usable, with its row; a missing or expired session gives 404, an inactive one 401 |
| FoodDb.Lookup | db/food.py:52-62 | the user's row with the fid if there is one; 401 iff the fid exists only under another user; 404 iff no row has the fid |
| FoodDb.GetInfo | db/food.py:37-72 | the session check, then 400 for an empty fid, then the lookup |
| FoodDb.GetInfoOwnership | db/food.py:37-72 | get_info hands a row only to its owner: the session is usable and the row has the fid and the session user's uid |
| FoodDb.OwnedByExpiry | db/food.py:87-103 | exactly the user's foods (the same multiset as the WHERE uid = ? selection), soonest expiry first |
| FoodDb.GetListInfo | db/food.py:74-106 | the session check; 404 iff the user has no food; otherwise all of the user's foods, soonest expiry first |
| FoodDb.SoftDelete | db/food.py:27 | no row is removed; the food's row becomes inactive with the new update time; only those two columns change, and no other row |
| FoodDb.SoftDeleteEffect | db/food.py:27 | after a soft delete the owner's lookup still finds the food, now inactive |
| FoodDb.SoftDeleteKeepsUnique | db/food.py:27 | a soft delete keeps food ids unique |
| FoodDb.DeleteFood | db/food.py:12-35 | a food get_info refuses gives get_info's own answer and changes nothing; otherwise that food is soft-deleted and nothing else changes |
| FoodDb.RegiFoodWithBarcode | db/food.py:108-179 | unknown session 404, bad barcode 400, count outside 1..100 400, fid clash 409, in that order; on success exactly one row is appended under the session's user, and the answer carries it iff the session is active |
| FoodDb.InsertFood | db/food.py:170-179 | the INSERT appends the row, keeps food ids unique, and the follow-up get_info finds it iff the session is active |
| FoodChatDb.GetInfo | db/food_chat.py:40-70 | the session check; 404 unless the chat exists and belongs to the session user; otherwise the chat row with its food ids |
| FoodChatDb.Configured | db/food_chat.py:116-143 | each of status, response and the two token counts takes the given value when one is given and keeps its own otherwise; the update time becomes now; no other column changes |
| FoodChatDb.ConfiguredLaws | db/food_chat.py:116-143 | a partial update is idempotent, and two in a row equal one merged update where the later fields win |
| FoodChatDb.FoodChatConfig | db/food_chat.py:116-143 | no field given gives 400 and no change; otherwise the row, if there is one, becomes the configured row, and the answer is success even when no row matched |
| FoodChatDb.Refusal | db/food_chat.py:157-163 | generation is refused iff the status is creating, completed or failed |
| FoodChatDb.Finished | db/food_chat.py:206-213 | an answer gives completed with its text and both token counts; the exception gives failed and sets nothing else |
| FoodChatDb.GenerateEffect | db/food_chat.py:145-214 | get_info's refusal is returned unchanged; a creating, completed or failed chat gives 400 with its reason and is untouched; only the chat asked for can change, only for its owner with a usable session, and its status only moves forward; an eligible chat always moves and succeeds iff the model answered: the row then gets status completed, the text, both token counts and the update time, its other columns kept, and the reply is that row with the chat's stored food ids; otherwise it is marked failed with 500 and nothing else of it changes |
| FoodChatDb.GenerateChat | db/food_chat.py:145-214 | the two status writes leave exactly the table and the answer GenerateEffect describes |
| FoodChatDb.Dedup | db/food_chat.py:93-96 | the kept ids are exactly the requested ones, each once |
| FoodChatDb.FirstIndex | db/food_chat.py:93-96 | the first position holding the id |
| FoodChatDb.FirstIndexPrefix | db/food_chat.py:93-96 | appending does not move the first occurrence of an id already present |
| FoodChatDb.DedupOrder | db/food_chat.py:93-96 | the kept ids are in the order of their first occurrence |
| FoodChatDb.DedupSnoc | db/food_chat.py:93-96 | one more id extends the kept list iff the id is new |
| FoodChatDb.DedupStep | db/food_chat.py:88-96 | the same step, at one index of the list |
| FoodChatDb.FoodChatService.constructor | db/food_chat.py:10-14 | the service starts with an empty queue |
| FoodChatDb.FoodChatService.QueueAdd | db/food_chat.py:31-36 | the job goes to the back of the queue and the chat, if there is one, is marked queued |
| FoodChatDb.FoodChatService.WorkerStep | db/food_chat.py:16-27 | an empty queue changes nothing; otherwise the front job is removed (first in, first out) and generated as GenerateEffect says |
| FoodChatDb.CollectItems | db/food_chat.py:87-96 | success iff every lookup succeeds, giving the de-duplicated ids; otherwise the first failing index, with that lookup's code and error |
| FoodChatDb.CreateChatDb | db/food_chat.py:72-114 | the session check, then 400 for an empty list or fewer than 2 or more than 10 ids, then the lookups, whose failure names the first failing index; nothing is written on failure; on success one queued chat row, its de-duplicated items and one queue entry, and the new chat is returned |
| FoodChatDb.InsertJob | db/food_chat.py:99-114 | the chat row and its items are inserted, the job is queued, and get_info returns the new chat |

## Left out

- HTTP routing, the app and `utils/auth.py` are not part of this model. Their decorators and request parsing sit above the storage layer.
- The database schema in `db/__init__.py` is not part of this model. The column set is taken from the statements the core runs.
- Sending e-mail (the verification code, the welcome note, "new session", "account deleted") is left out. It is I/O with no effect on the tables.
- The worker thread, `time.sleep(10)` and concurrent access to the queue are left out. `WorkerStep` models one pass of the loop.
- The language model API and the prompt text are left out. The answer, or the exception, is the `LlmOutcome` parameter.
- The two product APIs and the ingredient strings for three barcodes are left out. Their results are the `ProductFacts` parameter. The `ingredients`, `description` and `expiration_date_desc` columns are not modelled.
- `utils.is_valid_barcode` is not part of this model. It is the `isValidBarcode` parameter.
- `days_remaining` in the food answers is left out. Its calendar arithmetic on `datetime` has no effect on the tables.
- The food lookups of `generate_chat` (db/food_chat.py:165-168) only build the prompt. They are left out. When a food lookup fails there, the code raises outside its `try`, so the status never leaves queued. The exception also ends the worker thread, because the loop at db/food_chat.py:16-27 has no `try`: every job queued after it stays queued. The model does not capture that crash, and its `WorkerStep` always goes on to the next job.
- The chat row's update time is written as `CURRENT_TIMESTAMP` (db/food_chat.py:139), which is UTC, while the other tables store `datetime('now', '+9 hours')`. The chat time is thus stored 9 hours behind the others. The model uses the one clock `now` for every table and ignores that offset.
- Storage exceptions are not modelled: `sqlite3.Error` in `delete_user` (500) and in `deactivate_session`, and the 404 of `delete_food` when no row was updated, which cannot happen after a successful `get_info`. Generated-id clashes are modelled as the IntegrityError answers the code gives.
- CreateChatDb: requires the generated `fcid` to be unused. The code does not catch an IntegrityError there, and the chat tables' schema is not part of this model.
- FoodDb.OwnedByExpiry: does not state that the sort is stable. Python's sort keeps equal expiry dates in row order, and the model only states sortedness and the multiset.
- Accounts.SendEmailVerifyCode: does not state that a code is six digits. The code is a parameter, because `utils.gen_number` is not part of this model.
