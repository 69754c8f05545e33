# Soft model locking, modelled in Dafny

This project models the lock life cycle of the `sofa/model-locking` PHP
library. A subject is any Eloquent model that uses the `Locking` trait. It
is reserved by one lock record (a `ModelLock` row holding `locked_until`,
`user_id` and `token`). Other users see the subject as locked until the lock
expires, is released, or is shortened after an unlock request. A lock is in
force exactly while `locked_until` lies after the current time. The lock's
token lets its holder through while it is in force.

Modules, one per source file plus shared types:

- `LockValues` (`LockValues.dfy`): subject references, holder ids,
  durations, the configuration keys, the environment, the events and the
  event log.
- `ModelLocks` (`ModelLocks.dfy`), for `src/ModelLock.php`. It holds the
  lock table and the query constraints used on it, including the `active`
  and `expired` scopes. It holds the value-level rules: `LockTimestamp`,
  `LockingUser`, the saving-hook defaults, the token rule and `Verify`. The
  `ModelLock` class holds the fields `lockedUntil`, `userId` and `token`.
  `Lock`, `Save` and `RequestUnlock` change them in place and write the
  record to the table. `GetToken` may set the token in place and does not
  write. `Delete` removes the record's row and changes no field.
- `Locking` (`Locking.dfy`), for `src/Locking.php`. `IsLocked`,
  `IsAccessible`, `LockedUntil` and `LockedBy` are predicates over the
  loaded lock relation and the clock. The `Lockable` class holds that
  relation (`modelLock`). Its methods are `LoadModelLock`, `Lock`, `Unlock`
  and `RequestUnlock`.
- `FlushExpiredLocks` (`FlushExpiredLocks.dfy`), for
  `src/FlushExpiredLocks.php`. It has the collection pipeline (`Pluck`,
  `Unique`, `Filter`), the announcement loop `Announce` and `Handle`.

How the surroundings are represented:

- **Time.** Time is an integer `now`, carried in `Env` with the
  configuration and the id of the authenticated user.
- **Durations.** A duration is `NoDuration`, `Relative(seconds)` or
  `Absolute(at)`. `Parse` stands in for `Carbon::parse`: an unset value
  means "now".
- **Storage.** The lock table is a `LockTable` object holding a sequence
  of `LockRow` values with distinct keys, handed out from `nextId`. Every
  stored record has a truthy token, because rows are written only by
  `save`, whose hook fills a falsy token.
- **Events.** The event dispatcher is an `EventLog` whose `events`
  sequence records each dispatched event. Where the source's dispatcher is
  optional, a null `EventLog?` means there is none.
- **Generated token.** The token `generateToken` would produce is a
  parameter `generated`. It must be truthy, as an md5 digest is.
- **PHP truthiness.** It is written out explicitly. A holder id is falsy
  when it is null or 0. A string is falsy when it is null, `""` or `"0"`. A
  duration is falsy when it is `NoDuration`.
- **Configuration.** A configuration value is `None` when the key is not
  configured, and the caller's default applies. A configured value is used
  as it is, even a falsy one.

Worth knowing about the code:

- `unlock` dispatches `ModelUnlocked` on every call when a dispatcher
  exists, even when the subject was not locked, so a second `unlock`
  announces again (`Locking.Lockable.Unlock`).
- `verify` is a strict comparison with the stored token and nothing else.
  That an unlocked subject admits every token comes from `isAccessible`
  (`ModelLocks.VerifyAcceptsOnlyStoredToken`,
  `Locking.AccessIffTokenMatches`).
- An unlock request re-locks with `user_id` as a raw holder id. A truthy
  `user_id` is kept. A falsy one is resolved afresh: it becomes the
  authenticated user while `use_authenticated_user` is on, and null
  otherwise (`ModelLocks.UnlockRequestEffect`, `ModelLocks.HolderResolution`).
- `unlock` deletes only the subject's active locks. Expired rows stay
  until the sweep removes them.
- `getToken` can generate a token in memory without saving it. The
  saving hook also generates one when the token is missing
  (`ModelLocks.ModelLock.GetToken`).
- The saving hook runs on every save. After a save `locked_until` is no
  longer dirty, so saving the record again without assigning an expiry
  replaces it with the default expiry (`ModelLocks.SavingFillsOnlyMissing`).

## Model

| member | source | states |
|---|---|---|
| `ModelLocks.ScopeActive` | src/ModelLock.php:189-192 | the `active` scope keeps exactly the records with `locked_until` after `now`; with `active` unset, exactly those with `locked_until` at or before `now` |
| `ModelLocks.ScopeExpired` | src/ModelLock.php:202-205 | the `expired` scope keeps exactly the records with `locked_until` at or before `now` |
| `ModelLocks.ScopesPartition` | src/ModelLock.php:189-205 | every record is in exactly one of the active and the expired scope: the counts add up to the table size, and the two multisets add up to the table's multiset |
| `ModelLocks.Where` | src/FlushExpiredLocks.php:27 | a query returns exactly the records meeting its constraint, and no more records than the table has |
| `ModelLocks.DeleteWhere` | src/FlushExpiredLocks.php:29 | a query delete keeps exactly the records that do not meet the constraint, and keeps the table's keys distinct |
| `ModelLocks.DeleteExpiredKeepsActive` | src/FlushExpiredLocks.php:29 | deleting the expired records leaves exactly the active ones, in their order |
| `ModelLocks.Updated` | src/ModelLock.php:101 | saving an existing record replaces, position by position, exactly the row with its key and keeps every other row; a missing key leaves the table equal to what it was; no row is added or lost |
| `ModelLocks.ActiveLockOf` | src/Locking.php:152-155 | the subject's active-only lock relation yields an active record of that subject, or null exactly when the subject has no active record |
| `ModelLocks.DeleteKeepsSingleActive` | src/Locking.php:118-129 | deleting any set of records keeps at most one active record per subject, counted by table position |
| `ModelLocks.SingleActiveLockPersists` | src/Locking.php:102 | "at most one active lock per subject" still holds as time moves on; that it holds after any delete is a corollary of `DeleteKeepsSingleActive` |
| `ModelLocks.UpdateKeepsSingleActive` | src/Locking.php:102 | in a table with distinct keys, updating the subject's active record under its key keeps it the only active one |
| `ModelLocks.InsertKeepsSingleActive` | src/Locking.php:102 | inserting a lock for a subject with no active lock keeps at most one active lock per subject |
| `ModelLocks.SaveKeepsSingleActive` | src/Locking.php:102 | `firstOrNew` followed by a save, which updates the active record or adds one when there is none, keeps at most one active lock per subject |
| `ModelLocks.LockTimestamp` | src/ModelLock.php:112-119 | no contract of its own; `DurationFallback` states it |
| `ModelLocks.LockingUser` | src/ModelLock.php:127-140 | no contract of its own; `HolderResolution` states it |
| `ModelLocks.EnsureToken` | src/ModelLock.php:54-57 | no contract of its own; `TokenStable` states it |
| `ModelLocks.Verify` | src/ModelLock.php:75-78 | no contract of its own; `VerifyAcceptsOnlyStoredToken` states it |
| `ModelLocks.SavingDefaults` | src/ModelLock.php:28-40 | no contract of its own; `SavingFillsOnlyMissing` states it |
| `ModelLocks.LockAndSave` | src/ModelLock.php:97-104 | no contract of its own; `LockEffect` states it |
| `ModelLocks.LockAndSaveAsWritten` | src/ModelLock.php:29-31 | no contract of its own; `LockAsWrittenDropsUnchangedExpiry` and `LockAsWrittenCounterexample` state it |
| `ModelLocks.AfterUnlockRequest` | src/ModelLock.php:150-159 | no contract of its own; `UnlockRequestEffect` states it |
| `ModelLocks.DurationFallback` | src/ModelLock.php:112-119 | a set duration is used literally, a negative one included; a falsy one falls back to the configured duration, and to five minutes when none is configured |
| `ModelLocks.HolderResolution` | src/ModelLock.php:127-140 | an Authenticatable gives its identifier; a truthy raw id is used as is; otherwise the holder is the authenticated user when `use_authenticated_user` is on (the default), else null |
| `ModelLocks.TokenStable` | src/ModelLock.php:54-57 | the token rule keeps a set token, otherwise stores the generated one; the result is always truthy; applying the rule again changes nothing |
| `ModelLocks.VerifyAcceptsOnlyStoredToken` | src/ModelLock.php:75-78 | `verify` accepts exactly one value, the stored token; a stored token rejects null |
| `ModelLocks.SavingFillsOnlyMissing` | src/ModelLock.php:28-40 | the saving hook keeps a dirty expiry, a truthy holder and a truthy token, and fills only the missing ones with the defaults; the token is then truthy; applying the hook again to a record whose expiry is still dirty changes nothing; saving it again once the expiry is no longer dirty resets only the expiry, to the default one |
| `ModelLocks.LockEffect` | src/ModelLock.php:97-104 | after `lock(d, u)` and its save: the expiry is the resolved timestamp; the holder is the resolved one, or the default holder when that is falsy; a set token is kept |
| `ModelLocks.LockAsWrittenDropsUnchangedExpiry` | src/ModelLock.php:29-31 | with the dirty check as written, a re-lock to the expiry the record already has ends with the configured default expiry instead |
| `ModelLocks.LockAsWrittenCounterexample` | src/ModelLock.php:29-31 | a concrete re-lock where the hook as written saves 700 instead of the requested 1000, while `LockAndSave` keeps 1000 |
| `ModelLocks.UnlockRequestEffect` | src/ModelLock.php:150-159 | without a dispatcher or without shortening the record is unchanged; with both, the expiry is the configured shorten duration from now, and a truthy holder and token are kept |
| `ModelLocks.ModelLock.New` | src/Locking.php:102 | `firstOrNew` without an active lock gives an unsaved record of the subject with no values |
| `ModelLocks.ModelLock.Load` | src/Locking.php:102 | `firstOrNew` with an active lock gives a saved record carrying that row's key and values |
| `ModelLocks.ModelLock.GetToken` | src/ModelLock.php:54-57 | returns the stored token, storing the generated one first when there is none; a set token is untouched; the token returned verifies |
| `ModelLocks.ModelLock.Save` | src/ModelLock.php:28-40 | the fields become the saving-hook defaults of the old fields; an existing row is updated under its key, otherwise a row is inserted under a fresh key |
| `ModelLocks.ModelLock.Write` | src/ModelLock.php:101 | the save's write: an existing row is updated under its key, otherwise a row is inserted under the next key; the keys stay distinct |
| `ModelLocks.ModelLock.Lock` | src/ModelLock.php:97-104 | the fields become `LockAndSave` of the old fields, and the record is written to the table |
| `ModelLocks.ModelLock.RequestUnlock` | src/ModelLock.php:150-159 | with a dispatcher, appends `ModelUnlockRequested(model, user, message)`; the record becomes `AfterUnlockRequest` of the old one and is written when re-locked; without shortening nothing else changes |
| `ModelLocks.ModelLock.Delete` | src/ModelLock.php:42-46 | a saved record's row, the one under its unchanged key, is removed, and `ModelUnlocked` is sent when the subject resolves and a dispatcher exists; the record keeps its key and values and is no longer saved; an unsaved record is left alone and announces nothing |
| `Locking.IsLocked` | src/Locking.php:47-51 | no contract of its own; `LockedIffExpiryAhead` and `NoLockIsUnlocked` state it |
| `Locking.IsAccessible` | src/Locking.php:33-40 | no contract of its own; `AccessIffTokenMatches` and `Locking.Lockable.LockedRefusesAbsentToken` state it |
| `Locking.LockedUntil` | src/Locking.php:58-63 | no contract of its own; `GettersFollowLock` states it |
| `Locking.LockedBy` | src/Locking.php:70-75 | no contract of its own; `GettersFollowLock` states it |
| `Locking.RequestedDuration` | src/Locking.php:94-100 | no contract of its own; `DurationPrecedence` and `ArgumentsNormalised` state it |
| `Locking.RequestedUser` | src/Locking.php:94-96 | no contract of its own; `ArgumentsNormalised` states it |
| `Locking.NoLockIsUnlocked` | src/Locking.php:33-75 | without a lock the subject is not locked, has no expiry and no holder, and admits every token |
| `Locking.LockedIffExpiryAhead` | src/Locking.php:47-51 | locked iff a lock exists and its expiry lies in the future; an expiry in the past means unlocked and accessible with any token |
| `Locking.AccessIffTokenMatches` | src/Locking.php:33-40 | accessible iff unlocked or the token equals the lock's token; a locked subject with a token refuses null and admits its own token |
| `Locking.GettersFollowLock` | src/Locking.php:58-75 | `lockedUntil` and `lockedBy` give the record's expiry and holder exactly while locked, and null otherwise |
| `Locking.DurationPrecedence` | src/Locking.php:98-102 | the expiry comes from the explicit duration, then `lock_duration`, then the configured duration, then five minutes |
| `Locking.ArgumentsNormalised` | src/Locking.php:94-96 | an Authenticatable passed first becomes the holder and leaves the duration unset; otherwise the arguments keep their places |
| `Locking.LockedAfterLock` | src/Locking.php:92-111 | after `lock` the subject is locked iff the resolved expiry lies ahead; the lock admits the returned token and refuses every other; an Authenticatable passed first holds it |
| `Locking.Lockable.LoadModelLock` | src/Locking.php:152-155 | the loaded relation is the subject's active lock from the table, or null when there is none |
| `Locking.Lockable.LockedRefusesAbsentToken` | src/Locking.php:33-51 | a loaded lock has a truthy token, since every stored record was saved with one; so while the subject is locked, a request without a token is refused |
| `Locking.Lockable.FirstOrNew` | src/Locking.php:102 | a fresh record: the subject's active record as stored when it has one, otherwise an unsaved record of the subject with no values |
| `Locking.Lockable.LockActiveOrNew` | src/Locking.php:102 | `firstOrNew([])->lock(...)`: the active record, or a new one, becomes `LockAndSave` of its fields and is written to the table by update or insert; the record is saved with a truthy token; at most one active lock per subject is kept |
| `Locking.Lockable.Lock` | src/Locking.php:92-111 | the relation becomes the locked record, the active one or a new one; the table is updated or extended; `ModelLocked` is sent when a dispatcher exists; the returned token is the record's truthy token; at most one active lock per subject is kept |
| `Locking.Lockable.Unlock` | src/Locking.php:118-129 | the subject's active rows are deleted and every other row stays; the relation is dropped and no active lock remains; `ModelUnlocked` is sent when a dispatcher exists |
| `Locking.Lockable.RequestUnlock` | src/Locking.php:138-145 | on an unlocked subject returns null and changes neither the loaded record nor the table; on a locked one forwards the request with shortening, keeps the record's key, updates the row under that key when shortening applies, and returns the expiry as it then stands; when the loaded record matches its stored row, at most one active lock per subject is kept |
| `FlushExpiredLocks.Pluck` | src/FlushExpiredLocks.php:27 | one entry per expired record; the non-null entries are exactly the subjects that still resolve |
| `FlushExpiredLocks.Unique` | src/FlushExpiredLocks.php:27 | the result has no duplicates and holds exactly the values of the input |
| `FlushExpiredLocks.Filter` | src/FlushExpiredLocks.php:27 | the result holds exactly the non-null values, and has no duplicates when the input had none |
| `FlushExpiredLocks.UnlockedEvents` | src/FlushExpiredLocks.php:31-33 | one `ModelUnlocked` per subject, position by position |
| `FlushExpiredLocks.Announce` | src/FlushExpiredLocks.php:31-33 | the loop appends exactly `UnlockedEvents(subjects)` to the log |
| `FlushExpiredLocks.Handle` | src/FlushExpiredLocks.php:25-36 | the table loses exactly its records expired at deletion time; the log gains one `ModelUnlocked` per subject collected before the delete |
| `FlushExpiredLocks.ExpiredSubjects` | src/FlushExpiredLocks.php:27 | no contract of its own; `CollectedSubjects` states it |
| `FlushExpiredLocks.CollectedSubjects` | src/FlushExpiredLocks.php:27 | the collected subjects are distinct; they are exactly the subjects that still resolve and have an expired record |
| `FlushExpiredLocks.OneEventPerSubject` | src/FlushExpiredLocks.php:31-33 | for distinct subjects, the events are distinct; they are exactly `ModelUnlocked` of those subjects |
| `FlushExpiredLocks.SweepOutcome` | src/FlushExpiredLocks.php:25-36 | no expired record remains; active records are kept unchanged and in order; each announced subject resolves and lost a record; each resolvable subject with an expired record is announced exactly once; an unresolvable one never is |

## Left out

- `Carbon::parse`: strings such as "5 minutes" are not parsed. The
  `Duration` datatype stands in for them, and `Parse` for the parser. So
  the "cannot be parsed" exception of `lock` has no counterpart.
- `generateToken` as `md5((string) $this)`: the token is the `generated`
  parameter, only required to be truthy.
- Eloquent persistence, relations and queries are not modelled as
  themselves. Storage is a sequence of rows updated by key. Save and delete
  failures are not modelled.
- Subject resolution: the `model` relation is a parameter (`model`, or
  the `existing` set of subjects that still resolve).
- `lockedBy` gives the holder id: the user `belongsTo` relation and the
  `user_model` configuration are not modelled.
- `config()` and `auth()` are the `Env` parameter. Holder ids are
  integers, so PHP string ids are not modelled.
- Broadcasting: `LockEvent`, `ModelUnlocked` and `ModelUnlockRequested`
  are plain event values. Channels, `broadcastAs`, `broadcastWhen` and
  `SerializesModels` are not modelled, nor is the trait's `broadcastAs`.
- `ServiceProvider` is not modelled: it publishes files and registers the
  command.
- The console message of `FlushExpiredLocks` is not modelled.
- The last-write-wins race between concurrent `lock` calls is not
  modelled: every operation runs alone against the table.
- `FlushExpiredLocks.Unique`: does not state that the values keep the
  order of their first occurrences. Only the set of announced subjects and
  their distinctness are stated, not the order of the events.
- `Locking.Lockable.RequestUnlock`: keeps "at most one active lock per
  subject" only when the loaded relation still matches its stored row. A
  relation loaded earlier can be stale. For example, another instance of
  the same subject may have re-locked that row into the past and then
  locked the subject anew under a new row. Re-locking the stale record
  then revives its old row next to the newer active one, in the model as
  in the source.
- `ModelLocks.Updated`: an update writes every column of the record, while
  Eloquent writes only the changed ones. The two differ only for a stale
  record whose row another instance changed meanwhile: there the model
  overwrites that change, and the source keeps the columns it did not
  touch.
- `Locking.IsLocked`: a record loaded without `locked_until` counts as
  unlocked. The source would fail on it, but saved records always have an
  expiry.
- `Locking.Lockable`: the relation's lazy load on first access is the
  explicit `LoadModelLock`. The other methods work on the relation as
  loaded.

## Findings

| source | as written | input that shows it | evidently intended | confidence | as-written member | corrected member |
|---|---|---|---|---|---|---|
| src/ModelLock.php:29-31 | The saving hook counts `locked_until` as set by `lock` only when it differs from the persisted value. Eloquent's `isDirty` compares values. | A lock persisted until 1000; `lock` with the absolute time 1000, at time 400, with no configuration. The hook saves 700 (now plus five minutes). | `lock` keeps the expiry it resolved, 1000; the default fills only an expiry nobody assigned. | medium, not executed | `ModelLocks.LockAsWrittenCounterexample` | `ModelLocks.LockEffect` |

The corrected behaviour marks `locked_until` as assigned when `lock` sets
it (`ModelLock.untilAssigned`). `ModelLock.Save` uses that mark in place of
the value comparison. Every member that saves through it inherits the
corrected check: `ModelLock.Lock`, `ModelLock.RequestUnlock`,
`Lockable.LockActiveOrNew`, `Lockable.Lock`, `Lockable.RequestUnlock`, and
the lemmas `LockEffect`, `UnlockRequestEffect` and `LockedAfterLock`. `ModelLocks.LockAsWrittenDropsUnchangedExpiry` states
the as-written effect for every such re-lock.
