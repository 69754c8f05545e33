/** The lock record engine: the `model_locks` table the records live in, the
    query constraints the engine uses on it (the active and expired scopes
    among them), the rules that resolve a lock's expiry, holder and token,
    and the `ModelLock` record itself, whose methods update its fields in
    place and save them. */
module ModelLocks {
  import opened LockValues

  // ---------------------------------------------------------------------
  // The table of lock records
  // ---------------------------------------------------------------------

  /** One persisted lock: its key, the subject it belongs to, its expiry,
      its holder and its token. A persisted lock always has an expiry,
      because the saving hook fills a missing one. */
  datatype LockRow = LockRow(
    id: nat,
    subject: SubjectRef,
    lockedUntil: int,
    userId: Option<UserId>,
    token: Option<string>)

  /** The `where` constraints of the queries the core runs on the table. */
  datatype Condition =
    | ActiveAt(now: int)                       // locked_until > now
    | ExpiredAt(now: int)                      // locked_until <= now
    | ActiveFor(subject: SubjectRef, at: int)  // the subject's active locks
    | HasId(id: nat)                           // one record, by key

  predicate Holds(c: Condition, r: LockRow) {
    match c
    case ActiveAt(now) => r.lockedUntil > now
    case ExpiredAt(now) => r.lockedUntil <= now
    case ActiveFor(s, now) => r.subject == s && r.lockedUntil > now
    case HasId(id) => r.id == id
  }

  /** The `active` query scope: with `active` set it keeps the records whose
      expiry lies after `now`, otherwise those whose expiry is `now` or earlier. */
  function ScopeActive(now: int, active: bool): (c: Condition)
    ensures forall r :: Holds(c, r) <==> (if active then now < r.lockedUntil else r.lockedUntil <= now)
  {
    if active then ActiveAt(now) else ExpiredAt(now)
  }

  /** The `expired` query scope: the `active` scope with `active` unset. */
  function ScopeExpired(now: int): (c: Condition)
    ensures forall r :: Holds(c, r) <==> r.lockedUntil <= now
  {
    ScopeActive(now, false)
  }

  /** The records a query selects, in table order. */
  function Where(rows: seq<LockRow>, c: Condition): (selected: seq<LockRow>)
    ensures |selected| <= |rows|
    ensures forall r :: r in selected <==> r in rows && Holds(c, r)
  {
    if rows == [] then []
    else (if Holds(c, rows[0]) then [rows[0]] else []) + Where(rows[1..], c)
  }

  /** The table after a query `delete`: every selected record is gone and
      the others stay. */
  function DeleteWhere(rows: seq<LockRow>, c: Condition): (kept: seq<LockRow>)
    ensures |kept| <= |rows|
    ensures forall r :: r in kept <==> r in rows && !Holds(c, r)
    ensures DistinctKeys(rows) ==> DistinctKeys(kept)
  {
    if rows == [] then []
    else
      var rest := DeleteWhere(rows[1..], c);
      assert DistinctKeys(rows) ==> DistinctKeys(rows[1..]) by {
        if DistinctKeys(rows) {
          forall i, j | 0 <= i < j < |rows[1..]| ensures rows[1..][i].id != rows[1..][j].id {
            assert rows[1..][i] == rows[i + 1] && rows[1..][j] == rows[j + 1];
          }
        }
      }
      assert DistinctKeys(rows) ==> forall r :: r in rest ==> r.id != rows[0].id by {
        if DistinctKeys(rows) {
          forall r | r in rest ensures r.id != rows[0].id {
            var k :| 0 <= k < |rows[1..]| && rows[1..][k] == r;
            assert rows[k + 1] == r;
          }
        }
      }
      (if Holds(c, rows[0]) then [] else [rows[0]]) + rest
  }

  /** The table after an `update` of the record keyed `row.id`: that record
      takes the new values, every other record is as it was. */
  function Updated(rows: seq<LockRow>, row: LockRow): (updated: seq<LockRow>)
    ensures |updated| == |rows|
    ensures forall i :: 0 <= i < |rows| ==> updated[i] == (if rows[i].id == row.id then row else rows[i])
    ensures forall r :: r in updated <==>
              (r in rows && r.id != row.id) || (r == row && exists o :: o in rows && o.id == row.id)
    ensures (forall o :: o in rows ==> o.id != row.id) ==> updated == rows
  {
    if rows == [] then []
    else [if rows[0].id == row.id then row else rows[0]] + Updated(rows[1..], row)
  }

  /** The subject's lock relation, restricted to active records: the first
      active record of `subject` at `now`, if there is one. */
  function ActiveLockOf(rows: seq<LockRow>, subject: SubjectRef, now: int): (found: Option<LockRow>)
    ensures found.Some? ==> found.value in rows && found.value.subject == subject && now < found.value.lockedUntil
    ensures found.None? ==> forall r :: r in rows && r.subject == subject ==> r.lockedUntil <= now
  {
    var active := Where(rows, ActiveFor(subject, now));
    if active == [] then None
    else
      assert active[0] in active;
      Some(active[0])
  }

  /** No two records share a key. */
  ghost predicate DistinctKeys(rows: seq<LockRow>) {
    forall i, j :: 0 <= i < j < |rows| ==> rows[i].id != rows[j].id
  }

  /** Two records of the same subject, both active at `now`. */
  predicate BothActive(a: LockRow, b: LockRow, now: int) {
    a.subject == b.subject && now < a.lockedUntil && now < b.lockedUntil
  }

  /** At most one active lock per subject at `now`: no two positions of the
      table hold active records of the same subject. */
  ghost predicate SingleActiveLock(rows: seq<LockRow>, now: int) {
    forall i, j {:trigger BothActive(rows[i], rows[j], now)} :: 0 <= i < j < |rows| ==> !BothActive(rows[i], rows[j], now)
  }

  /** The lock table. Keys are distinct and handed out from `nextId`; every
      record has a truthy token, since records are only written by `save`,
      whose hook fills a falsy token. */
  class LockTable {
    var rows: seq<LockRow>
    var nextId: nat

    ghost predicate Valid()
      reads this
    {
      && DistinctKeys(rows)
      && (forall r :: r in rows ==> r.id < nextId)
      && (forall r :: r in rows ==> IsSetString(r.token))
    }

    constructor ()
      ensures Valid() && rows == [] && nextId == 0
    {
      rows := [];
      nextId := 0;
    }
  }

  /** Every record is in exactly one of the two scopes: the active and the
      expired records together are the table, with nothing counted twice. */
  lemma {:induction false} ScopesPartition(rows: seq<LockRow>, now: int)
    ensures |Where(rows, ScopeActive(now, true))| + |Where(rows, ScopeExpired(now))| == |rows|
    ensures multiset(Where(rows, ScopeActive(now, true))) + multiset(Where(rows, ScopeExpired(now))) == multiset(rows)
    ensures forall r :: r in rows ==> (r in Where(rows, ScopeActive(now, true)) <==> r !in Where(rows, ScopeExpired(now)))
  {
    if rows != [] {
      ScopesPartition(rows[1..], now);
      assert rows == [rows[0]] + rows[1..];
    }
  }

  /** Deleting the expired records leaves exactly the active ones, in order. */
  lemma {:induction false} DeleteExpiredKeepsActive(rows: seq<LockRow>, now: int)
    ensures DeleteWhere(rows, ScopeExpired(now)) == Where(rows, ScopeActive(now, true))
  {
    if rows != [] {
      DeleteExpiredKeepsActive(rows[1..], now);
    }
  }

  /** Deleting records keeps a single active lock per subject. */
  lemma {:induction false} DeleteKeepsSingleActive(rows: seq<LockRow>, c: Condition, now: int)
    requires SingleActiveLock(rows, now)
    ensures SingleActiveLock(DeleteWhere(rows, c), now)
  {
    if rows != [] {
      var tail := rows[1..];
      assert SingleActiveLock(tail, now) by {
        forall i, j | 0 <= i < j < |tail| ensures !BothActive(tail[i], tail[j], now) {
          assert tail[i] == rows[i + 1] && tail[j] == rows[j + 1];
        }
      }
      DeleteKeepsSingleActive(tail, c, now);
      var rest := DeleteWhere(tail, c);
      if !Holds(c, rows[0]) {
        forall r | r in rest ensures !BothActive(rows[0], r, now) {
          var k :| 0 <= k < |tail| && tail[k] == r;
          assert rows[k + 1] == r;
        }
        var kept := [rows[0]] + rest;
        forall i, j | 0 <= i < j < |kept| ensures !BothActive(kept[i], kept[j], now) {
          assert kept[j] == rest[j - 1] && kept[j] in rest;
          if i > 0 {
            assert kept[i] == rest[i - 1];
          }
        }
      }
    }
  }

  /** A single active lock per subject stays so as time passes and when
      records are deleted. */
  lemma SingleActiveLockPersists(rows: seq<LockRow>, c: Condition, now: int, later: int)
    requires SingleActiveLock(rows, now) && now <= later
    ensures SingleActiveLock(rows, later)
    ensures SingleActiveLock(DeleteWhere(rows, c), now)
  {
    forall i, j | 0 <= i < j < |rows| ensures !BothActive(rows[i], rows[j], later) {
      assert !BothActive(rows[i], rows[j], now);
    }
    DeleteKeepsSingleActive(rows, c, now);
  }

  /** Updating the subject's active record under its key keeps it the only
      one, since no other record carries that key. */
  lemma UpdateKeepsSingleActive(rows: seq<LockRow>, now: int, current: LockRow, row: LockRow)
    requires SingleActiveLock(rows, now) && DistinctKeys(rows)
    requires current in rows && now < current.lockedUntil
    requires row.id == current.id && row.subject == current.subject
    ensures SingleActiveLock(Updated(rows, row), now)
  {
    var k :| 0 <= k < |rows| && rows[k] == current;
    var updated := Updated(rows, row);
    forall i, j | 0 <= i < j < |updated| ensures !BothActive(updated[i], updated[j], now) {
      if i == k {
        assert updated[j] == rows[j];
        assert !BothActive(rows[k], rows[j], now);
      } else if j == k {
        assert updated[i] == rows[i];
        assert !BothActive(rows[i], rows[k], now);
      } else {
        assert rows[i].id != row.id by { assert i < k ==> rows[i].id != rows[k].id; }
        assert rows[j].id != row.id by { assert k < j ==> rows[k].id != rows[j].id; }
      }
    }
  }

  /** Inserting a lock for a subject with no active lock keeps one per subject. */
  lemma InsertKeepsSingleActive(rows: seq<LockRow>, now: int, row: LockRow)
    requires SingleActiveLock(rows, now)
    requires ActiveLockOf(rows, row.subject, now).None?
    ensures SingleActiveLock(rows + [row], now)
  {
    var grown := rows + [row];
    forall i, j | 0 <= i < j < |grown| ensures !BothActive(grown[i], grown[j], now) {
      assert grown[i] == rows[i] && rows[i] in rows;
      if j < |rows| {
        assert grown[j] == rows[j];
      }
    }
  }

  /** What `firstOrNew` followed by a save does to the table keeps a single
      active lock per subject: the subject's active record is updated under
      its key, or a new record is added when it has none. */
  lemma SaveKeepsSingleActive(rows: seq<LockRow>, now: int, found: Option<LockRow>, row: LockRow, after: seq<LockRow>)
    requires DistinctKeys(rows) && found == ActiveLockOf(rows, row.subject, now)
    requires found.Some? ==> row.id == found.value.id && after == Updated(rows, row)
    requires found.None? ==> after == rows + [row]
    ensures SingleActiveLock(rows, now) ==> SingleActiveLock(after, now)
  {
    if SingleActiveLock(rows, now) {
      if found.Some? {
        UpdateKeepsSingleActive(rows, now, found.value, row);
      } else {
        InsertKeepsSingleActive(rows, now, row);
      }
    }
  }

  // ---------------------------------------------------------------------
  // Resolving expiry, holder and token
  // ---------------------------------------------------------------------

  /** The configured default duration, `config('model_locking.duration', '5 minutes')`. */
  function ConfiguredDuration(c: Config): Duration {
    match c.duration
    case None => FiveMinutes
    case Some(d) => d
  }

  /** `lockTimestamp`: a falsy duration falls back to the configured one. */
  function LockTimestamp(d: Duration, env: Env): int {
    if IsSetDuration(d) then Parse(d, env.now) else Parse(ConfiguredDuration(env.config), env.now)
  }

  lemma DurationFallback(d: Duration, env: Env)
    ensures IsSetDuration(d) ==> LockTimestamp(d, env) == Parse(d, env.now)
    ensures d.Relative? ==> LockTimestamp(d, env) == env.now + d.seconds
    ensures d.Relative? && d.seconds <= 0 ==> LockTimestamp(d, env) <= env.now
    ensures !IsSetDuration(d) && env.config.duration.Some? ==>
              LockTimestamp(d, env) == Parse(env.config.duration.value, env.now)
    ensures !IsSetDuration(d) && env.config.duration.None? ==> LockTimestamp(d, env) == env.now + 300
  {
  }

  /** `config('model_locking.use_authenticated_user', true)`. */
  function UsesAuthenticatedUser(c: Config): bool {
    match c.useAuthenticatedUser
    case None => true
    case Some(b) => b
  }

  /** `lockingUser`: who holds a lock taken with argument `u`. */
  function LockingUser(u: UserArg, env: Env): Option<UserId> {
    match u
    case Authenticated(identifier) => Some(identifier)
    case RawId(_) | NoUser =>
      if u.RawId? && u.id != 0 then Some(u.id)
      else if UsesAuthenticatedUser(env.config) then env.authId
      else None
  }

  lemma HolderResolution(u: UserArg, env: Env)
    ensures u.Authenticated? ==> LockingUser(u, env) == Some(u.identifier)
    ensures u.RawId? && u.id != 0 ==> LockingUser(u, env) == Some(u.id)
    ensures u.NoUser? || (u.RawId? && u.id == 0) ==>
              LockingUser(u, env) == (if UsesAuthenticatedUser(env.config) then env.authId else None)
    ensures env.config.useAuthenticatedUser.None? && (u.NoUser? || u.RawId?) && !IsSetId(LockingUser(u, env)) ==>
              LockingUser(u, env) == env.authId
  {
  }

  /** The values of a lock record's three fields. */
  datatype LockFields = LockFields(lockedUntil: Option<int>, userId: Option<UserId>, token: Option<string>)

  /** A lock record that has not been given any value yet. */
  const Blank: LockFields := LockFields(None, None, None)

  function RowFields(r: LockRow): LockFields {
    LockFields(Some(r.lockedUntil), r.userId, r.token)
  }

  /** `firstOrNew`: the found record's values, or those of a new record. */
  function FieldsOf(found: Option<LockRow>): LockFields {
    match found
    case None => Blank
    case Some(r) => RowFields(r)
  }

  /** The token after `getToken` (and after the saving hook): a set token is
      kept, otherwise the generated one takes its place. */
  function EnsureToken(token: Option<string>, generated: string): Option<string> {
    if IsSetString(token) then token else Some(generated)
  }

  lemma TokenStable(token: Option<string>, generated: string, later: string)
    requires IsSetString(Some(generated))
    ensures IsSetString(EnsureToken(token, generated))
    ensures IsSetString(token) ==> EnsureToken(token, generated) == token
    ensures !IsSetString(token) ==> EnsureToken(token, generated) == Some(generated)
    ensures EnsureToken(EnsureToken(token, generated), later) == EnsureToken(token, generated)
  {
  }

  /** `verify`: strict comparison with the stored token. */
  predicate Verify(lock: LockFields, token: Option<string>) {
    lock.token == token
  }

  lemma VerifyAcceptsOnlyStoredToken(lock: LockFields, token: Option<string>, other: Option<string>)
    requires Verify(lock, token)
    ensures Verify(lock, other) <==> other == token
    ensures lock.token.Some? ==> !Verify(lock, None)
  {
  }

  /** The saving hook: an expiry that is not dirty is replaced by the
      default one, a falsy holder by the default holder and a falsy token by
      a generated one. */
  function SavingDefaults(lock: LockFields, untilDirty: bool, env: Env, generated: string): LockFields {
    LockFields(
      if untilDirty then lock.lockedUntil else Some(LockTimestamp(NoDuration, env)),
      if IsSetId(lock.userId) then lock.userId else LockingUser(NoUser, env),
      EnsureToken(lock.token, generated))
  }

  lemma SavingFillsOnlyMissing(lock: LockFields, untilDirty: bool, env: Env, generated: string)
    requires IsSetString(Some(generated))
    ensures var saved := SavingDefaults(lock, untilDirty, env, generated);
      && (untilDirty ==> saved.lockedUntil == lock.lockedUntil)
      && (!untilDirty ==> saved.lockedUntil == Some(LockTimestamp(NoDuration, env)))
      && (IsSetId(lock.userId) ==> saved.userId == lock.userId)
      && (!IsSetId(lock.userId) ==> saved.userId == LockingUser(NoUser, env))
      && (IsSetString(lock.token) ==> saved.token == lock.token)
      && IsSetString(saved.token)
      && SavingDefaults(saved, true, env, generated) == saved
      && SavingDefaults(saved, false, env, generated) ==
           saved.(lockedUntil := Some(LockTimestamp(NoDuration, env)))
  {
  }

  /** What `lock` assigns before it saves. */
  function Assigned(lock: LockFields, d: Duration, u: UserArg, env: Env): LockFields {
    lock.(lockedUntil := Some(LockTimestamp(d, env)), userId := LockingUser(u, env))
  }

  /** `lock` followed by its save, treating the expiry `lock` assigns as
      dirty. */
  function LockAndSave(lock: LockFields, d: Duration, u: UserArg, env: Env, generated: string): LockFields {
    SavingDefaults(Assigned(lock, d, u, env), true, env, generated)
  }

  /** `lock(d, u)` sets the resolved expiry and holder; a holder that resolves
      falsy is replaced by the default holder when saving; a set token is kept
      and a missing one is generated. */
  lemma LockEffect(lock: LockFields, d: Duration, u: UserArg, env: Env, generated: string)
    requires IsSetString(Some(generated))
    ensures var locked := LockAndSave(lock, d, u, env, generated);
      && locked.lockedUntil == Some(LockTimestamp(d, env))
      && locked.userId == (if IsSetId(LockingUser(u, env)) then LockingUser(u, env) else LockingUser(NoUser, env))
      && (u.Authenticated? && u.identifier != 0 ==> locked.userId == Some(u.identifier))
      && (u.RawId? && u.id != 0 ==> locked.userId == Some(u.id))
      && locked.token == EnsureToken(lock.token, generated)
      && IsSetString(locked.token)
  {
  }

  /** Eloquent's `isDirty`: an attribute is dirty when its value differs from
      the value last read from or written to the table. */
  predicate IsDirtyAsWritten(current: Option<int>, original: Option<int>) {
    current != original
  }

  /** `lock` followed by its save, on a record whose persisted values are
      `persisted`, with the dirty check exactly as the saving hook makes it. */
  function LockAndSaveAsWritten(persisted: LockFields, d: Duration, u: UserArg, env: Env, generated: string): LockFields {
    var written := Assigned(persisted, d, u, env);
    SavingDefaults(written, IsDirtyAsWritten(written.lockedUntil, persisted.lockedUntil), env, generated)
  }

  /** With the dirty check as written, re-locking a record until the very
      expiry it already has is not seen as a change, and the saving hook
      replaces the requested expiry by the configured default. */
  lemma LockAsWrittenDropsUnchangedExpiry(persisted: LockFields, d: Duration, u: UserArg, env: Env, generated: string)
    requires persisted.lockedUntil == Some(LockTimestamp(d, env))
    ensures LockAndSaveAsWritten(persisted, d, u, env, generated).lockedUntil == Some(LockTimestamp(NoDuration, env))
  {
  }

  /** The concrete case: a lock persisted until 1000 is locked again until
      1000 at time 400 with no configuration; it ends up expiring at 700
      (400 plus five minutes) instead of at 1000. */
  lemma LockAsWrittenCounterexample()
    ensures var env := Env(400, Config(None, None, None), None);
      var persisted := LockFields(Some(1000), Some(7), Some("t"));
      && LockTimestamp(Absolute(1000), env) == 1000
      && LockAndSaveAsWritten(persisted, Absolute(1000), RawId(7), env, "g").lockedUntil == Some(700)
      && LockAndSave(persisted, Absolute(1000), RawId(7), env, "g").lockedUntil == Some(1000)
  {
  }

  /** `user_id` handed back to `lockingUser` as a raw identifier. */
  function HolderArg(userId: Option<UserId>): UserArg {
    match userId
    case None => NoUser
    case Some(id) => RawId(id)
  }

  /** `config('model_locking.request_shorten_duration')` when it is truthy. */
  function ShortenDuration(c: Config): Option<Duration> {
    match c.requestShortenDuration
    case Some(d) => if IsSetDuration(d) then Some(d) else None
    case None => None
  }

  /** Whether an unlock request re-locks the record. */
  predicate Shortens(dispatcher: bool, shorten: bool, c: Config) {
    dispatcher && shorten && ShortenDuration(c).Some?
  }

  /** The record after `requestUnlock`. */
  function AfterUnlockRequest(lock: LockFields, dispatcher: bool, shorten: bool, env: Env, generated: string): LockFields {
    if Shortens(dispatcher, shorten, env.config)
    then LockAndSave(lock, ShortenDuration(env.config).value, HolderArg(lock.userId), env, generated)
    else lock
  }

  /** An unlock request without a dispatcher, or without shortening, changes
      nothing; otherwise the lock now ends the configured duration from now,
      its set holder and token are kept. */
  lemma UnlockRequestEffect(lock: LockFields, dispatcher: bool, shorten: bool, env: Env, generated: string)
    requires IsSetString(Some(generated))
    ensures var after := AfterUnlockRequest(lock, dispatcher, shorten, env, generated);
      && (!Shortens(dispatcher, shorten, env.config) ==> after == lock)
      && (Shortens(dispatcher, shorten, env.config) ==>
            && after.lockedUntil == Some(Parse(env.config.requestShortenDuration.value, env.now))
            && (IsSetId(lock.userId) ==> after.userId == lock.userId)
            && (IsSetString(lock.token) ==> after.token == lock.token))
  {
  }

  // ---------------------------------------------------------------------
  // The lock record
  // ---------------------------------------------------------------------

  class ModelLock {
    /** The locked subject (model_type, model_id), set when the record is made. */
    const subject: SubjectRef
    /** Whether the record has been written to the table; its key then is `id`. */
    var persisted: bool
    var id: nat
    var lockedUntil: Option<int>
    var userId: Option<UserId>
    var token: Option<string>
    /** Whether `locked_until` was assigned since the record was last saved. */
    var untilAssigned: bool

    ghost predicate Valid()
      reads this
    {
      (persisted || untilAssigned) ==> lockedUntil.Some?
    }

    function Fields(): LockFields
      reads this
    {
      LockFields(lockedUntil, userId, token)
    }

    /** The table row this record is written as. */
    function Row(): LockRow
      reads this
      requires lockedUntil.Some?
    {
      LockRow(id, subject, lockedUntil.value, userId, token)
    }

    /** A new record for `subject`, as `firstOrNew` makes it when the
        subject has no active lock. */
    constructor New(subject: SubjectRef)
      ensures Valid() && this.subject == subject
      ensures !persisted && !untilAssigned && Fields() == Blank
    {
      this.subject := subject;
      persisted := false;
      id := 0;
      lockedUntil, userId, token := None, None, None;
      untilAssigned := false;
    }

    /** The record read from `row`. */
    constructor Load(row: LockRow)
      ensures Valid() && subject == row.subject
      ensures persisted && id == row.id && !untilAssigned && Fields() == RowFields(row)
    {
      subject := row.subject;
      persisted := true;
      id := row.id;
      lockedUntil, userId, token := Some(row.lockedUntil), row.userId, row.token;
      untilAssigned := false;
    }

    /** `getToken`: the stored token, generating and storing one first when
        there is none. */
    method GetToken(generated: string) returns (t: string)
      requires IsSetString(Some(generated))
      modifies this`token
      ensures token == EnsureToken(old(token), generated) && token == Some(t)
      ensures IsSetString(old(token)) ==> unchanged(this)
      ensures Verify(Fields(), Some(t))
    {
      if !IsSetString(token) {
        token := Some(generated);
      }
      t := token.value;
    }

    /** `save`: runs the saving hook, then updates the record's row or
        inserts a new row under a fresh key. */
    method Save(env: Env, generated: string, table: LockTable)
      requires Valid() && table.Valid() && IsSetString(Some(generated))
      modifies this, table
      ensures Valid() && table.Valid() && persisted && !untilAssigned
      ensures Fields() == SavingDefaults(old(Fields()), old(untilAssigned), env, generated)
      ensures old(persisted) ==> id == old(id) && table.nextId == old(table.nextId)
      ensures old(persisted) ==> table.rows == Updated(old(table.rows), Row())
      ensures !old(persisted) ==> id == old(table.nextId) && table.nextId == old(table.nextId) + 1
      ensures !old(persisted) ==> table.rows == old(table.rows) + [Row()]
    {
      if !untilAssigned {
        lockedUntil := Some(LockTimestamp(NoDuration, env));
      }
      if !IsSetId(userId) {
        userId := LockingUser(NoUser, env);
      }
      if !IsSetString(token) {
        token := Some(generated);
      }
      Write(table);
      untilAssigned := false;
    }

    /** The write `save` ends with: an update of the record's row under its
        key, or an insert under a fresh key. */
    method Write(table: LockTable)
      requires lockedUntil.Some? && IsSetString(token) && table.Valid()
      modifies this`persisted, this`id, table
      ensures table.Valid() && persisted
      ensures old(persisted) ==> id == old(id) && table.nextId == old(table.nextId)
      ensures old(persisted) ==> table.rows == Updated(old(table.rows), Row())
      ensures !old(persisted) ==> id == old(table.nextId) && table.nextId == old(table.nextId) + 1
      ensures !old(persisted) ==> table.rows == old(table.rows) + [Row()]
    {
      if persisted {
        table.rows := Updated(table.rows, Row());
      } else {
        id := table.nextId;
        table.rows := table.rows + [Row()];
        table.nextId := table.nextId + 1;
        persisted := true;
      }
    }

    /** `lock`: sets the expiry and the holder, then saves. */
    method Lock(d: Duration, u: UserArg, env: Env, generated: string, table: LockTable)
      requires Valid() && table.Valid() && IsSetString(Some(generated))
      modifies this, table
      ensures Valid() && table.Valid() && persisted && !untilAssigned
      ensures Fields() == LockAndSave(old(Fields()), d, u, env, generated)
      ensures old(persisted) ==> id == old(id) && table.nextId == old(table.nextId)
      ensures old(persisted) ==> table.rows == Updated(old(table.rows), Row())
      ensures !old(persisted) ==> id == old(table.nextId) && table.nextId == old(table.nextId) + 1
      ensures !old(persisted) ==> table.rows == old(table.rows) + [Row()]
    {
      lockedUntil := Some(LockTimestamp(d, env));
      userId := LockingUser(u, env);
      untilAssigned := true;
      Save(env, generated, table);
    }

    /** `requestUnlock`: with a dispatcher, announces the request and, when
        asked to and a shorten duration is configured, re-locks for that
        duration on behalf of the current holder. */
    method RequestUnlock(user: UserArg, message: string, shorten: bool, model: Option<SubjectRef>,
                         env: Env, generated: string, table: LockTable, events: EventLog?)
      requires Valid() && table.Valid() && IsSetString(Some(generated))
      modifies this, table, events
      ensures Valid() && table.Valid() && (old(persisted) ==> persisted)
      ensures Fields() == AfterUnlockRequest(old(Fields()), events != null, shorten, env, generated)
      ensures events != null ==> events.events == old(events.events) + [ModelUnlockRequested(model, user, message)]
      ensures !Shortens(events != null, shorten, env.config) ==> unchanged(this, table)
      ensures Shortens(events != null, shorten, env.config) && old(persisted) ==>
                id == old(id) && table.rows == Updated(old(table.rows), Row()) && table.nextId == old(table.nextId)
      ensures Shortens(events != null, shorten, env.config) && !old(persisted) ==>
                id == old(table.nextId) && table.rows == old(table.rows) + [Row()] && table.nextId == old(table.nextId) + 1
    {
      if events != null {
        events.events := events.events + [ModelUnlockRequested(model, user, message)];
        if shorten && ShortenDuration(env.config).Some? {
          Lock(ShortenDuration(env.config).value, HolderArg(userId), env, generated, table);
        }
      }
    }

    /** `delete` with the `deleted` hook: removes the record's row and, when
        its subject still resolves (`model`) and there is a dispatcher,
        announces that the subject is unlocked. A record that was never
        saved is not deleted and announces nothing. */
    method Delete(model: Option<SubjectRef>, table: LockTable, events: EventLog?)
      requires Valid() && table.Valid()
      modifies this`persisted, table, events
      ensures Valid() && table.Valid() && !persisted && id == old(id) && Fields() == old(Fields())
      ensures !old(persisted) ==> unchanged(this, table) && (events != null ==> unchanged(events))
      ensures old(persisted) ==> table.rows == DeleteWhere(old(table.rows), HasId(id)) && table.nextId == old(table.nextId)
      ensures events != null ==>
                events.events == old(events.events) + if old(persisted) && model.Some? then [ModelUnlocked(model.value)] else []
    {
      if persisted {
        table.rows := DeleteWhere(table.rows, HasId(id));
        persisted := false;
        if model.Some? && events != null {
          events.events := events.events + [ModelUnlocked(model.value)];
        }
      }
    }
  }
}
