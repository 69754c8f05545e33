/** The lockable facade: the per-subject view of a lock. The predicates are
    derived from the subject's loaded lock relation (`modelLock`) and the
    clock, with a missing lock always reading as "not locked"; `Lockable`
    holds that relation and locks, unlocks and forwards unlock requests. */
module Locking {
  import opened LockValues
  import opened ModelLocks

  // ---------------------------------------------------------------------
  // Derived predicates over the loaded lock relation
  // ---------------------------------------------------------------------

  /** `isLocked`: there is a lock and its expiry lies in the future. */
  predicate IsLocked(lock: Option<LockFields>, now: int) {
    lock.Some? && lock.value.lockedUntil.Some? && now < lock.value.lockedUntil.value
  }

  /** `isAccessible`: an unlocked subject admits any token, a locked one only
      a token its lock verifies. */
  predicate IsAccessible(lock: Option<LockFields>, token: Option<string>, now: int) {
    if IsLocked(lock, now) then Verify(lock.value, token) else true
  }

  /** `lockedUntil`: the expiry while locked, null otherwise. */
  function LockedUntil(lock: Option<LockFields>, now: int): Option<int> {
    if IsLocked(lock, now) then lock.value.lockedUntil else None
  }

  /** `lockedBy`: the holder while locked, null otherwise. */
  function LockedBy(lock: Option<LockFields>, now: int): Option<UserId> {
    if IsLocked(lock, now) then lock.value.userId else None
  }

  /** A subject without a lock is not locked, has no expiry and no holder,
      and admits every token. */
  lemma NoLockIsUnlocked(now: int, token: Option<string>)
    ensures !IsLocked(None, now)
    ensures LockedUntil(None, now).None? && LockedBy(None, now).None?
    ensures IsAccessible(None, token, now)
  {
  }

  /** A lock is in force exactly while its expiry is in the future, so one
      whose expiry is set into the past stops counting at once. */
  lemma LockedIffExpiryAhead(lock: LockFields, now: int)
    ensures IsLocked(Some(lock), now) <==> lock.lockedUntil.Some? && now < lock.lockedUntil.value
    ensures lock.lockedUntil.Some? && lock.lockedUntil.value <= now ==>
              !IsLocked(Some(lock), now) && forall t :: IsAccessible(Some(lock), t, now)
  {
  }

  /** Access is granted iff the subject is unlocked or the token is the
      lock's own token; while locked every other token is refused, the
      absent one included when the lock has a token. */
  lemma AccessIffTokenMatches(lock: Option<LockFields>, token: Option<string>, now: int)
    ensures IsAccessible(lock, token, now) <==> !IsLocked(lock, now) || lock.value.token == token
    ensures IsLocked(lock, now) && lock.value.token.Some? ==> !IsAccessible(lock, None, now)
    ensures IsLocked(lock, now) ==> IsAccessible(lock, lock.value.token, now)
  {
  }

  /** The getters give the record's values exactly while the subject is locked. */
  lemma GettersFollowLock(lock: Option<LockFields>, now: int)
    ensures LockedUntil(lock, now).Some? <==> IsLocked(lock, now)
    ensures IsLocked(lock, now) ==> LockedUntil(lock, now) == lock.value.lockedUntil
    ensures IsLocked(lock, now) ==> LockedBy(lock, now) == lock.value.userId
    ensures !IsLocked(lock, now) ==> LockedBy(lock, now).None?
  {
  }

  // ---------------------------------------------------------------------
  // The arguments of `lock`
  // ---------------------------------------------------------------------

  /** The first argument of `lock`: a duration, or an Authenticatable given
      in its place. */
  datatype LockArg = Given(duration: Duration) | ByUser(identifier: UserId)

  /** The duration `lock` hands to the record: the argument, or the
      subject's `lock_duration` when the argument is falsy or an
      Authenticatable stood in its place. */
  function RequestedDuration(first: LockArg, lockDuration: Duration): Duration {
    var d := if first.Given? then first.duration else NoDuration;
    if IsSetDuration(d) then d else lockDuration
  }

  /** The holder argument `lock` hands to the record: an Authenticatable in
      the first place replaces the second argument. */
  function RequestedUser(first: LockArg, user: UserArg): UserArg {
    if first.ByUser? then Authenticated(first.identifier) else user
  }

  /** The full precedence of the lock expiry: the argument, then the
      subject's `lock_duration`, then the configured duration, then five
      minutes; a set duration is used literally, a past one included. */
  lemma DurationPrecedence(first: LockArg, lockDuration: Duration, env: Env)
    ensures var until := LockTimestamp(RequestedDuration(first, lockDuration), env);
      && (first.Given? && IsSetDuration(first.duration) ==> until == Parse(first.duration, env.now))
      && (first.Given? && first.duration.Relative? ==> until == env.now + first.duration.seconds)
      && ((first.ByUser? || !IsSetDuration(first.duration)) && IsSetDuration(lockDuration) ==>
            until == Parse(lockDuration, env.now))
      && ((first.ByUser? || !IsSetDuration(first.duration)) && !IsSetDuration(lockDuration) && env.config.duration.Some? ==>
            until == Parse(env.config.duration.value, env.now))
      && ((first.ByUser? || !IsSetDuration(first.duration)) && !IsSetDuration(lockDuration) && env.config.duration.None? ==>
            until == env.now + 300)
  {
  }

  /** An Authenticatable passed first becomes the holder and leaves the
      duration unset; otherwise the arguments keep their places. */
  lemma ArgumentsNormalised(first: LockArg, user: UserArg, lockDuration: Duration)
    ensures first.ByUser? ==> RequestedUser(first, user) == Authenticated(first.identifier)
    ensures first.ByUser? ==> RequestedDuration(first, lockDuration) == lockDuration
    ensures first.Given? ==> RequestedUser(first, user) == user
    ensures first.Given? && IsSetDuration(first.duration) ==> RequestedDuration(first, lockDuration) == first.duration
  {
  }

  /** After `lock`, the subject is locked iff the resolved expiry lies ahead;
      while it is, the lock admits its own token, refuses every other and is
      held by the resolved holder. */
  lemma LockedAfterLock(lock: LockFields, first: LockArg, user: UserArg, lockDuration: Duration,
                        env: Env, generated: string)
    requires IsSetString(Some(generated))
    ensures var locked := LockAndSave(lock, RequestedDuration(first, lockDuration), RequestedUser(first, user), env, generated);
      && (IsLocked(Some(locked), env.now) <==> env.now < LockTimestamp(RequestedDuration(first, lockDuration), env))
      && IsSetString(locked.token)
      && IsAccessible(Some(locked), locked.token, env.now)
      && (forall t :: t != locked.token && IsLocked(Some(locked), env.now) ==> !IsAccessible(Some(locked), t, env.now))
      && (first.ByUser? && first.identifier != 0 && IsLocked(Some(locked), env.now) ==>
            LockedBy(Some(locked), env.now) == Some(first.identifier))
  {
  }

  // ---------------------------------------------------------------------
  // The lockable subject
  // ---------------------------------------------------------------------

  class Lockable {
    /** This subject, as lock rows refer to it. */
    const ref: SubjectRef
    /** The subject's `lock_duration` property; unset when it has none. */
    const lockDuration: Duration
    /** The loaded `modelLock` relation; null when there is none. */
    var modelLock: ModelLock?

    ghost predicate Valid()
      reads this, modelLock
    {
      modelLock != null ==>
        modelLock.Valid() && modelLock.persisted && modelLock.subject == ref && IsSetString(modelLock.token)
    }

    /** The values of the loaded lock, if any. */
    function View(): Option<LockFields>
      reads this, modelLock
    {
      if modelLock == null then None else Some(modelLock.Fields())
    }

    constructor (ref: SubjectRef, lockDuration: Duration)
      ensures Valid() && this.ref == ref && this.lockDuration == lockDuration && modelLock == null
    {
      this.ref := ref;
      this.lockDuration := lockDuration;
      modelLock := null;
    }

    /** Loads the `modelLock` relation: the subject's active lock, if any. */
    method LoadModelLock(now: int, table: LockTable)
      requires table.Valid()
      modifies this
      ensures Valid()
      ensures ActiveLockOf(table.rows, ref, now).None? ==> modelLock == null
      ensures ActiveLockOf(table.rows, ref, now).Some? ==>
                modelLock != null && fresh(modelLock) && modelLock.id == ActiveLockOf(table.rows, ref, now).value.id
                && View() == Some(RowFields(ActiveLockOf(table.rows, ref, now).value))
    {
      var found := ActiveLockOf(table.rows, ref, now);
      if found.Some? {
        modelLock := new ModelLock.Load(found.value);
      } else {
        modelLock := null;
      }
    }

    /** A loaded lock was saved, so its token is truthy: while the subject
        is locked, a request without a token is refused. */
    lemma LockedRefusesAbsentToken(now: int)
      requires Valid()
      ensures IsLocked(View(), now) ==> !IsAccessible(View(), None, now)
    {
    }

    /** `firstOrNew` on the active lock relation: the subject's active
        record as read from the table, or a new unsaved record of the
        subject when it has none. */
    method FirstOrNew(now: int, table: LockTable) returns (lock: ModelLock)
      ensures fresh(lock) && lock.Valid() && lock.subject == ref && !lock.untilAssigned
      ensures lock.persisted <==> ActiveLockOf(table.rows, ref, now).Some?
      ensures lock.persisted ==> lock.id == ActiveLockOf(table.rows, ref, now).value.id
      ensures lock.Fields() == FieldsOf(ActiveLockOf(table.rows, ref, now))
    {
      var found := ActiveLockOf(table.rows, ref, now);
      if found.Some? {
        lock := new ModelLock.Load(found.value);
      } else {
        lock := new ModelLock.New(ref);
      }
    }

    /** `firstOrNew([])->lock($duration, $user)`: locks the subject's active
        record, or a new one, and writes it to the table. */
    method LockActiveOrNew(d: Duration, u: UserArg, env: Env, generated: string, table: LockTable)
      returns (lock: ModelLock)
      requires table.Valid() && IsSetString(Some(generated))
      modifies table
      ensures fresh(lock) && lock.Valid() && lock.persisted && lock.subject == ref && IsSetString(lock.token)
      ensures table.Valid()
      ensures lock.Fields() == LockAndSave(FieldsOf(old(ActiveLockOf(table.rows, ref, env.now))), d, u, env, generated)
      ensures old(ActiveLockOf(table.rows, ref, env.now)).Some? ==>
                lock.id == old(ActiveLockOf(table.rows, ref, env.now)).value.id
                && table.rows == Updated(old(table.rows), lock.Row()) && table.nextId == old(table.nextId)
      ensures old(ActiveLockOf(table.rows, ref, env.now)).None? ==>
                lock.id == old(table.nextId)
                && table.rows == old(table.rows) + [lock.Row()] && table.nextId == old(table.nextId) + 1
      ensures SingleActiveLock(old(table.rows), env.now) ==> SingleActiveLock(table.rows, env.now)
    {
      ghost var rows := table.rows;
      ghost var found := ActiveLockOf(rows, ref, env.now);
      lock := FirstOrNew(env.now, table);
      lock.Lock(d, u, env, generated, table);
      SaveKeepsSingleActive(rows, env.now, found, lock.Row(), table.rows);
    }

    /** `lock`: locks the subject's active record, or a new one, and returns
        the lock's token. */
    method Lock(first: LockArg, user: UserArg, env: Env, generated: string, table: LockTable, events: EventLog?)
      returns (token: string)
      requires Valid() && table.Valid() && IsSetString(Some(generated))
      modifies this, table, events
      ensures Valid() && table.Valid()
      ensures modelLock != null && fresh(modelLock)
      ensures View() == Some(LockAndSave(FieldsOf(old(ActiveLockOf(table.rows, ref, env.now))),
                                         RequestedDuration(first, lockDuration), RequestedUser(first, user),
                                         env, generated))
      ensures modelLock.token == Some(token) && IsSetString(Some(token))
      ensures old(ActiveLockOf(table.rows, ref, env.now)).Some? ==>
                modelLock.id == old(ActiveLockOf(table.rows, ref, env.now)).value.id
                && table.rows == Updated(old(table.rows), modelLock.Row()) && table.nextId == old(table.nextId)
      ensures old(ActiveLockOf(table.rows, ref, env.now)).None? ==>
                modelLock.id == old(table.nextId)
                && table.rows == old(table.rows) + [modelLock.Row()] && table.nextId == old(table.nextId) + 1
      ensures events != null ==> events.events == old(events.events) + [ModelLocked(ref)]
      ensures SingleActiveLock(old(table.rows), env.now) ==> SingleActiveLock(table.rows, env.now)
    {
      ghost var found := ActiveLockOf(table.rows, ref, env.now);
      var lock := LockActiveOrNew(RequestedDuration(first, lockDuration), RequestedUser(first, user), env, generated, table);
      ghost var row := lock.Row();
      modelLock := lock;
      if events != null {
        events.events := events.events + [ModelLocked(ref)];
      }
      token := lock.GetToken(generated);
      assert lock.Row() == row && found == old(ActiveLockOf(table.rows, ref, env.now));
    }

    /** `unlock`: deletes the subject's active locks and drops the loaded
        relation; a dispatcher is told the subject is unlocked. */
    method Unlock(now: int, table: LockTable, events: EventLog?)
      requires table.Valid()
      modifies this, table, events
      ensures Valid() && table.Valid() && modelLock == null
      ensures table.rows == DeleteWhere(old(table.rows), ActiveFor(ref, now)) && table.nextId == old(table.nextId)
      ensures ActiveLockOf(table.rows, ref, now).None?
      ensures events != null ==> events.events == old(events.events) + [ModelUnlocked(ref)]
    {
      table.rows := DeleteWhere(table.rows, ActiveFor(ref, now));
      modelLock := null;
      if events != null {
        events.events := events.events + [ModelUnlocked(ref)];
      }
    }

    /** `requestUnlock`: on a locked subject, forwards the request to the
        lock, with shortening, and returns the expiry as it then stands;
        on an unlocked subject, does nothing and returns null. */
    method RequestUnlock(user: UserArg, message: string, env: Env, generated: string, table: LockTable, events: EventLog?)
      returns (until: Option<int>)
      requires Valid() && table.Valid() && IsSetString(Some(generated))
      modifies modelLock, table, events
      ensures Valid() && table.Valid()
      ensures !old(IsLocked(View(), env.now)) ==>
                until.None? && View() == old(View()) && unchanged(table) && (events != null ==> unchanged(events))
      ensures old(IsLocked(View(), env.now)) ==>
                && View() == Some(AfterUnlockRequest(old(View()).value, events != null, true, env, generated))
                && until == LockedUntil(View(), env.now)
                && (events != null ==> events.events == old(events.events) + [ModelUnlockRequested(Some(ref), user, message)])
      ensures old(IsLocked(View(), env.now)) && Shortens(events != null, true, env.config) ==>
                table.rows == Updated(old(table.rows), modelLock.Row()) && table.nextId == old(table.nextId)
      ensures !Shortens(events != null, true, env.config) ==> unchanged(table)
      ensures modelLock != null ==> modelLock.id == old(modelLock.id)
      ensures !old(IsLocked(View(), env.now)) && modelLock != null ==> unchanged(modelLock)
      ensures SingleActiveLock(old(table.rows), env.now) && old(modelLock != null && modelLock.Row() in table.rows) ==>
                SingleActiveLock(table.rows, env.now)
    {
      if IsLocked(View(), env.now) {
        ghost var rows, current := table.rows, modelLock.Row();
        modelLock.RequestUnlock(user, message, true, Some(ref), env, generated, table, events);
        if Shortens(events != null, true, env.config) && SingleActiveLock(rows, env.now) && current in rows {
          UpdateKeepsSingleActive(rows, env.now, current, modelLock.Row());
        }
        until := LockedUntil(View(), env.now);
      } else {
        until := None;
      }
    }
  }
}
