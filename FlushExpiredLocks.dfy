/** The expiry sweep (`locks:flush`): collect the subjects of the expired
    locks, delete the expired locks, then announce each collected subject as
    unlocked. The source reads the clock once for each of its two queries;
    `collectedAt` and `deletedAt` are those two readings. */
module FlushExpiredLocks {
  import opened LockValues
  import opened ModelLocks

  predicate Distinct<T(==)>(s: seq<T>) {
    forall i, j :: 0 <= i < j < |s| ==> s[i] != s[j]
  }

  /** `pluck('model')`: each record's subject as its `model` relation
      resolves it; a subject that is no longer in `existing` resolves to null. */
  function Pluck(rows: seq<LockRow>, existing: set<SubjectRef>): (models: seq<Option<SubjectRef>>)
    ensures |models| == |rows|
    ensures forall s :: Some(s) in models <==> s in existing && exists r :: r in rows && r.subject == s
  {
    if rows == [] then []
    else [if rows[0].subject in existing then Some(rows[0].subject) else None] + Pluck(rows[1..], existing)
  }

  /** `unique()`: each of the input's values, once. */
  function Unique<T(==,!new)>(s: seq<T>): (u: seq<T>)
    ensures Distinct(u)
    ensures forall x :: x in u <==> x in s
  {
    if s == [] then []
    else
      var u := Unique(s[..|s| - 1]);
      assert forall x :: x in s <==> x in s[..|s| - 1] || x == s[|s| - 1] by {
        assert s == s[..|s| - 1] + [s[|s| - 1]];
      }
      if s[|s| - 1] in u then u else u + [s[|s| - 1]]
  }

  /** `filter()`: the values that are not null. */
  function Filter(s: seq<Option<SubjectRef>>): (f: seq<SubjectRef>)
    ensures forall x :: x in f <==> Some(x) in s
    ensures Distinct(s) ==> Distinct(f)
  {
    if s == [] then []
    else
      var rest := Filter(s[1..]);
      assert Distinct(s) ==> Distinct(s[1..]) by {
        if Distinct(s) {
          forall i, j | 0 <= i < j < |s[1..]| ensures s[1..][i] != s[1..][j] {
            assert s[1..][i] == s[i + 1] && s[1..][j] == s[j + 1];
          }
        }
      }
      (if s[0].Some? then [s[0].value] else []) + rest
  }

  /** The subjects the sweep announces: the distinct, resolvable subjects of
      the records expired at `now`. */
  function ExpiredSubjects(rows: seq<LockRow>, now: int, existing: set<SubjectRef>): seq<SubjectRef> {
    Filter(Unique(Pluck(Where(rows, ScopeExpired(now)), existing)))
  }

  /** One `ModelUnlocked` event per subject, in order. */
  function UnlockedEvents(subjects: seq<SubjectRef>): (es: seq<Event>)
    ensures |es| == |subjects|
    ensures forall i :: 0 <= i < |subjects| ==> es[i] == ModelUnlocked(subjects[i])
  {
    if subjects == [] then []
    else UnlockedEvents(subjects[..|subjects| - 1]) + [ModelUnlocked(subjects[|subjects| - 1])]
  }

  /** The loop of `handle`: fires one `ModelUnlocked` per subject, in order. */
  method Announce(events: EventLog, subjects: seq<SubjectRef>)
    modifies events
    ensures events.events == old(events.events) + UnlockedEvents(subjects)
  {
    var i := 0;
    while i < |subjects|
      invariant 0 <= i <= |subjects|
      invariant events.events == old(events.events) + UnlockedEvents(subjects[..i])
    {
      assert subjects[..i + 1][..i] == subjects[..i];
      events.events := events.events + [ModelUnlocked(subjects[i])];
      i := i + 1;
    }
    assert subjects[..i] == subjects;
  }

  /** `handle`: collects the subjects, deletes every expired record, then
      announces each collected subject. */
  method Handle(table: LockTable, events: EventLog, existing: set<SubjectRef>, collectedAt: int, deletedAt: int)
    requires table.Valid()
    modifies table, events
    ensures table.Valid() && table.nextId == old(table.nextId)
    ensures table.rows == DeleteWhere(old(table.rows), ScopeExpired(deletedAt))
    ensures events.events == old(events.events) + UnlockedEvents(ExpiredSubjects(old(table.rows), collectedAt, existing))
  {
    var unlocked := ExpiredSubjects(table.rows, collectedAt, existing);
    table.rows := DeleteWhere(table.rows, ScopeExpired(deletedAt));
    Announce(events, unlocked);
  }

  /** The collected subjects are distinct, and they are exactly the
      subjects that still resolve and have a record expired at `now`. */
  lemma CollectedSubjects(rows: seq<LockRow>, now: int, existing: set<SubjectRef>)
    ensures Distinct(ExpiredSubjects(rows, now, existing))
    ensures forall s :: s in ExpiredSubjects(rows, now, existing) <==>
              s in existing && exists r :: r in rows && r.subject == s && r.lockedUntil <= now
  {
  }

  /** The sweep announces every collected subject exactly once, each in a
      `ModelUnlocked` event, and nothing else. */
  lemma OneEventPerSubject(subjects: seq<SubjectRef>)
    requires Distinct(subjects)
    ensures Distinct(UnlockedEvents(subjects))
    ensures forall e :: e in UnlockedEvents(subjects) <==> e.ModelUnlocked? && e.subject in subjects
  {
  }

  /** What the sweep leaves and what it announces:
      no record expired at `deletedAt` remains; the records still active
      then are kept unchanged and in order; each announced subject still
      resolves and had a record that the sweep deleted; each subject that
      still resolves and had a record expired when the subjects were
      collected is announced exactly once; a subject that no longer
      resolves is never announced. */
  lemma {:induction false} SweepOutcome(rows: seq<LockRow>, existing: set<SubjectRef>, collectedAt: int, deletedAt: int)
    requires collectedAt <= deletedAt
    ensures var kept := DeleteWhere(rows, ScopeExpired(deletedAt));
      var es := UnlockedEvents(ExpiredSubjects(rows, collectedAt, existing));
      && (forall r :: r in kept ==> deletedAt < r.lockedUntil)
      && kept == Where(rows, ScopeActive(deletedAt, true))
      && (forall r :: r in rows && deletedAt < r.lockedUntil ==> r in kept)
      && Distinct(es)
      && (forall s :: ModelUnlocked(s) in es ==>
            s in existing && exists r :: r in rows && r.subject == s && r !in kept)
      && (forall s :: s in existing && (exists r :: r in rows && r.subject == s && r.lockedUntil <= collectedAt) ==>
            ModelUnlocked(s) in es)
      && (forall s :: s !in existing ==> ModelUnlocked(s) !in es)
  {
    DeleteExpiredKeepsActive(rows, deletedAt);
  }
}
