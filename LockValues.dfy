/** Values shared by the lock record engine, the lockable facade and the
    expiry sweep: subject references, holder identifiers, durations, the
    configuration keys the library reads, the environment (clock, principal
    lookup) and the events it dispatches.

    PHP's truthiness matters to the library's fallbacks, so it is written out
    here for each kind of value. */
module LockValues {

  datatype Option<+T> = None | Some(value: T)

  /** The polymorphic reference a lock row keeps to the locked subject:
      its model type and its key. */
  datatype SubjectRef = SubjectRef(modelType: string, modelId: int)

  /** Identifier of a lock holder (the `user_id` column). */
  type UserId = int

  /** PHP truthiness of a nullable identifier: null and 0 are falsy. */
  predicate IsSetId(u: Option<UserId>) {
    u.Some? && u.value != 0
  }

  /** PHP truthiness of a nullable string: null, "" and "0" are falsy. */
  predicate IsSetString(s: Option<string>) {
    s.Some? && s.value != "" && s.value != "0"
  }

  /** A duration argument: unset (null, "", false), a relative description
      such as "5 minutes" (in seconds from now, possibly negative), or an
      absolute point in time. */
  datatype Duration = NoDuration | Relative(seconds: int) | Absolute(at: int)

  /** PHP truthiness of a duration argument. */
  predicate IsSetDuration(d: Duration) {
    !d.NoDuration?
  }

  /** The hard-coded fallback duration, "5 minutes". */
  const FiveMinutes: Duration := Relative(300)

  /** The point in time a duration argument denotes when parsed at `now`;
      like Carbon::parse, an unset value denotes `now` itself. */
  function Parse(d: Duration, now: int): int {
    match d
    case NoDuration => now
    case Relative(s) => now + s
    case Absolute(t) => t
  }

  /** The `$user` argument of `lock`: absent, an Authenticatable (given by
      its auth identifier) or a raw identifier. */
  datatype UserArg = NoUser | Authenticated(identifier: UserId) | RawId(id: UserId)

  /** The configuration keys the core reads. `None` means the key is not
      configured, so the caller's default applies; a configured value is
      returned as it is, falsy or not.
        duration                 -- model_locking.duration
        useAuthenticatedUser     -- model_locking.use_authenticated_user
        requestShortenDuration   -- model_locking.request_shorten_duration */
  datatype Config = Config(
    duration: Option<Duration>,
    useAuthenticatedUser: Option<bool>,
    requestShortenDuration: Option<Duration>)

  /** What the core reads from its surroundings at the time of a call:
      the clock, the configuration and the id of the authenticated user. */
  datatype Env = Env(now: int, config: Config, authId: Option<UserId>)

  /** The lifecycle events. `ModelUnlockRequested` carries the subject as the
      lock's `model` relation resolves it, the requesting user and the message. */
  datatype Event =
    | ModelLocked(subject: SubjectRef)
    | ModelUnlocked(subject: SubjectRef)
    | ModelUnlockRequested(about: Option<SubjectRef>, user: UserArg, message: string)

  /** The event dispatcher, modelled by the log of what it was handed.
      Where the dispatcher is optional, a null `EventLog?` stands for none. */
  class EventLog {
    var events: seq<Event>

    constructor ()
      ensures events == []
    {
      events := [];
    }
  }
}
