// The per-player state of the revival feature: the dictionaries keyed by
// profile id, and the engine's walk-speed limit they save and restore.

module PlayerState {

  datatype Option<T> = None | Some(value: T)

  /** Fraction of the saved walk-speed limit a restricted player keeps. */
  const CriticalSpeedFactor: real := 0.02

  /** One value of all per-player maps, each keyed by profile id.
      `walkSpeedLimit` is the engine's limit of every player that has a
      physical body; a player missing from it has none, and every access
      to its limit fails. */
  datatype State = State(
    lastRevivalTimes: map<string, int>,          // Unix seconds of the last manual revival
    inCritical: map<string, bool>,
    invulnerable: map<string, bool>,
    invulnerabilityTimers: map<string, real>,    // seconds of invulnerability left
    originalSpeed: map<string, real>,            // walk-speed limit saved before restriction
    walkSpeedLimit: map<string, real>)

  /** The state when the feature is loaded: every dictionary empty. */
  function Initial(walkSpeedLimit: map<string, real>): (s: State)
    ensures forall id :: !InCritical(s, id) && !Invulnerable(s, id)
    ensures s.invulnerabilityTimers == map[] && s.lastRevivalTimes == map[] && s.originalSpeed == map[]
    ensures s.walkSpeedLimit == walkSpeedLimit
  {
    State(map[], map[], map[], map[], map[], walkSpeedLimit)
  }

  /** The critical-state lookup: an unknown id is not critical. */
  predicate InCritical(s: State, id: string)
  {
    id in s.inCritical && s.inCritical[id]
  }

  /** The invulnerability lookup: an unknown id is not invulnerable. */
  predicate Invulnerable(s: State, id: string)
  {
    id in s.invulnerable && s.invulnerable[id]
  }

  /** Movement restriction is in force: a walk speed is saved and the
      player's limit is that saved value scaled down. */
  predicate Restricted(s: State, id: string)
  {
    && id in s.originalSpeed
    && id in s.walkSpeedLimit
    && s.walkSpeedLimit[id] == s.originalSpeed[id] * CriticalSpeedFactor
  }

  /** Two maps agree on one key: both lack it, or both hold the same value. */
  predicate Agree<V(==)>(m: map<string, V>, n: map<string, V>, id: string)
  {
    (id in m <==> id in n) && (id in m ==> m[id] == n[id])
  }

  /** Every map of `s` and `t` agrees on `id`. */
  predicate SameFor(s: State, t: State, id: string)
  {
    && Agree(s.lastRevivalTimes, t.lastRevivalTimes, id)
    && Agree(s.inCritical, t.inCritical, id)
    && Agree(s.invulnerable, t.invulnerable, id)
    && Agree(s.invulnerabilityTimers, t.invulnerabilityTimers, id)
    && Agree(s.originalSpeed, t.originalSpeed, id)
    && Agree(s.walkSpeedLimit, t.walkSpeedLimit, id)
  }

  /** A step from `s` to `t` concerns `id` alone: no other player changes,
      and no player gains or loses a physical body. */
  ghost predicate OnlyTouches(s: State, t: State, id: string)
  {
    && t.walkSpeedLimit.Keys == s.walkSpeedLimit.Keys
    && forall other :: other != id ==> SameFor(s, t, other)
  }

  /** Two steps that each concern only `id` together concern only `id`. */
  lemma OnlyTouchesTrans(s: State, t: State, u: State, id: string)
    requires OnlyTouches(s, t, id) && OnlyTouches(t, u, id)
    ensures OnlyTouches(s, u, id)
  {
    forall other | other != id
      ensures SameFor(s, u, other)
    {
      assert SameFor(s, t, other) && SameFor(t, u, other);
    }
  }
}
