// The transitions of the revival state machine as functions on State,
// one per static method of RevivalFeatures. The class in features.dfy is
// proved to perform exactly these.

module Transitions {
  import opened PlayerState
  import opened Settings

  // ---------------------------------------------------------------------
  // Movement restriction

  /** Saves the walk-speed limit unless one is saved already, then sets the
      limit to the saved value scaled down. A player without a physical
      body makes the first access fail, and nothing changes. */
  function ApplyCriticalEffects(s: State, id: string): (t: State)
    ensures OnlyTouches(s, t, id)
    ensures t == s.(originalSpeed := t.originalSpeed, walkSpeedLimit := t.walkSpeedLimit)
    ensures id !in s.walkSpeedLimit ==> t == s
    ensures id in s.walkSpeedLimit ==>
      && Restricted(t, id)
      && t.originalSpeed[id] == (if id in s.originalSpeed then s.originalSpeed[id] else s.walkSpeedLimit[id])
  {
    if id !in s.walkSpeedLimit then s
    else
      var saved := if id in s.originalSpeed then s.originalSpeed else s.originalSpeed[id := s.walkSpeedLimit[id]];
      s.(originalSpeed := saved, walkSpeedLimit := s.walkSpeedLimit[id := saved[id] * CriticalSpeedFactor])
  }

  /** Puts the saved walk-speed limit back and forgets it. With nothing
      saved, or without a physical body, nothing changes. */
  function RestorePlayerMovement(s: State, id: string): (t: State)
    ensures OnlyTouches(s, t, id)
    ensures t == s.(originalSpeed := t.originalSpeed, walkSpeedLimit := t.walkSpeedLimit)
    ensures id in s.originalSpeed && id in s.walkSpeedLimit ==>
      id !in t.originalSpeed && t.walkSpeedLimit[id] == s.originalSpeed[id]
    ensures !(id in s.originalSpeed && id in s.walkSpeedLimit) ==> t == s
  {
    if id in s.originalSpeed && id in s.walkSpeedLimit then
      s.(walkSpeedLimit := s.walkSpeedLimit[id := s.originalSpeed[id]], originalSpeed := s.originalSpeed - {id})
    else s
  }

  // ---------------------------------------------------------------------
  // Critical state and invulnerability

  /** Enters (critical = true) or leaves the critical state. Entering also
      makes the player invulnerable and restricts movement. Leaving without
      a running timer drops invulnerability and restores movement; with a
      timer running, only the critical flag changes. */
  function SetCriticalState(s: State, id: string, critical: bool): (t: State)
    ensures OnlyTouches(s, t, id)
    ensures t.lastRevivalTimes == s.lastRevivalTimes && t.invulnerabilityTimers == s.invulnerabilityTimers
    ensures id in t.inCritical && t.inCritical[id] == critical
    ensures critical ==> Invulnerable(t, id)
    ensures critical ==>
      if id in s.walkSpeedLimit then Restricted(t, id) else Agree(s.originalSpeed, t.originalSpeed, id)
    ensures !critical && id !in s.invulnerabilityTimers ==>
      && id !in t.invulnerable
      && (id in s.walkSpeedLimit ==> id !in t.originalSpeed)
      && (id in s.originalSpeed && id in s.walkSpeedLimit ==> t.walkSpeedLimit[id] == s.originalSpeed[id])
    ensures !critical && id in s.invulnerabilityTimers ==>
      t == s.(inCritical := s.inCritical[id := false])
  {
    var flagged := s.(inCritical := s.inCritical[id := critical]);
    if critical then
      ApplyCriticalEffects(flagged.(invulnerable := flagged.invulnerable[id := true]), id)
    else if id !in s.invulnerabilityTimers then
      RestorePlayerMovement(flagged.(invulnerable := flagged.invulnerable - {id}), id)
    else
      flagged
  }

  /** Starts the timed invulnerability that follows a revival: the player
      is invulnerable for `duration` seconds with movement restricted. */
  function StartInvulnerability(s: State, id: string, duration: real): (t: State)
    ensures OnlyTouches(s, t, id)
    ensures t.lastRevivalTimes == s.lastRevivalTimes && t.inCritical == s.inCritical
    ensures Invulnerable(t, id) && id in t.invulnerabilityTimers && t.invulnerabilityTimers[id] == duration
    ensures if id in s.walkSpeedLimit then Restricted(t, id) else Agree(s.originalSpeed, t.originalSpeed, id)
    ensures id in s.walkSpeedLimit && id in s.originalSpeed ==> t.originalSpeed[id] == s.originalSpeed[id]
  {
    var timed := s.(invulnerable := s.invulnerable[id := true],
                    invulnerabilityTimers := s.invulnerabilityTimers[id := duration]);
    ApplyCriticalEffects(timed, id)
  }

  /** Ends the timed invulnerability: the flag is cleared, the timer
      dropped and movement restored. */
  function EndInvulnerability(s: State, id: string): (t: State)
    ensures OnlyTouches(s, t, id)
    ensures t.lastRevivalTimes == s.lastRevivalTimes && t.inCritical == s.inCritical
    ensures id in t.invulnerable && !t.invulnerable[id] && id !in t.invulnerabilityTimers
    ensures id in s.walkSpeedLimit ==> id !in t.originalSpeed
    ensures id in s.walkSpeedLimit && id in s.originalSpeed ==> t.walkSpeedLimit[id] == s.originalSpeed[id]
    ensures id !in s.walkSpeedLimit ==> Agree(s.originalSpeed, t.originalSpeed, id)
  {
    var ended := s.(invulnerable := s.invulnerable[id := false],
                    invulnerabilityTimers := s.invulnerabilityTimers - {id});
    RestorePlayerMovement(ended, id)
  }

  /** One frame of the invulnerability timer: an invulnerable player with a
      timer loses `delta` seconds of it, and invulnerability ends once the
      timer is at or below zero. Anyone else is left alone. */
  function Tick(s: State, id: string, delta: real): (t: State)
    ensures OnlyTouches(s, t, id)
    ensures t.inCritical == s.inCritical && t.lastRevivalTimes == s.lastRevivalTimes
    ensures !(Invulnerable(s, id) && id in s.invulnerabilityTimers) ==> t == s
    ensures Invulnerable(s, id) && id in s.invulnerabilityTimers && s.invulnerabilityTimers[id] - delta > 0.0 ==>
      t == s.(invulnerabilityTimers := s.invulnerabilityTimers[id := s.invulnerabilityTimers[id] - delta])
    ensures Invulnerable(s, id) && id in s.invulnerabilityTimers && s.invulnerabilityTimers[id] - delta <= 0.0 ==>
      t == EndInvulnerability(s, id)
  {
    if Invulnerable(s, id) && id in s.invulnerabilityTimers then
      var left := s.invulnerabilityTimers[id] - delta;
      var counted := s.(invulnerabilityTimers := s.invulnerabilityTimers[id := left]);
      if left <= 0.0 then
        assert counted.invulnerabilityTimers - {id} == s.invulnerabilityTimers - {id};
        EndInvulnerability(counted, id)
      else counted
    else s
  }

  // ---------------------------------------------------------------------
  // Manual revival

  /** The C# cast from a floating-point value to int: truncation toward zero. */
  function TruncateToInt(x: real): (n: int)
    ensures 0.0 <= x ==> 0 <= n && n as real <= x < n as real + 1.0
    ensures x < 0.0 ==> n <= 0 && n as real - 1.0 < x <= n as real
  {
    if 0.0 <= x then x.Floor else -((-x).Floor)
  }

  /** A revival happened less than `cooldown` seconds before `now`. */
  predicate OnCooldown(s: State, id: string, now: int, cooldown: real): (b: bool)
    ensures b ==> id in s.lastRevivalTimes
  {
    id in s.lastRevivalTimes && ((now - s.lastRevivalTimes[id]) as real) < cooldown
  }

  /** The whole seconds of cooldown reported to the player. */
  function RemainingCooldown(s: State, id: string, now: int, cooldown: real): (n: int)
    requires OnCooldown(s, id, now, cooldown)
    ensures 0 <= n
    ensures n as real <= cooldown - (now - s.lastRevivalTimes[id]) as real < n as real + 1.0
  {
    TruncateToInt(cooldown - (now - s.lastRevivalTimes[id]) as real)
  }

  /** What a revival attempt reports: whether it succeeded, whether the
      item is to be consumed, and the remaining cooldown when the cooldown
      notice is shown. */
  datatype Attempt = Attempt(revived: bool, consumed: bool, cooldownNotice: Option<int>)

  datatype Outcome = Outcome(state: State, attempt: Attempt)

  /** A manual revival attempt. It fails, changing nothing, while on
      cooldown (unless testing) or without the item (unless testing).
      Otherwise the player leaves the critical state, becomes invulnerable
      for the configured duration with movement restricted, and the time
      of the revival is recorded; the item is consumed only when it is
      present and testing is off. */
  function Revive(s: State, id: string, now: int, hasDefib: bool, cfg: Config): (r: Outcome)
    ensures OnlyTouches(s, r.state, id)
    ensures r.attempt.revived <==>
      (!OnCooldown(s, id, now, cfg.revivalCooldown) || cfg.testing) && (hasDefib || cfg.testing)
    ensures !r.attempt.revived ==> r.state == s
    ensures r.attempt.consumed <==> r.attempt.revived && hasDefib && !cfg.testing
    ensures r.attempt.cooldownNotice.Some? <==> OnCooldown(s, id, now, cfg.revivalCooldown)
    ensures r.attempt.cooldownNotice.Some? ==>
      r.attempt.cooldownNotice.value == RemainingCooldown(s, id, now, cfg.revivalCooldown)
    ensures r.attempt.revived ==>
      && !InCritical(r.state, id)
      && Invulnerable(r.state, id)
      && id in r.state.invulnerabilityTimers && r.state.invulnerabilityTimers[id] == cfg.revivalDuration
      && id in r.state.lastRevivalTimes && r.state.lastRevivalTimes[id] == now
      && (if id in s.walkSpeedLimit then Restricted(r.state, id) else Agree(s.originalSpeed, r.state.originalSpeed, id))
  {
    var onCooldown := OnCooldown(s, id, now, cfg.revivalCooldown);
    var notice := if onCooldown then Some(RemainingCooldown(s, id, now, cfg.revivalCooldown)) else None;
    if onCooldown && !cfg.testing then
      Outcome(s, Attempt(false, false, notice))
    else if hasDefib || cfg.testing then
      var started := StartInvulnerability(s, id, cfg.revivalDuration);
      var revived := started.(inCritical := started.inCritical[id := false],
                              lastRevivalTimes := started.lastRevivalTimes[id := now]);
      assert OnlyTouches(started, revived, id);
      OnlyTouchesTrans(s, started, revived, id);
      Outcome(revived, Attempt(true, hasDefib && !cfg.testing, notice))
    else
      Outcome(s, Attempt(false, false, notice))
  }

  // ---------------------------------------------------------------------
  // Body-part restoration after a revival

  /** Every destroyed part (health below 1) back at its maximum; the
      others as they were. */
  function RestoredHealth(health: seq<real>, maximum: seq<real>): (r: seq<real>)
    requires |health| == |maximum|
    ensures |r| == |health|
    ensures forall i :: 0 <= i < |r| && 1.0 <= health[i] ==> r[i] == health[i]
    ensures forall i :: 0 <= i < |r| && health[i] < 1.0 ==> r[i] == maximum[i]
  {
    seq(|health|, i requires 0 <= i < |health| => if health[i] < 1.0 then maximum[i] else health[i])
  }

  /** The body-part health after a successful revival: destroyed parts are
      restored only when restoration is configured and hardcore mode is off. */
  function RevivalHealing(health: seq<real>, maximum: seq<real>, cfg: Config): (r: seq<real>)
    requires |health| == |maximum|
    ensures |r| == |health|
    ensures cfg.hardcoreMode || !cfg.restoreDestroyedBodyParts ==> r == health
    ensures !cfg.hardcoreMode && cfg.restoreDestroyedBodyParts ==> r == RestoredHealth(health, maximum)
  {
    if !cfg.hardcoreMode && cfg.restoreDestroyedBodyParts then RestoredHealth(health, maximum) else health
  }

  // ---------------------------------------------------------------------
  // The per-frame update of a player

  /** What the engine hands the per-frame update: the player, whether it
      is the locally controlled one, the frame time, whether the revival
      key went down this frame, whether the player carries the item, and
      the wall-clock time in Unix seconds. */
  datatype Frame = Frame(id: string, isYourPlayer: bool, deltaTime: real, revivalKeyDown: bool,
                         hasDefib: bool, now: int)

  datatype Step = Step(state: State, attempt: Option<Attempt>)

  /** The per-frame update: only the local player is handled. Its
      invulnerability timer runs first; then, if it is critical, self
      revival is enabled and the revival key went down, a revival is
      attempted. */
  function Postfix(s: State, cfg: Config, f: Frame): (r: Step)
    ensures OnlyTouches(s, r.state, f.id)
    ensures !f.isYourPlayer ==> r == Step(s, None)
    ensures r.attempt.Some? <==> f.isYourPlayer && InCritical(s, f.id) && cfg.selfRevival && f.revivalKeyDown
  {
    if !f.isYourPlayer then Step(s, None)
    else
      var ticked := Tick(s, f.id, f.deltaTime);
      if InCritical(ticked, f.id) && cfg.selfRevival && f.revivalKeyDown then
        var o := Revive(ticked, f.id, f.now, f.hasDefib, cfg);
        OnlyTouchesTrans(s, ticked, o.state, f.id);
        Step(o.state, Some(o.attempt))
      else Step(ticked, None)
  }
}
