// The lifecycle of one player, Normal -> Critical -> Healing -> Normal, as
// an invariant over the per-player maps, kept by the two engine hooks (the
// kill prefix and the per-frame update), and the properties the feature
// promises about speed, cooldown and expiry.

module Lifecycle {
  import opened PlayerState
  import opened Settings
  import opened Transitions
  import DeathPatch

  /** Healing: a revival has completed and its timer runs. Critical: the
      death was intercepted and no revival has completed yet. */
  datatype Stage = Normal | Critical | Healing

  function StageOf(s: State, id: string): Stage
  {
    if id in s.invulnerabilityTimers then Healing
    else if InCritical(s, id) then Critical
    else Normal
  }

  /** Movement is restricted exactly when the player has a physical body. */
  predicate RestrictedIfPhysical(s: State, id: string)
  {
    && (id in s.originalSpeed <==> id in s.walkSpeedLimit)
    && (id in s.originalSpeed ==> Restricted(s, id))
  }

  /** The per-player invariant. A Normal player is neither invulnerable nor
      has a saved walk speed; a Critical player is invulnerable and
      restricted; a Healing player is invulnerable, restricted, no longer
      critical, and has a recorded revival. */
  predicate ConsistentFor(s: State, id: string)
  {
    match StageOf(s, id)
    case Normal => !Invulnerable(s, id) && id !in s.originalSpeed
    case Critical => Invulnerable(s, id) && RestrictedIfPhysical(s, id)
    case Healing =>
      && Invulnerable(s, id) && !InCritical(s, id) && id in s.lastRevivalTimes
      && RestrictedIfPhysical(s, id)
  }

  ghost predicate Consistent(s: State)
  {
    forall id :: ConsistentFor(s, id)
  }

  /** A timer never runs for a player that is not invulnerable, and one
      runs only after a completed revival. */
  lemma TimerOnlyWhileHealing(s: State, id: string)
    requires Consistent(s)
    ensures id in s.invulnerabilityTimers ==> Invulnerable(s, id) && id in s.lastRevivalTimes
    ensures !Invulnerable(s, id) ==> id !in s.invulnerabilityTimers && id !in s.originalSpeed
  {
    assert ConsistentFor(s, id);
  }

  lemma InitialConsistent(walkSpeeds: map<string, real>)
    ensures Consistent(Initial(walkSpeeds))
  {
  }

  /** A step that touches only `id` and leaves `id` consistent keeps the
      whole state consistent. */
  lemma StepKeepsConsistent(s: State, t: State, id: string)
    requires Consistent(s) && OnlyTouches(s, t, id) && ConsistentFor(t, id)
    ensures Consistent(t)
  {
    forall other
      ensures ConsistentFor(t, other)
    {
      if other != id {
        assert SameFor(s, t, other) && ConsistentFor(s, other);
        assert StageOf(t, other) == StageOf(s, other);
      }
    }
  }

  // ---------------------------------------------------------------------
  // Each transition the hooks can perform keeps the invariant

  /** Entering the critical state from Normal. */
  lemma EnterCriticalKeepsConsistent(s: State, id: string)
    requires Consistent(s) && !Invulnerable(s, id)
    ensures Consistent(SetCriticalState(s, id, true))
    ensures StageOf(SetCriticalState(s, id, true), id) == Critical
  {
    var t := SetCriticalState(s, id, true);
    assert ConsistentFor(s, id);
    assert StageOf(s, id) == Normal;
    assert StageOf(t, id) == Critical;
    StepKeepsConsistent(s, t, id);
  }

  lemma TickKeepsConsistent(s: State, id: string, delta: real)
    requires Consistent(s)
    ensures Consistent(Tick(s, id, delta))
  {
    var t := Tick(s, id, delta);
    assert ConsistentFor(s, id);
    if Invulnerable(s, id) && id in s.invulnerabilityTimers {
      if s.invulnerabilityTimers[id] - delta <= 0.0 {
        assert StageOf(s, id) == Healing && !InCritical(s, id);
        assert StageOf(t, id) == Normal;
      } else {
        assert SameFor(s, t, id) || StageOf(t, id) == Healing;
      }
      StepKeepsConsistent(s, t, id);
    }
  }

  /** A revival attempt on a critical player: success moves it to Healing,
      failure changes nothing. */
  lemma ReviveKeepsConsistent(s: State, id: string, now: int, hasDefib: bool, cfg: Config)
    requires Consistent(s) && InCritical(s, id)
    ensures Consistent(Revive(s, id, now, hasDefib, cfg).state)
  {
    var r := Revive(s, id, now, hasDefib, cfg);
    assert ConsistentFor(s, id);
    if r.attempt.revived {
      assert StageOf(s, id) == Critical;
      assert StageOf(r.state, id) == Healing;
      StepKeepsConsistent(s, r.state, id);
    }
  }

  lemma PostfixKeepsConsistent(s: State, cfg: Config, f: Frame)
    requires Consistent(s)
    ensures Consistent(Postfix(s, cfg, f).state)
  {
    if f.isYourPlayer {
      var ticked := Tick(s, f.id, f.deltaTime);
      TickKeepsConsistent(s, f.id, f.deltaTime);
      if InCritical(ticked, f.id) && cfg.selfRevival && f.revivalKeyDown {
        ReviveKeepsConsistent(ticked, f.id, f.now, f.hasDefib, cfg);
      }
    }
  }

  lemma KillKeepsConsistent(s: State, ctx: DeathPatch.KillContext, cfg: Config)
    requires Consistent(s)
    ensures Consistent(DeathPatch.KillOutcome(s, ctx, cfg).state)
  {
    if DeathPatch.Decide(s, ctx, cfg) == DeathPatch.InterceptToCritical {
      EnterCriticalKeepsConsistent(s, ctx.player.value.profileId);
    }
  }

  // ---------------------------------------------------------------------
  // Any sequence of hook invocations

  /** One call from the engine into the feature: a kill about to happen, or
      the per-frame update of a player. */
  datatype Event = Kill(ctx: DeathPatch.KillContext) | Update(frame: Frame)

  function Apply(s: State, cfg: Config, e: Event): State
  {
    match e
    case Kill(ctx) => DeathPatch.KillOutcome(s, ctx, cfg).state
    case Update(f) => Postfix(s, cfg, f).state
  }

  function Run(s: State, cfg: Config, events: seq<Event>): State
    decreases |events|
  {
    if events == [] then s else Run(Apply(s, cfg, events[0]), cfg, events[1..])
  }

  /** Whatever the engine does, every player stays in one of the three
      stages: never invulnerable with a timer missing its revival, never
      restricted while Normal, never left with a stale saved speed. */
  lemma {:induction false} RunKeepsConsistent(s: State, cfg: Config, events: seq<Event>)
    requires Consistent(s)
    ensures Consistent(Run(s, cfg, events))
    decreases |events|
  {
    if events != [] {
      match events[0] {
        case Kill(ctx) => KillKeepsConsistent(s, ctx, cfg);
        case Update(f) => PostfixKeepsConsistent(s, cfg, f);
      }
      RunKeepsConsistent(Apply(s, cfg, events[0]), cfg, events[1..]);
    }
  }

  /** From the state the feature starts in, every reachable state is consistent. */
  lemma {:induction false} ReachableIsConsistent(walkSpeeds: map<string, real>, cfg: Config, events: seq<Event>)
    ensures Consistent(Run(Initial(walkSpeeds), cfg, events))
  {
    InitialConsistent(walkSpeeds);
    RunKeepsConsistent(Initial(walkSpeeds), cfg, events);
  }

  // ---------------------------------------------------------------------
  // Walk speed: save once, restore exactly

  /** Restriction followed by restoration gives back the original state,
      the walk speed included, and leaves no saved speed behind. */
  lemma ApplyThenRestore(s: State, id: string)
    requires id !in s.originalSpeed
    ensures RestorePlayerMovement(ApplyCriticalEffects(s, id), id) == s
  {
  }

  /** Restricting twice is restricting once: the saved speed is not
      overwritten and the slow-down does not compound. */
  lemma ApplyTwiceIsApplyOnce(s: State, id: string)
    ensures ApplyCriticalEffects(ApplyCriticalEffects(s, id), id) == ApplyCriticalEffects(s, id)
  {
  }

  /** A successful revival of a critical player re-applies the restriction
      without touching the walk speed or the saved speed. */
  lemma RevivalKeepsSpeed(s: State, id: string, now: int, hasDefib: bool, cfg: Config)
    requires Consistent(s) && InCritical(s, id)
    ensures var r := Revive(s, id, now, hasDefib, cfg);
      r.state.walkSpeedLimit == s.walkSpeedLimit && r.state.originalSpeed == s.originalSpeed
  {
    var r := Revive(s, id, now, hasDefib, cfg);
    assert ConsistentFor(s, id);
    if r.attempt.revived && id in s.walkSpeedLimit {
      assert r.state.originalSpeed[id] == s.originalSpeed[id];
      assert r.state.originalSpeed == s.originalSpeed;
      assert r.state.walkSpeedLimit == s.walkSpeedLimit;
    }
  }

  /** A whole cycle: interception, revival, expiry. The player ends with the
      walk speed it had before it went down, no saved speed, and neither
      critical nor invulnerable. */
  lemma FullCycleRestoresSpeed(s: State, id: string, now: int, hasDefib: bool, cfg: Config)
    requires Consistent(s) && !Invulnerable(s, id)
    requires Revive(SetCriticalState(s, id, true), id, now, hasDefib, cfg).attempt.revived
    ensures var e := EndInvulnerability(Revive(SetCriticalState(s, id, true), id, now, hasDefib, cfg).state, id);
      && e.walkSpeedLimit == s.walkSpeedLimit && e.originalSpeed == s.originalSpeed
      && !InCritical(e, id) && !Invulnerable(e, id) && id !in e.invulnerabilityTimers
      && Consistent(e)
  {
    var c := SetCriticalState(s, id, true);
    EnterCriticalKeepsConsistent(s, id);
    var r := Revive(c, id, now, hasDefib, cfg);
    RevivalKeepsSpeed(c, id, now, hasDefib, cfg);
    ReviveKeepsConsistent(c, id, now, hasDefib, cfg);
    var e := EndInvulnerability(r.state, id);
    assert ConsistentFor(s, id);
    assert id !in s.originalSpeed;
    if id in s.walkSpeedLimit {
      assert c.originalSpeed[id] == s.walkSpeedLimit[id];
      assert e.walkSpeedLimit == s.walkSpeedLimit;
    }
    assert e.originalSpeed == s.originalSpeed;
    assert ConsistentFor(e, id);
    StepKeepsConsistent(r.state, e, id);
  }

  /** Leaving the critical state with no revival completed (no timer)
      returns the player to Normal with its walk speed restored. */
  lemma AbandonCriticalRestores(s: State, id: string)
    requires Consistent(s) && StageOf(s, id) == Critical
    ensures var t := SetCriticalState(s, id, false);
      && StageOf(t, id) == Normal && !Invulnerable(t, id) && id !in t.originalSpeed
      && (id in s.walkSpeedLimit ==> id in s.originalSpeed && t.walkSpeedLimit[id] == s.originalSpeed[id])
      && Consistent(t)
  {
    var t := SetCriticalState(s, id, false);
    assert ConsistentFor(s, id);
    assert ConsistentFor(t, id);
    StepKeepsConsistent(s, t, id);
  }

  // ---------------------------------------------------------------------
  // Timer, expiry and the stuck critical state

  /** A local Healing player whose timer outlasts the frame stays
      invulnerable, with the frame time taken off its timer. */
  lemma TimerCountsDown(s: State, cfg: Config, f: Frame)
    requires Consistent(s) && f.isYourPlayer
    requires f.id in s.invulnerabilityTimers && s.invulnerabilityTimers[f.id] - f.deltaTime > 0.0
    ensures var r := Postfix(s, cfg, f);
      && r.attempt.None?
      && Invulnerable(r.state, f.id)
      && r.state.invulnerabilityTimers[f.id] == s.invulnerabilityTimers[f.id] - f.deltaTime
  {
    assert ConsistentFor(s, f.id);
  }

  /** A local Healing player whose timer runs out this frame returns to
      Normal: not invulnerable, no timer, walk speed restored, none saved. */
  lemma ExpiryEndsInvulnerability(s: State, cfg: Config, f: Frame)
    requires Consistent(s) && f.isYourPlayer
    requires f.id in s.invulnerabilityTimers && s.invulnerabilityTimers[f.id] - f.deltaTime <= 0.0
    ensures var r := Postfix(s, cfg, f);
      && r.attempt.None?
      && !Invulnerable(r.state, f.id) && f.id !in r.state.invulnerabilityTimers
      && f.id !in r.state.originalSpeed
      && (f.id in s.walkSpeedLimit ==>
            f.id in s.originalSpeed && r.state.walkSpeedLimit[f.id] == s.originalSpeed[f.id])
  {
    assert ConsistentFor(s, f.id);
  }

  /** The update of any other player never changes the state. */
  lemma OtherPlayersIgnored(s: State, cfg: Config, f: Frame)
    requires !f.isYourPlayer
    ensures Postfix(s, cfg, f) == Step(s, None)
  {
  }

  /** Without the item and with testing off, a critical player stays
      critical and invulnerable through every frame: nothing else ends the
      critical state. */
  lemma NoItemStaysCritical(s: State, cfg: Config, f: Frame)
    requires Consistent(s) && InCritical(s, f.id)
    requires !f.hasDefib && !cfg.testing
    ensures var r := Postfix(s, cfg, f);
      InCritical(r.state, f.id) && Invulnerable(r.state, f.id)
  {
    assert ConsistentFor(s, f.id);
  }

  // ---------------------------------------------------------------------
  // Cooldown

  /** With testing off, two successful revivals of a player are at least
      the cooldown apart. */
  lemma RevivalsRespectCooldown(s: State, cfg: Config, f: Frame)
    requires !cfg.testing && f.id in s.lastRevivalTimes
    requires var r := Postfix(s, cfg, f); r.attempt.Some? && r.attempt.value.revived
    ensures (f.now - s.lastRevivalTimes[f.id]) as real >= cfg.revivalCooldown
  {
  }

  /** The cooldown example: revived 10 s ago with the 180 s default, the
      attempt fails, reports 170 s, and changes nothing. */
  lemma CooldownExample(s: State, id: string, now: int, testingConstant: bool, selfRevival: bool)
    requires id in s.lastRevivalTimes && s.lastRevivalTimes[id] == now - 10
    ensures Revive(s, id, now, true, Defaults(testingConstant, selfRevival))
         == Outcome(s, Attempt(false, false, Some(170)))
  {
  }

  /** Once a player is off cooldown, they stay off it: the cooldown is one
      window that starts at the last revival, and a revival at the same
      second as the last one is always on cooldown. */
  lemma CooldownWindow(s: State, id: string, now: int, later: int, cooldown: real)
    requires now <= later
    ensures !OnCooldown(s, id, now, cooldown) ==> !OnCooldown(s, id, later, cooldown)
    ensures id in s.lastRevivalTimes && 0.0 < cooldown ==>
      OnCooldown(s, id, s.lastRevivalTimes[id], cooldown)
  {
  }

  /** A first revival with the item succeeds, consumes the item, and starts
      the configured invulnerability. */
  lemma FirstRevivalSucceeds(s: State, id: string, now: int, cfg: Config)
    requires id !in s.lastRevivalTimes && !cfg.testing
    ensures var r := Revive(s, id, now, true, cfg);
      && r.attempt == Attempt(true, true, None)
      && r.state.invulnerabilityTimers[id] == cfg.revivalDuration
  {
  }
}
