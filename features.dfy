// RevivalFeatures: the revival feature's static dictionaries, held as the
// fields of one object, and its static methods, each proved to perform
// the matching transition of module Transitions.

module Features {
  import opened PlayerState
  import opened Settings
  import T = Transitions

  class RevivalFeatures {
    var lastRevivalTimes: map<string, int>
    var inCritical: map<string, bool>
    var invulnerable: map<string, bool>
    var invulnerabilityTimers: map<string, real>
    var originalSpeed: map<string, real>
    /** The engine's walk-speed limit of each player with a physical body. */
    var walkSpeedLimit: map<string, real>

    /** The value of all maps at once. */
    function Snapshot(): State
      reads this
    {
      State(lastRevivalTimes, inCritical, invulnerable, invulnerabilityTimers, originalSpeed, walkSpeedLimit)
    }

    /** The dictionaries start empty. */
    constructor (walkSpeeds: map<string, real>)
      ensures Snapshot() == Initial(walkSpeeds)
    {
      lastRevivalTimes, inCritical, invulnerable := map[], map[], map[];
      invulnerabilityTimers, originalSpeed := map[], map[];
      walkSpeedLimit := walkSpeeds;
    }

    /** The critical flag of a player; false for a player never seen. */
    function IsPlayerInCriticalState(id: string): (b: bool)
      reads this
      ensures b <==> InCritical(Snapshot(), id)
      ensures id !in inCritical ==> !b
    {
      id in inCritical && inCritical[id]
    }

    /** The invulnerable flag of a player; false for a player never seen. */
    function IsPlayerInvulnerable(id: string): (b: bool)
      reads this
      ensures b <==> Invulnerable(Snapshot(), id)
      ensures id !in invulnerable ==> !b
    {
      id in invulnerable && invulnerable[id]
    }

    method ApplyCriticalEffects(id: string)
      modifies this
      ensures Snapshot() == T.ApplyCriticalEffects(old(Snapshot()), id)
    {
      if id in walkSpeedLimit {
        if id !in originalSpeed {
          originalSpeed := originalSpeed[id := walkSpeedLimit[id]];
        }
        walkSpeedLimit := walkSpeedLimit[id := originalSpeed[id] * CriticalSpeedFactor];
      }
    }

    method RestorePlayerMovement(id: string)
      modifies this
      ensures Snapshot() == T.RestorePlayerMovement(old(Snapshot()), id)
    {
      if id in originalSpeed && id in walkSpeedLimit {
        walkSpeedLimit := walkSpeedLimit[id := originalSpeed[id]];
        originalSpeed := originalSpeed - {id};
      }
    }

    method SetPlayerCriticalState(id: string, critical: bool)
      modifies this
      ensures Snapshot() == T.SetCriticalState(old(Snapshot()), id, critical)
    {
      inCritical := inCritical[id := critical];
      if critical {
        invulnerable := invulnerable[id := true];
        ApplyCriticalEffects(id);
      } else if id !in invulnerabilityTimers {
        invulnerable := invulnerable - {id};
        RestorePlayerMovement(id);
      }
    }

    method StartInvulnerability(id: string, duration: real)
      modifies this
      ensures Snapshot() == T.StartInvulnerability(old(Snapshot()), id, duration)
    {
      invulnerable := invulnerable[id := true];
      invulnerabilityTimers := invulnerabilityTimers[id := duration];
      ApplyCriticalEffects(id);
    }

    method EndInvulnerability(id: string)
      modifies this
      ensures Snapshot() == T.EndInvulnerability(old(Snapshot()), id)
    {
      invulnerable := invulnerable[id := false];
      invulnerabilityTimers := invulnerabilityTimers - {id};
      RestorePlayerMovement(id);
    }

    /** The limited healing of a revival, in place on the player's body-part
        health: with restoration configured and hardcore mode off, every part
        below 1 is restored to its maximum. */
    static method ApplyRevivalEffects(health: array<real>, maximum: seq<real>, cfg: Config)
      requires health.Length == |maximum|
      modifies health
      ensures health[..] == T.RevivalHealing(old(health[..]), maximum, cfg)
    {
      if !cfg.hardcoreMode && cfg.restoreDestroyedBodyParts {
        var i := 0;
        while i < health.Length
          invariant 0 <= i <= health.Length
          invariant forall k :: 0 <= k < i ==> health[k] == T.RestoredHealth(old(health[..]), maximum)[k]
          invariant forall k :: i <= k < health.Length ==> health[k] == old(health[k])
        {
          if health[i] < 1.0 {
            health[i] := maximum[i];
          }
          i := i + 1;
        }
      }
    }

    /** A manual revival attempt for `id` at Unix time `now`, `hasDefib`
        telling whether the player carries the item. */
    method TryPerformManualRevival(id: string, now: int, hasDefib: bool, cfg: Config,
                                   health: array<real>, maximum: seq<real>)
      returns (a: T.Attempt)
      requires health.Length == |maximum|
      modifies this, health
      ensures a == T.Revive(old(Snapshot()), id, now, hasDefib, cfg).attempt
      ensures Snapshot() == T.Revive(old(Snapshot()), id, now, hasDefib, cfg).state
      ensures health[..] == if a.revived then T.RevivalHealing(old(health[..]), maximum, cfg) else old(health[..])
    {
      var notice := None;
      if id in lastRevivalTimes && ((now - lastRevivalTimes[id]) as real) < cfg.revivalCooldown {
        notice := Some(T.TruncateToInt(cfg.revivalCooldown - (now - lastRevivalTimes[id]) as real));
        if !cfg.testing {
          return T.Attempt(false, false, notice);
        }
      }
      if hasDefib || cfg.testing {
        var consumed := hasDefib && !cfg.testing;
        ApplyRevivalEffects(health, maximum, cfg);
        StartInvulnerability(id, cfg.revivalDuration);
        inCritical := inCritical[id := false];
        lastRevivalTimes := lastRevivalTimes[id := now];
        a := T.Attempt(true, consumed, notice);
      } else {
        a := T.Attempt(false, false, notice);
      }
    }

    /** The per-frame update of player `f.id`: runs the invulnerability
        timer of the local player, then handles the revival key. */
    method Postfix(f: T.Frame, cfg: Config, health: array<real>, maximum: seq<real>)
      returns (attempt: Option<T.Attempt>)
      requires health.Length == |maximum|
      modifies this, health
      ensures var r := T.Postfix(old(Snapshot()), cfg, f); Snapshot() == r.state && attempt == r.attempt
      ensures health[..] == if attempt.Some? && attempt.value.revived
                            then T.RevivalHealing(old(health[..]), maximum, cfg) else old(health[..])
    {
      attempt := None;
      if !f.isYourPlayer {
        return;
      }
      var id := f.id;
      if id in invulnerable && invulnerable[id] && id in invulnerabilityTimers {
        var timer := invulnerabilityTimers[id] - f.deltaTime;
        invulnerabilityTimers := invulnerabilityTimers[id := timer];
        if timer <= 0.0 {
          EndInvulnerability(id);
        }
      }
      if id in inCritical && inCritical[id] && cfg.selfRevival && f.revivalKeyDown {
        var a := TryPerformManualRevival(id, f.now, f.hasDefib, cfg, health, maximum);
        attempt := Some(a);
      }
    }
  }
}
