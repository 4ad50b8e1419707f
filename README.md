# RevivalMod revival state machine, in Dafny

This project models the core of RevivalMod, a game mod. When the locally controlled player is about to die, the mod can put them into a *critical* state instead: they are invulnerable and slowed down, and they wait for a manual revival. A manual revival uses a defibrillator item and is limited by a cooldown. It starts a timed *invulnerability* window. When the timer runs out, the player's movement is restored.

The model covers two parts of the mod:

- `RevivalFeatures` (Features/Features.cs). It keeps five dictionaries keyed by profile id: the last revival time, the critical flag, the invulnerable flag, the invulnerability timer, and the saved walk-speed limit. Its static methods change these dictionaries.
- `DeathPatch.Prefix` (Patches/DeathPatch.cs). It decides whether a kill goes ahead.

Modules:

- `Settings`: the configuration values the feature reads, and their defaults.
- `PlayerState`: the `State` datatype. It holds the five dictionaries plus the engine's walk-speed limit of each player, and the lookups on them.
- `Transitions`: one function on `State` for each static method. Each function's contract states what the method does to the state.
- `Features`: the class `RevivalFeatures`. It keeps the dictionaries as `map` fields. Its methods follow the source's static methods and call each other the same way. Each method is proved to perform the matching `Transitions` function on `Snapshot()`. The body-part restoration loop works in place on an `array<real>`.
- `DeathPatch`: the ordered allow/block decision `Decide`, its effect `KillOutcome`, and the method `Prefix` that runs it on a `RevivalFeatures` object.
- `Lifecycle`: the per-player invariant `ConsistentFor`. In it, every player is in one of three stages: Normal, Critical, or Healing (invulnerable with a timer running). The module proves that the two engine hooks keep this invariant over any sequence of calls. It also proves the properties the mod relies on: walk speed is saved once and restored exactly, the slow-down never compounds, the timer counts down and expires, the cooldown is respected, and an invulnerable player is never killed.

Where the engine is involved:

- A player's walk-speed limit is the map `walkSpeedLimit`. A player missing from it has no physical body. Every access to its limit then throws inside a `try`, so the method changes nothing.
- The item search is a boolean `hasDefib`. In the kill prefix it is an `Option<bool>`, where `None` means the search threw and the kill goes ahead.
- Item consumption is reported as `Attempt.consumed`.
- The clock is an integer `now` in Unix seconds. The frame time is `deltaTime`. The key press is `revivalKeyDown`.
- Timers, speeds and the cooldown are `real`. The C# `(int)` cast of the remaining cooldown is truncation toward zero (`TruncateToInt`).
- The engine is assumed never to write a player's `WalkSpeedLimit` between two hook calls. Only the feature's own methods change `walkSpeedLimit`.
- No player gains or loses a physical body during a run: every transition keeps the set of ids in `walkSpeedLimit` (`OnlyTouches` fixes `walkSpeedLimit.Keys`). The `RestrictedIfPhysical` part of the invariant `Lifecycle.ConsistentFor` holds only under these two assumptions.

Three points where the model follows what the code does rather than what its settings and comments suggest:

- **Hardcore interception.** The settings declare a headshot rule ("Headshot kills always") and a chance of entering the critical state in hardcore mode (Helpers/Settings.cs:13-15 and 27-38). Nothing in Patches/DeathPatch.cs reads them, so `DeathPatch.Prefix` has no such rule. Hardcore mode only turns off body-part restoration (Features/Features.cs:456).
- **Body-part restoration.** The comments at Features/Features.cs:445 and 457 speak of limited healing, but line 463 calls `FullRestoreBodyPart`. So `RestoredHealth` sets each destroyed part to its maximum.
- **Order of checks in the kill prefix.** The local/AI test (Patches/DeathPatch.cs:34) comes before the invulnerability test (Patches/DeathPatch.cs:39). A non-local or AI player therefore dies even when invulnerable.

## Model

| member | source | states |
|---|---|---|
| `Settings.Defaults` | Helpers/Settings.cs:40-68 | The defaults of the user settings: 4 s of invulnerability, a 180 s cooldown, body-part restoration, hardcore mode and the testing setting all off. The two compile-time switches are passed through unchanged, since their values are not part of the settings. |
| `PlayerState.Initial` | Features/Features.cs:30-35 | The dictionaries start empty, so no player is critical or invulnerable, and no timer, revival time or saved speed exists. |
| `Features.RevivalFeatures.constructor` | Features/Features.cs:30-35 | The object starts in `Initial`. |
| `Features.RevivalFeatures.IsPlayerInCriticalState` | Features/Features.cs:108-111 | True exactly when the critical flag is stored and set. An unknown id gives false. |
| `Features.RevivalFeatures.IsPlayerInvulnerable` | Features/Features.cs:644-647 | True exactly when the invulnerable flag is stored and set. An unknown id gives false. |
| `Transitions.ApplyCriticalEffects` | Features/Features.cs:171-211 | The walk speed is saved only if none is saved yet, and the limit becomes saved × 0.02. No other player and no other map changes. Without a physical body, nothing changes. |
| `Features.RevivalFeatures.ApplyCriticalEffects` | Features/Features.cs:177-188 | Performs `Transitions.ApplyCriticalEffects` on the fields. |
| `Transitions.RestorePlayerMovement` | Features/Features.cs:214-233 | If a speed is saved, the limit goes back to it and the saved entry is removed. Otherwise nothing changes. |
| `Features.RevivalFeatures.RestorePlayerMovement` | Features/Features.cs:220-225 | Performs `Transitions.RestorePlayerMovement` on the fields. |
| `Transitions.SetCriticalState` | Features/Features.cs:113-168 | Entering critical sets the critical and invulnerable flags of that id only and restricts movement. Leaving without a timer drops the invulnerable entry and restores movement. Leaving with a timer only clears the critical flag. |
| `Features.RevivalFeatures.SetPlayerCriticalState` | Features/Features.cs:113-168 | Performs `Transitions.SetCriticalState` on the fields. |
| `Transitions.StartInvulnerability` | Features/Features.cs:508-524 | The player is invulnerable, the timer is the given duration, and movement is restricted. Revival times and critical flags are unchanged. |
| `Features.RevivalFeatures.StartInvulnerability` | Features/Features.cs:508-518 | Performs `Transitions.StartInvulnerability` on the fields. |
| `Transitions.EndInvulnerability` | Features/Features.cs:526-552 | The invulnerable flag becomes false, the timer is removed, and the saved speed is restored and removed. |
| `Features.RevivalFeatures.EndInvulnerability` | Features/Features.cs:526-539 | Performs `Transitions.EndInvulnerability` on the fields. |
| `Transitions.Tick` | Features/Features.cs:57-91 | An invulnerable player with a timer loses the frame time from it. At or below zero, the result is `EndInvulnerability`. Any other player is unchanged. |
| `Transitions.TruncateToInt` | Features/Features.cs:355 | The `(int)` cast truncates toward zero, for both signs. |
| `Transitions.OnCooldown` | Features/Features.cs:344-349 | Only a player with a recorded revival time can be on cooldown. A player never revived is off cooldown. |
| `Transitions.RemainingCooldown` | Features/Features.cs:353-355 | While on cooldown, the reported seconds are a non-negative whole number within 1 of `cooldown - (now - last)`. |
| `Transitions.Revive` | Features/Features.cs:333-410 | Succeeds exactly when (not on cooldown or testing) and (item or testing). On failure nothing changes. On success the player is not critical, is invulnerable with timer = duration, last revival = now, and movement is restricted. The item is consumed exactly when it is present and testing is off. The cooldown notice is shown exactly when the player is on cooldown. |
| `Features.RevivalFeatures.TryPerformManualRevival` | Features/Features.cs:333-410 | Performs `Transitions.Revive` on the fields, and applies the healing to the body-part array only on success. |
| `Transitions.RestoredHealth` | Features/Features.cs:459-466 | Parts below 1 get their maximum. The other parts are unchanged. |
| `Transitions.RevivalHealing` | Features/Features.cs:456-467 | Destroyed parts are restored only when restoration is configured and hardcore mode is off. Otherwise health is unchanged. |
| `Features.RevivalFeatures.ApplyRevivalEffects` | Features/Features.cs:441-482 | The in-place loop over the body parts produces `RevivalHealing` of the old health. |
| `Transitions.Postfix` | Features/Features.cs:45-106 | Only the local player is handled. A revival is attempted exactly when that player is critical, self revival is on, and the key went down. No other player changes. |
| `Features.RevivalFeatures.Postfix` | Features/Features.cs:45-106 | Performs `Transitions.Postfix` on the fields and heals only after a successful revival. |
| `DeathPatch.Protected` | Patches/DeathPatch.cs:28-34 | The kill concerns a found, non-null, local, non-AI player. When it holds, the player is present. |
| `DeathPatch.Decide` | Patches/DeathPatch.cs:23-70 | A missing field, a null player, a non-local player or an AI player always dies. Otherwise the kill is blocked exactly when the player is invulnerable. It is intercepted exactly when the player is not invulnerable and the item is found or the testing constant is on. In every other case, including a failed item search, the player dies. |
| `DeathPatch.KillOutcome` | Patches/DeathPatch.cs:34-69 | The prefix returns true exactly on `LetDie`. Only an interception changes state: the player becomes critical and invulnerable, no other player changes, and timers and revival times are untouched. |
| `DeathPatch.OnlyLocalHumanIsSpared` | Patches/DeathPatch.cs:28-34 | A kill of anyone but the local human player goes ahead and changes nothing. Every kill that does not go ahead is one of the local human player. |
| `DeathPatch.Prefix` | Patches/DeathPatch.cs:22-70 | Performs `KillOutcome` on a `RevivalFeatures` object. |
| `DeathPatch.InvulnerableIsNeverKilled` | Patches/DeathPatch.cs:39-43 | A kill of an invulnerable local player is blocked and leaves the state as it was. |
| `Lifecycle.TimerOnlyWhileHealing` | Features/Features.cs:508-515 | In a consistent state, a timer exists only for an invulnerable player with a recorded revival. A player who is not invulnerable has no timer and no saved speed. |
| `Lifecycle.InitialConsistent` | Features/Features.cs:30-35 | The initial state is consistent. |
| `Lifecycle.EnterCriticalKeepsConsistent` | Features/Features.cs:121-131 | Intercepting a player who is not invulnerable moves them from Normal to Critical and keeps every player consistent. |
| `Lifecycle.TickKeepsConsistent` | Features/Features.cs:57-91 | The timer step keeps every player consistent. |
| `Lifecycle.ReviveKeepsConsistent` | Features/Features.cs:366-398 | A revival attempt on a critical player keeps every player consistent. |
| `Lifecycle.PostfixKeepsConsistent` | Features/Features.cs:45-106 | The per-frame update keeps every player consistent. |
| `Lifecycle.KillKeepsConsistent` | Patches/DeathPatch.cs:34-69 | The kill prefix keeps every player consistent. |
| `Lifecycle.RunKeepsConsistent` | Features/Features.cs:45-106 | Any sequence of kills and frame updates keeps every player consistent. |
| `Lifecycle.ReachableIsConsistent` | Features/Features.cs:30-35 | Every state reachable from the initial one through the two hooks is consistent. |
| `Lifecycle.ApplyThenRestore` | Features/Features.cs:178-188 | With no saved speed, restricting and then restoring returns the exact original state, including the walk speed, and leaves no saved entry. |
| `Lifecycle.ApplyTwiceIsApplyOnce` | Features/Features.cs:178-188 | Applying the restriction twice gives the same state as applying it once. The saved speed is not overwritten and the slow-down does not compound. |
| `Lifecycle.RevivalKeepsSpeed` | Features/Features.cs:518 | Reviving a critical player re-applies the restriction without changing the walk speed or the saved speed. |
| `Lifecycle.FullCycleRestoresSpeed` | Features/Features.cs:121-131 | After interception, revival and expiry, the walk speed and saved speeds are as before the player went down. The player is neither critical nor invulnerable, and the state is consistent. |
| `Lifecycle.AbandonCriticalRestores` | Features/Features.cs:157-166 | Leaving a Critical stage without a timer returns the player to Normal with movement restored. |
| `Lifecycle.TimerCountsDown` | Features/Features.cs:60-63 | If the timer outlasts the frame, the player stays invulnerable and the timer drops by the frame time. |
| `Lifecycle.ExpiryEndsInvulnerability` | Features/Features.cs:86-89 | If the timer runs out this frame, the player ends up not invulnerable, with no timer, no saved speed and the walk speed restored. |
| `Lifecycle.OtherPlayersIgnored` | Features/Features.cs:54-55 | The update of a non-local player changes nothing. |
| `Lifecycle.NoItemStaysCritical` | Features/Features.cs:366-408 | Without the item and with testing off, a critical player stays critical and invulnerable through every frame. |
| `Lifecycle.RevivalsRespectCooldown` | Features/Features.cs:345-362 | With testing off, a successful revival comes at least the cooldown after the previous one. |
| `Lifecycle.CooldownWindow` | Features/Features.cs:344-349 | Once off cooldown, a player stays off it at every later time. A revival at the same second as the last one is on cooldown whenever the cooldown is positive. |
| `Lifecycle.CooldownExample` | Features/Features.cs:345-362 | Revived 10 s earlier under the default settings (a 180 s cooldown, testing off): the attempt fails, reports 170 s, and changes nothing. |
| `Lifecycle.FirstRevivalSucceeds` | Features/Features.cs:366-388 | A first revival with the item succeeds, consumes the item, and sets the timer to the configured duration. |

## Left out

- `FlashInvulnerabilityEffect` (Features/Features.cs:554-642) is left out. It is a rendering coroutine that toggles renderers and has no effect on state.
- `ApplyRevivableStatePlayer` and `RemoveStealthFromPlayer` are left out. They only make engine calls (death sound, aiming, sprint, pose, empty hands, the engine's `IsAlive`, visibility, contusion) and read or write none of the dictionaries.
- Contusion, stun, fatigue, stamina and pose calls in `ApplyCriticalEffects` and `ApplyRevivalEffects` are left out for the same reason. So are `Say` and all notifications and logging. The cooldown notice is kept as `Attempt.cooldownNotice`.
- `CheckRevivalItemInRaidInventory` and `ConsumeDefibItem` are not modelled. They are inventory lookups and a reflective item disposal. They become the `hasDefib` input and the `consumed` output.
- `RemoveAllNegativeEffects` is not modelled, because its only call is commented out.
- Reflection lookups and Harmony registration (`GetTargetMethod`, `AccessTools.Field`) are left out. A missing `Player` field is the `playerFieldFound` input.
- Null-player guards in `SetPlayerCriticalState`, `TryPerformManualRevival`, `StartInvulnerability` and `EndInvulnerability` are not modelled. Every caller passes a live player. The null player in the kill prefix is modelled.
- A null `ActiveHealthController` in `ApplyRevivalEffects` is not modelled, nor are exceptions thrown by engine calls other than the walk-speed access and the item search.
- Floating-point rounding is not modelled. `Time.deltaTime`, timers, speeds, the 0.02 factor and the cooldown are exact reals.
- `Constants` (the item id and the `TESTING` and `SELF_REVIVAL` switches) is not part of this model. The two switches are the `testingConstant` and `selfRevival` fields of `Config`, and `Settings.Defaults` takes both as parameters instead of assuming their values.
- The two compile-time switches in the per-frame update that force crouching and block aiming during invulnerability are `false` in the source and drive only engine calls, so they are not modelled.
- `Transitions.TruncateToInt` is truncation of an unbounded value. C#'s unchecked cast from `float` to `int` is unspecified outside the `int` range. The model does not bound the result.
- The clock is read three times in a manual revival (Features/Features.cs:347, 354 and 388). The model uses one `now` for all three reads, so it does not capture a second boundary passing between them.
- Multi-player concurrency is not modelled. The dictionaries are shared by a single game thread.
