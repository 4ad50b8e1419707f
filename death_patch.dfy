// DeathPatch: the prefix run before the engine kills a player. It decides
// whether the death proceeds, and on interception puts the player into
// the critical state instead.

module DeathPatch {
  import opened PlayerState
  import opened Settings
  import T = Transitions
  import Features

  /** The player behind a health controller. */
  datatype PlayerHandle = PlayerHandle(profileId: string, isYourPlayer: bool, isAI: bool)

  /** What the prefix can learn about a kill: whether the controller's
      `Player` field exists, the player it holds (None when null), and the
      result of the inventory search for the revival item (None when the
      search throws). */
  datatype KillContext = KillContext(playerFieldFound: bool, player: Option<PlayerHandle>, hasDefib: Option<bool>)

  datatype Decision = LetDie | BlockKill | InterceptToCritical

  /** The kill concerns the local, human player: the only one the feature protects. */
  predicate Protected(ctx: KillContext): (p: bool)
    ensures p ==> ctx.player.Some?
  {
    ctx.playerFieldFound && ctx.player.Some? && ctx.player.value.isYourPlayer && !ctx.player.value.isAI
  }

  /** The ordered decision: anyone but the local human player dies; an
      invulnerable player is spared outright; a player carrying the item
      (or any player, with the testing switch on) is intercepted; a failed
      inventory search and every other case let the death proceed. */
  function Decide(s: State, ctx: KillContext, cfg: Config): (d: Decision)
    ensures !Protected(ctx) ==> d == LetDie
    ensures Protected(ctx) ==>
      (d == BlockKill <==> Invulnerable(s, ctx.player.value.profileId))
    ensures Protected(ctx) ==>
      (d == InterceptToCritical <==>
         && !Invulnerable(s, ctx.player.value.profileId)
         && ctx.hasDefib.Some?
         && (ctx.hasDefib.value || cfg.testingConstant))
  {
    if !ctx.playerFieldFound || ctx.player.None? then LetDie
    else
      var p := ctx.player.value;
      if !p.isYourPlayer || p.isAI then LetDie
      else if Invulnerable(s, p.profileId) then BlockKill
      else
        match ctx.hasDefib
        case None => LetDie
        case Some(has) => if has || cfg.testingConstant then InterceptToCritical else LetDie
  }

  /** The prefix's return value (true lets the kill run) and the state after it. */
  datatype Verdict = Verdict(allowDeath: bool, state: State)

  function KillOutcome(s: State, ctx: KillContext, cfg: Config): (v: Verdict)
    ensures v.allowDeath <==> Decide(s, ctx, cfg) == LetDie
    ensures Decide(s, ctx, cfg) != InterceptToCritical ==> v.state == s
    ensures Decide(s, ctx, cfg) == InterceptToCritical ==>
      var id := ctx.player.value.profileId;
      && OnlyTouches(s, v.state, id)
      && InCritical(v.state, id) && Invulnerable(v.state, id)
      && v.state.invulnerabilityTimers == s.invulnerabilityTimers
      && v.state.lastRevivalTimes == s.lastRevivalTimes
      && (id in s.walkSpeedLimit ==> Restricted(v.state, id))
  {
    match Decide(s, ctx, cfg)
    case LetDie => Verdict(true, s)
    case BlockKill => Verdict(false, s)
    case InterceptToCritical => Verdict(false, T.SetCriticalState(s, ctx.player.value.profileId, true))
  }

  /** A kill of an invulnerable local player is blocked and changes
      nothing, however often it is repeated; in particular it never starts
      a second critical state. */
  lemma InvulnerableIsNeverKilled(s: State, ctx: KillContext, cfg: Config)
    requires Protected(ctx) && Invulnerable(s, ctx.player.value.profileId)
    ensures !KillOutcome(s, ctx, cfg).allowDeath && KillOutcome(s, ctx, cfg).state == s
  {
  }

  /** The feature spares and changes the state of the local human player
      only: every other kill goes ahead untouched, and a kill that does not
      go ahead is always one of the local human player. */
  lemma OnlyLocalHumanIsSpared(s: State, ctx: KillContext, cfg: Config)
    ensures !Protected(ctx) ==> KillOutcome(s, ctx, cfg) == Verdict(true, s)
    ensures !KillOutcome(s, ctx, cfg).allowDeath ==> Protected(ctx)
  {
  }

  /** The prefix as run on the feature's shared state. */
  method Prefix(features: Features.RevivalFeatures, ctx: KillContext, cfg: Config) returns (allowDeath: bool)
    modifies features
    ensures var v := KillOutcome(old(features.Snapshot()), ctx, cfg);
      allowDeath == v.allowDeath && features.Snapshot() == v.state
  {
    if !ctx.playerFieldFound || ctx.player.None? {
      return true;
    }
    var player := ctx.player.value;
    if !player.isYourPlayer || player.isAI {
      return true;
    }
    if features.IsPlayerInvulnerable(player.profileId) {
      return false;
    }
    if ctx.hasDefib.None? {
      return true;
    }
    if ctx.hasDefib.value || cfg.testingConstant {
      features.SetPlayerCriticalState(player.profileId, true);
      return false;
    }
    return true;
  }
}
