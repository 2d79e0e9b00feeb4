/** What the death-message resolver promises, stated over all inputs. */
module DeathListenerProperties {
  import opened Wrappers
  import opened JavaString
  import opened Messages
  import opened DeathListener

  // ---- Cause dispatch ----

  /** Without a last damage record the reason is `unknown`, defaulting to `UnknownReason`. */
  lemma NoRecordYieldsUnknown(config: Config)
    ensures "unknown" in config ==> DeathReason(config, None) == config["unknown"]
    ensures "unknown" !in config ==> DeathReason(config, None) == UnknownReason
  {
  }

  /**
    An environmental cause yields exactly the value at its `reasons.*` key (or
    `UnknownReason`), whatever the damaging entity.
   */
  lemma EnvironmentalCauseYieldsItsReason(config: Config, c: DamageCause, damager: Option<Entity>)
    requires IsEnvironmental(c)
    ensures var key := EnvironmentKey(c).value;
      && (key in config ==> DeathReason(config, Some(DamageRecord(c, damager))) == config[key])
      && (key !in config ==> DeathReason(config, Some(DamageRecord(c, damager))) == UnknownReason)
  {
  }

  /** FIRE and FIRE_TICK read the same entry. */
  lemma FireTickReadsAsFire(config: Config, d1: Option<Entity>, d2: Option<Entity>)
    ensures DeathReason(config, Some(DamageRecord(Fire, d1)))
         == DeathReason(config, Some(DamageRecord(FireTick, d2)))
         == GetMsg(config, "reasons.fire")
  {
  }

  /** BLOCK_EXPLOSION and ENTITY_EXPLOSION read the same entry. */
  lemma ExplosionsReadAlike(config: Config, d1: Option<Entity>, d2: Option<Entity>)
    ensures DeathReason(config, Some(DamageRecord(BlockExplosion, d1)))
         == DeathReason(config, Some(DamageRecord(EntityExplosion, d2)))
         == GetMsg(config, "reasons.explosion")
  {
  }

  /** The cause that stands for its group: FIRE for FIRE_TICK, BLOCK_EXPLOSION for ENTITY_EXPLOSION. */
  function Representative(c: DamageCause): DamageCause
  {
    match c
    case FireTick => Fire
    case EntityExplosion => BlockExplosion
    case _ => c
  }

  /** Reads a `reasons.*` key back to the representative cause that uses it. */
  function CauseOfReasonKey(key: string): Option<DamageCause>
  {
    if key == "reasons.fall" then Some(Fall)
    else if key == "reasons.fire" then Some(Fire)
    else if key == "reasons.lava" then Some(Lava)
    else if key == "reasons.drowning" then Some(Drowning)
    else if key == "reasons.explosion" then Some(BlockExplosion)
    else if key == "reasons.void" then Some(Void)
    else if key == "reasons.suffocation" then Some(Suffocation)
    else if key == "reasons.starvation" then Some(Starvation)
    else if key == "reasons.poison" then Some(Poison)
    else if key == "reasons.wither" then Some(Wither)
    else if key == "reasons.lightning" then Some(Lightning)
    else if key == "reasons.magic" then Some(Magic)
    else if key == "reasons.contact" then Some(Contact)
    else if key == "reasons.hot_floor" then Some(HotFloor)
    else if key == "reasons.dryout" then Some(Dryout)
    else if key == "reasons.freeze" then Some(Freeze)
    else if key == "reasons.sonic_boom" then Some(SonicBoom)
    else None
  }

  /** Every environmental cause's key reads back to its representative. */
  lemma ReasonKeyReadsBack(c: DamageCause)
    requires IsEnvironmental(c)
    ensures CauseOfReasonKey(EnvironmentKey(c).value) == Some(Representative(c))
  {
  }

  /**
    Two environmental causes share a `reasons.*` entry exactly when they are
    the same cause or one of the pairs above.
   */
  lemma EnvironmentKeysDistinct(c1: DamageCause, c2: DamageCause)
    requires IsEnvironmental(c1) && IsEnvironmental(c2)
    ensures EnvironmentKey(c1) == EnvironmentKey(c2) <==> Representative(c1) == Representative(c2)
  {
    ReasonKeyReadsBack(c1);
    ReasonKeyReadsBack(c2);
  }

  /** An unlisted cause goes through `unknown_with_cause` with `{cause}` replaced by its name. */
  lemma UnknownCauseUsesTemplate(config: Config, name: string, damager: Option<Entity>)
    ensures DeathReason(config, Some(DamageRecord(Other(name), damager)))
         == Replace(GetMsg(config, "unknown_with_cause"), "{cause}", name)
  {
  }

  /** When the template mentions `{cause}`, the cause's name appears in the reason. */
  lemma UnknownCauseNamesTheCause(config: Config, name: string, damager: Option<Entity>)
    requires "unknown_with_cause" in config && Contains(config["unknown_with_cause"], "{cause}")
    ensures Contains(DeathReason(config, Some(DamageRecord(Other(name), damager))), name)
  {
    ReplaceInsertsReplacement(config["unknown_with_cause"], "{cause}", name);
  }

  /** Without an `unknown_with_cause` entry an unlisted cause yields `UnknownReason`. */
  lemma UnknownCauseWithoutTemplate(config: Config, name: string, damager: Option<Entity>)
    requires "unknown_with_cause" !in config
    ensures DeathReason(config, Some(DamageRecord(Other(name), damager))) == UnknownReason
  {
    ReplaceWithoutOccurrence(UnknownReason, "{cause}", name);
  }

  // ---- Display names ----

  /**
    The attacker name: a non-empty custom name wins, then `entities.<TYPE>`,
    then the lower-cased type name.
   */
  lemma AttackerNamePrecedence(config: Config, e: Entity)
    ensures HasCustomName(e) ==> AttackerName(config, e) == e.kind.customName.value
    ensures !HasCustomName(e) && "entities." + e.typeName in config
      ==> AttackerName(config, e) == config["entities." + e.typeName]
    ensures !HasCustomName(e) && "entities." + e.typeName !in config
      ==> AttackerName(config, e) == Lower(e.typeName)
  {
  }

  /** A non-living entity is named as a living one of its type without a custom name. */
  lemma NonLivingIgnoresCustomName(config: Config, e: Entity)
    requires e.kind.ProjectileEntity? || e.kind.OtherEntity?
    ensures AttackerName(config, e) == AttackerName(config, Entity(e.typeName, LivingEntity(None)))
  {
  }

  /** The projectile name: `projectiles.<TYPE>`, then the lower-cased type name. */
  lemma ProjectileTypeFallback(config: Config, typeName: string)
    ensures "projectiles." + typeName in config
      ==> ProjectileType(config, typeName) == config["projectiles." + typeName]
    ensures "projectiles." + typeName !in config
      ==> ProjectileType(config, typeName) == Lower(typeName)
  {
  }

  lemma LowerSkeleton(typeName: string)
    requires typeName == "SKELETON"
    ensures Lower(typeName) == "skeleton"
  {
    var r := Lower(typeName);
    assert r[0] == 's' && r[1] == 'k' && r[2] == 'e' && r[3] == 'l';
    assert r[4] == 'e' && r[5] == 't' && r[6] == 'o' && r[7] == 'n';
  }

  /** A SKELETON without a custom name or an override is called "skeleton". */
  lemma SkeletonIsNamedSkeleton(config: Config, skeleton: Entity)
    requires skeleton == Entity("SKELETON", LivingEntity(None))
    requires "entities." + "SKELETON" !in config
    ensures AttackerName(config, skeleton) == "skeleton"
  {
    LowerSkeleton(skeleton.typeName);
  }

  // ---- Entity-caused deaths ----

  /** A melee record that is not entity-caused yields `attacks.melee`. */
  lemma MeleeWithoutEntity(config: Config)
    ensures "attacks.melee" in config
      ==> DeathReason(config, Some(DamageRecord(EntityAttack, None))) == config["attacks.melee"]
    ensures "attacks.melee" !in config
      ==> DeathReason(config, Some(DamageRecord(EntityAttack, None))) == UnknownReason
  {
  }

  /** A player attacker is named by account, through `attacks.player`. */
  lemma PlayerAttackerUsesAccountName(config: Config, p: Entity)
    requires p.kind.PlayerEntity?
    ensures DeathReason(config, Some(DamageRecord(EntityAttack, Some(p))))
         == Replace(GetMsg(config, "attacks.player"), "{attacker}", p.kind.name)
  {
  }

  /**
    A melee death by a player reads only `attacks.player`: two documents that
    agree there give the same reason, whatever they say under `attacks.mob` or
    `entities.*`, and whatever custom name the player carries.
   */
  lemma PlayerMeleeReadsOnlyPlayerTemplate(c1: Config, c2: Config, typeName: string, name: string,
                                           n1: Option<string>, n2: Option<string>)
    requires GetMsg(c1, "attacks.player") == GetMsg(c2, "attacks.player")
    ensures DeathReason(c1, Some(DamageRecord(EntityAttack, Some(Entity(typeName, PlayerEntity(name, n1))))))
         == DeathReason(c2, Some(DamageRecord(EntityAttack, Some(Entity(typeName, PlayerEntity(name, n2))))))
  {
  }

  /** Any other attacker goes through `attacks.mob` with its resolved name. */
  lemma MobAttackerUsesResolvedName(config: Config, e: Entity)
    requires !e.kind.PlayerEntity?
    ensures DeathReason(config, Some(DamageRecord(EntityAttack, Some(e))))
         == Replace(GetMsg(config, "attacks.mob"), "{attacker}", AttackerName(config, e))
  {
  }

  /** A projectile shot by a player is named by the player's account, through `attacks.player_projectile`. */
  lemma PlayerShooterUsesAccountName(config: Config, projectileType: string, player: Entity)
    requires player.kind.PlayerEntity?
    ensures var arrow := Entity(projectileType, ProjectileEntity(EntityShooter(player)));
      DeathReason(config, Some(DamageRecord(Projectile, Some(arrow))))
      == Replace(Replace(GetMsg(config, "attacks.player_projectile"), "{attacker}", player.kind.name),
                 "{projectile}", ProjectileType(config, projectileType))
  {
  }

  /**
    A projectile death by a player shooter reads only `attacks.player_projectile`
    and the projectile's own name: never `attacks.mob_projectile` nor `entities.*`.
   */
  lemma PlayerShooterReadsOnlyPlayerTemplate(c1: Config, c2: Config, projectileType: string, player: Entity)
    requires player.kind.PlayerEntity?
    requires GetMsg(c1, "attacks.player_projectile") == GetMsg(c2, "attacks.player_projectile")
    requires ProjectileType(c1, projectileType) == ProjectileType(c2, projectileType)
    ensures var arrow := Entity(projectileType, ProjectileEntity(EntityShooter(player)));
      DeathReason(c1, Some(DamageRecord(Projectile, Some(arrow))))
      == DeathReason(c2, Some(DamageRecord(Projectile, Some(arrow))))
  {
  }

  /** A projectile shot by any other entity goes through `attacks.mob_projectile`. */
  lemma MobShooterUsesResolvedName(config: Config, projectileType: string, shooter: Entity)
    requires !shooter.kind.PlayerEntity?
    ensures var arrow := Entity(projectileType, ProjectileEntity(EntityShooter(shooter)));
      DeathReason(config, Some(DamageRecord(Projectile, Some(arrow))))
      == Replace(Replace(GetMsg(config, "attacks.mob_projectile"), "{attacker}", AttackerName(config, shooter)),
                 "{projectile}", ProjectileType(config, projectileType))
  {
  }

  /** A projectile record that is not entity-caused yields the bare `attacks.projectile`. */
  lemma ProjectileWithoutEntity(config: Config)
    ensures DeathReason(config, Some(DamageRecord(Projectile, None))) == GetMsg(config, "attacks.projectile")
  {
  }

  /**
    A damager that is not a projectile, or a projectile without an entity
    shooter, yields `attacks.projectile` followed by the projectile name in
    parentheses.
   */
  lemma ProjectileWithoutEntityShooter(config: Config, p: Entity)
    requires !(p.kind.ProjectileEntity? && p.kind.source.EntityShooter?)
    ensures DeathReason(config, Some(DamageRecord(Projectile, Some(p))))
         == GetMsg(config, "attacks.projectile") + " (" + ProjectileType(config, p.typeName) + ")"
  {
  }

  // ---- The final message ----

  /** A format without placeholders is announced as it stands. */
  lemma FormatWithoutPlaceholders(config: Config, death: PlayerDeath)
    requires "death-format" in config
    requires !Contains(config["death-format"], "{player}") && !Contains(config["death-format"], "{reason}")
    ensures DeathMessage(config, death) == config["death-format"]
  {
    ReplaceWithoutOccurrence(config["death-format"], "{player}", death.victimName);
    ReplaceWithoutOccurrence(config["death-format"], "{reason}", DeathReason(config, death.lastDamage));
  }

  /**
    The reason appears in every message whose format mentions `{reason}`: the
    `{player}` step cannot break a `{reason}`, since the two tokens cannot
    overlap.
   */
  lemma ReasonAppearsInMessage(config: Config, death: PlayerDeath)
    requires "death-format" in config && Contains(config["death-format"], "{reason}")
    ensures Contains(DeathMessage(config, death), DeathReason(config, death.lastDamage))
  {
    var format, reason := config["death-format"], DeathReason(config, death.lastDamage);
    ReplaceKeepsOtherToken(format, "{player}", death.victimName, "{reason}");
    ReplaceInsertsReplacement(Replace(format, "{player}", death.victimName), "{reason}", reason);
  }

  /**
    A reason without braces that has a character outside `{reason}` (any
    reason in words) leaves no `{reason}` token in the message.
   */
  lemma NoReasonTokenLeft(config: Config, death: PlayerDeath, k: nat)
    requires "death-format" in config
    requires var reason := DeathReason(config, death.lastDamage);
      k < |reason| && reason[k] !in "{reason}" && '{' !in reason && '}' !in reason
    ensures !Contains(DeathMessage(config, death), "{reason}")
  {
    var reason := DeathReason(config, death.lastDamage);
    ReplaceEliminates(Replace(config["death-format"], "{player}", death.victimName), "{reason}", reason, k);
  }

  /**
    A victim name and a reason without braces, each with a character outside
    `{player}`, leave no `{player}` token in the message: the first step
    removes them all and the second cannot complete a new one.
   */
  lemma NoPlayerTokenLeft(config: Config, death: PlayerDeath, kn: nat, kr: nat)
    requires "death-format" in config
    requires var name := death.victimName;
      kn < |name| && name[kn] !in "{player}" && '{' !in name && '}' !in name
    requires var reason := DeathReason(config, death.lastDamage);
      kr < |reason| && reason[kr] !in "{player}" && '{' !in reason && '}' !in reason
    ensures !Contains(DeathMessage(config, death), "{player}")
  {
    var filled := Replace(config["death-format"], "{player}", death.victimName);
    ReplaceEliminates(config["death-format"], "{player}", death.victimName, kn);
    ReplaceKeepsAbsent(filled, "{reason}", DeathReason(config, death.lastDamage), "{player}", kr);
  }

  /** Text without `{` before `{reason}` cannot hide a `{player}`. */
  lemma NoPlayerTokenBeforeReason(mid: string)
    requires '{' !in mid
    ensures !Contains(mid + "{reason}", "{player}")
  {
    var s := mid + "{reason}";
    forall i | 0 <= i <= |s| && i + 8 <= |s|
      ensures !OccursAt(s, "{player}", i)
    {
      if i < |mid| {
        assert s[i..i + 8][0] == mid[i];
      } else {
        assert s[i..i + 8] == "{reason}";
      }
    }
  }

  /**
    A format of the shape `{player}<mid>{reason}` whose middle text and victim
    name hold no `{` is filled in as name, middle, reason.
   */
  lemma PlayerThenReasonFormat(format: string, mid: string, name: string, reason: string)
    requires format == "{player}" + mid + "{reason}"
    requires '{' !in mid && '{' !in name
    ensures Replace(Replace(format, "{player}", name), "{reason}", reason) == name + mid + reason
  {
    PlayerFilledIn(format, mid, name);
    ReasonFilledIn(name + mid, reason);
  }

  /**
    The announcement for a `{player}<mid>{reason}` format is the victim's
    name, the middle text and the reason, for any cause.
   */
  lemma PlayerThenReasonMessage(config: Config, death: PlayerDeath, mid: string)
    requires "death-format" in config && config["death-format"] == "{player}" + mid + "{reason}"
    requires '{' !in mid && '{' !in death.victimName
    ensures DeathMessage(config, death) == death.victimName + mid + DeathReason(config, death.lastDamage)
  {
    PlayerThenReasonFormat(config["death-format"], mid, death.victimName, DeathReason(config, death.lastDamage));
  }

  lemma PlayerFilledIn(format: string, mid: string, name: string)
    requires format == "{player}" + mid + "{reason}"
    requires '{' !in mid
    ensures Replace(format, "{player}", name) == (name + mid) + "{reason}"
  {
    var tail := mid + "{reason}";
    assert format == "{player}" + tail;
    NoPlayerTokenBeforeReason(mid);
    ReplaceLeadingOccurrence("{player}", tail, name);
    assert name + tail == (name + mid) + "{reason}";
  }

  lemma ReasonFilledIn(head: string, reason: string)
    requires '{' !in head
    ensures Replace(head + "{reason}", "{reason}", reason) == head + reason
  {
    assert head + "{reason}" == head + "{reason}" + [];
    ReplaceAfterPlainPrefix(head, "{reason}", [], reason);
  }

  /**
    The worked example: format "{player} died: {reason}", FALL configured as
    "fell to their doom", victim Alice.
   */
  lemma AliceFellToHerDoom(config: Config, death: PlayerDeath)
    requires "death-format" in config && config["death-format"] == "{player}" + " died: " + "{reason}"
    requires "reasons.fall" in config && config["reasons.fall"] == "fell to their doom"
    requires death == PlayerDeath("Alice", Some(DamageRecord(Fall, None)))
    ensures DeathMessage(config, death) == "Alice" + " died: " + "fell to their doom"
  {
    EnvironmentalCauseYieldsItsReason(config, Fall, None);
    PlayerThenReasonFormat(config["death-format"], " died: ", death.victimName, config["reasons.fall"]);
  }

  /**
    `{player}` is substituted before `{reason}`: a `{player}` inside the reason
    survives.
   */
  lemma PlayerTokenInReasonSurvives(config: Config, death: PlayerDeath)
    requires "death-format" in config && config["death-format"] == "{reason}"
    requires "reasons.fall" in config && config["reasons.fall"] == "{player}"
    requires death == PlayerDeath("Alice", Some(DamageRecord(Fall, None)))
    ensures DeathMessage(config, death) == "{player}"
  {
    var reason := DeathReason(config, death.lastDamage);
    assert reason == "{player}";
    var format := config["death-format"];
    MissingCharacterRulesOutOccurrence(format, "{player}", 1);
    ReplaceWithoutOccurrence(format, "{player}", death.victimName);
    ReplaceWholeString(format, reason);
  }

  /** ... while a victim whose name is `{reason}` has it replaced by the reason. */
  lemma ReasonTokenInNameIsReplaced(config: Config, death: PlayerDeath)
    requires "death-format" in config && config["death-format"] == "{player}"
    requires "reasons.fall" in config && config["reasons.fall"] == "fell"
    requires death == PlayerDeath("{reason}", Some(DamageRecord(Fall, None)))
    ensures DeathMessage(config, death) == "fell"
  {
    var reason := DeathReason(config, death.lastDamage);
    assert reason == "fell";
    var format := config["death-format"];
    ReplaceWholeString(format, death.victimName);
    ReplaceWholeString(death.victimName, reason);
  }
}
