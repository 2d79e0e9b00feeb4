/**
  The death-message resolver of the plugin's `DeathListener`: from the loaded
  messages document, the dead player's name and the player's last damage
  record it computes the death announcement before colour codes are
  translated.
 */
module DeathListener {
  import opened Wrappers
  import opened JavaString
  import opened Messages

  /** The default of the one-argument `getMsg` ("unknown reason"). */
  const UnknownReason: string := "未知原因"

  /**
    The runtime's damage causes. The ones the resolver names have a constructor
    each; every other cause (KILL, WORLD_BORDER, THORNS, ...) is `Other`,
    carrying its enum constant name. That name is never one of the listed
    constants: `Other("FALL")` stands for no cause the runtime produces.
   */
  datatype DamageCause =
    | EntityAttack
    | Projectile
    | Fall
    | Fire
    | FireTick
    | Lava
    | Drowning
    | BlockExplosion
    | EntityExplosion
    | Void
    | Suffocation
    | Starvation
    | Poison
    | Wither
    | Lightning
    | Magic
    | Contact
    | HotFloor
    | Dryout
    | Freeze
    | SonicBoom
    | Other(name: string)

  /**
    An entity as far as the resolver inspects it: its type's enum constant name
    (`SKELETON`, `ARROW`, ...) and what kind of entity it is.
   */
  datatype Entity = Entity(typeName: string, kind: EntityKind)

  /**
    Players and other living entities may carry a custom name (`None` for a
    null one); a projectile has a source; anything else is `OtherEntity`.
   */
  datatype EntityKind =
    | PlayerEntity(name: string, customName: Option<string>)
    | LivingEntity(customName: Option<string>)
    | ProjectileEntity(source: ProjectileSource)
    | OtherEntity

  /** Who launched a projectile: an entity, or something else (a block, or nothing). */
  datatype ProjectileSource = EntityShooter(shooter: Entity) | NonEntityShooter

  /**
    The player's last damage record: its cause, and the damaging entity when the
    record is an entity-by-entity damage event (`None` otherwise).
   */
  datatype DamageRecord = DamageRecord(cause: DamageCause, damager: Option<Entity>)

  /** A player death as the listener receives it. */
  datatype PlayerDeath = PlayerDeath(victimName: string, lastDamage: Option<DamageRecord>)

  /** The one-argument `getMsg(path)`: the value at `path`, or `UnknownReason`. */
  function GetMsg(config: Config, path: string): (r: string)
    ensures path in config ==> r == config[path]
    ensures path !in config ==> r == UnknownReason
  {
    GetString(config, path, UnknownReason)
  }

  /** The two-argument `getMsg(path, def)`: the value at `path`, or `def`. */
  function GetMsgOr(config: Config, path: string, def: string): (r: string)
    ensures path in config ==> r == config[path]
    ensures path !in config ==> r == def
  {
    GetString(config, path, def)
  }

  /** Whether a cause is dispatched straight to a `reasons.*` entry. */
  predicate IsEnvironmental(c: DamageCause)
  {
    !(c.EntityAttack? || c.Projectile? || c.Other?)
  }

  /** The `reasons.*` key that an environmental cause's case of the switch reads. */
  function EnvironmentKey(c: DamageCause): (key: Option<string>)
    ensures key.Some? <==> IsEnvironmental(c)
    ensures key.Some? ==> |key.value| > 8 && key.value[..8] == "reasons."
  {
    match c
    case Fall => Some("reasons.fall")
    case Fire | FireTick => Some("reasons.fire")
    case Lava => Some("reasons.lava")
    case Drowning => Some("reasons.drowning")
    case BlockExplosion | EntityExplosion => Some("reasons.explosion")
    case Void => Some("reasons.void")
    case Suffocation => Some("reasons.suffocation")
    case Starvation => Some("reasons.starvation")
    case Poison => Some("reasons.poison")
    case Wither => Some("reasons.wither")
    case Lightning => Some("reasons.lightning")
    case Magic => Some("reasons.magic")
    case Contact => Some("reasons.contact")
    case HotFloor => Some("reasons.hot_floor")
    case Dryout => Some("reasons.dryout")
    case Freeze => Some("reasons.freeze")
    case SonicBoom => Some("reasons.sonic_boom")
    case EntityAttack | Projectile | Other(_) => None
  }

  /** A living entity (players included) whose custom name is non-null and non-empty. */
  predicate HasCustomName(e: Entity)
  {
    (e.kind.PlayerEntity? || e.kind.LivingEntity?) && e.kind.customName.Some? && e.kind.customName.value != ""
  }

  /**
    `getAttackerName`: the custom name of a living entity, else the configured
    `entities.<TYPE>`, else the lower-cased type name.
   */
  function AttackerName(config: Config, e: Entity): string
  {
    if HasCustomName(e) then e.kind.customName.value
    else GetString(config, "entities." + e.typeName, Lower(e.typeName))
  }

  /** `getProjectileType`: the configured `projectiles.<TYPE>`, else the lower-cased type name. */
  function ProjectileType(config: Config, typeName: string): string
  {
    GetString(config, "projectiles." + typeName, Lower(typeName))
  }

  /** `handleEntityAttack`: the reason for a melee death. */
  function EntityAttackReason(config: Config, damager: Option<Entity>): string
  {
    match damager
    case None => GetMsg(config, "attacks.melee")
    case Some(e) =>
      if e.kind.PlayerEntity? then
        Replace(GetMsg(config, "attacks.player"), "{attacker}", e.kind.name)
      else
        Replace(GetMsg(config, "attacks.mob"), "{attacker}", AttackerName(config, e))
  }

  /** `handleProjectile`: the reason for a death by projectile. */
  function ProjectileReason(config: Config, damager: Option<Entity>): string
  {
    match damager
    case None => GetMsg(config, "attacks.projectile")
    case Some(p) =>
      var projectileType := ProjectileType(config, p.typeName);
      if p.kind.ProjectileEntity? && p.kind.source.EntityShooter? then
        var shooter := p.kind.source.shooter;
        if shooter.kind.PlayerEntity? then
          Replace(Replace(GetMsg(config, "attacks.player_projectile"), "{attacker}", shooter.kind.name),
                  "{projectile}", projectileType)
        else
          Replace(Replace(GetMsg(config, "attacks.mob_projectile"), "{attacker}", AttackerName(config, shooter)),
                  "{projectile}", projectileType)
      else
        GetMsg(config, "attacks.projectile") + " (" + projectileType + ")"
  }

  /** `getDeathReason`: the reason text for the player's last damage record. */
  function DeathReason(config: Config, last: Option<DamageRecord>): string
  {
    match last
    case None => GetMsgOr(config, "unknown", UnknownReason)
    case Some(record) =>
      match record.cause
      case EntityAttack => EntityAttackReason(config, record.damager)
      case Projectile => ProjectileReason(config, record.damager)
      case Other(name) => Replace(GetMsg(config, "unknown_with_cause"), "{cause}", name)
      case _ => GetMsg(config, EnvironmentKey(record.cause).value)
  }

  /**
    `onPlayerDeath` up to the colour pass: `death-format` with every `{player}`
    replaced by the victim's name, then every `{reason}` by the reason. The
    source reads `death-format` without a default and dereferences the result,
    so the key must be present.
   */
  function DeathMessage(config: Config, death: PlayerDeath): string
    requires "death-format" in config
  {
    var reason := DeathReason(config, death.lastDamage);
    Replace(Replace(config["death-format"], "{player}", death.victimName), "{reason}", reason)
  }
}
