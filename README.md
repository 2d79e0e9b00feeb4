# Death-message resolver

A model of the death-message resolver of the plugin's `DeathListener`
(`src/main/java/cn/ureyes/plugin/Main.java`). When a player dies, the resolver
works from the loaded `messages.yml` document, the victim's name and the
victim's last damage record, and composes the announcement:

- `getDeathReason` dispatches on the damage cause. Environmental causes read a
  `reasons.*` entry. Melee and projectile deaths are disambiguated by
  `handleEntityAttack` and `handleProjectile`. Any other cause fills `{cause}`
  in `unknown_with_cause`.
- `getAttackerName` and `getProjectileType` resolve display names. The order
  is: a custom name, then an `entities.*` / `projectiles.*` override, then the
  lower-cased type name.
- `onPlayerDeath` fills `death-format`: first every `{player}` with the victim's
  name, then every `{reason}` with the reason.

The model stops at the string handed to the colour-code translation.

Files:

- `Wrappers.dfy`: `Option`, which stands for a Java reference that may be null.
- `Messages.dfy`: the document as a `map<string, string>` and `getString(path, def)`.
- `JavaString.dfy`: `String.indexOf`, `String.replace` and `toLowerCase`.
  `Replace` follows the JDK: copy up to the first occurrence, insert the
  replacement, continue after the occurrence. `ReplaceByScan` is an independent
  character-by-character definition. `ReplaceIsScan` proves the two equal.
- `DeathListener.dfy`: the damage record, entity and death datatypes, plus the
  resolver as pure functions over the document.
- `DeathListenerProperties.dfy`: what the resolver promises, as lemmas over all
  inputs.

Two points of the code that the model keeps as they stand:

- An empty `entities.<TYPE>` override is used as it is, naming the attacker
  `""` (Main.java:177): `getString` returns whatever the path holds.
  `AttackerName` does the same.
- `death-format` is read without a fallback (Main.java:93), so a missing entry
  makes the chained `.replace` fail. `DeathMessage` requires the entry.

## Model

| member | source | states |
|---|---|---|
| Messages.GetString | src/main/java/cn/ureyes/plugin/Main.java:189 | the document's value at a present path, the caller's default at an absent one |
| DeathListener.GetMsg | src/main/java/cn/ureyes/plugin/Main.java:184-186 | one-argument `getMsg`: the value at the path, else "未知原因" |
| DeathListener.GetMsgOr | src/main/java/cn/ureyes/plugin/Main.java:188-190 | two-argument `getMsg`: the value at the path, else the given default |
| DeathListener.EnvironmentKey | src/main/java/cn/ureyes/plugin/Main.java:104-124 | a cause has a `reasons.*` key exactly when it is not ENTITY_ATTACK, PROJECTILE or an unlisted cause; every such key starts with `reasons.` |
| DeathListenerProperties.NoRecordYieldsUnknown | src/main/java/cn/ureyes/plugin/Main.java:100-101 | with no last damage record the reason is the `unknown` entry, else "未知原因" |
| DeathListenerProperties.EnvironmentalCauseYieldsItsReason | src/main/java/cn/ureyes/plugin/Main.java:107-123 | an environmental cause yields exactly its `reasons.*` entry, or "未知原因" when it is missing, whatever the damager |
| DeathListenerProperties.FireTickReadsAsFire | src/main/java/cn/ureyes/plugin/Main.java:108 | FIRE and FIRE_TICK yield the same reason, `reasons.fire` |
| DeathListenerProperties.ExplosionsReadAlike | src/main/java/cn/ureyes/plugin/Main.java:111 | BLOCK_EXPLOSION and ENTITY_EXPLOSION yield the same reason, `reasons.explosion` |
| DeathListenerProperties.ReasonKeyReadsBack | src/main/java/cn/ureyes/plugin/Main.java:107-123 | each environmental cause's key reads back to that cause (FIRE for FIRE_TICK, BLOCK_EXPLOSION for ENTITY_EXPLOSION) |
| DeathListenerProperties.EnvironmentKeysDistinct | src/main/java/cn/ureyes/plugin/Main.java:107-123 | two environmental causes share a `reasons.*` entry if and only if they are the same cause or one of the two fire/explosion pairs |
| DeathListenerProperties.UnknownCauseUsesTemplate | src/main/java/cn/ureyes/plugin/Main.java:124 | an unlisted cause yields `unknown_with_cause` with every `{cause}` replaced by the cause's name |
| DeathListenerProperties.UnknownCauseNamesTheCause | src/main/java/cn/ureyes/plugin/Main.java:124 | when that template mentions `{cause}`, the cause's name appears in the reason |
| DeathListenerProperties.UnknownCauseWithoutTemplate | src/main/java/cn/ureyes/plugin/Main.java:124 | without `unknown_with_cause` an unlisted cause yields "未知原因" unchanged |
| DeathListenerProperties.AttackerNamePrecedence | src/main/java/cn/ureyes/plugin/Main.java:165-178 | a non-null non-empty custom name wins, then `entities.<TYPE>`, then the lower-cased type name |
| DeathListenerProperties.NonLivingIgnoresCustomName | src/main/java/cn/ureyes/plugin/Main.java:167 | a non-living entity is named as a living one of its type without a custom name |
| DeathListenerProperties.ProjectileTypeFallback | src/main/java/cn/ureyes/plugin/Main.java:180-182 | the projectile name is `projectiles.<TYPE>`, else the lower-cased type name |
| DeathListenerProperties.LowerSkeleton | src/main/java/cn/ureyes/plugin/Main.java:177 | `SKELETON` lower-cases to `skeleton` |
| DeathListenerProperties.SkeletonIsNamedSkeleton | src/main/java/cn/ureyes/plugin/Main.java:165-178 | a SKELETON with no custom name and no override is named "skeleton" |
| DeathListenerProperties.MeleeWithoutEntity | src/main/java/cn/ureyes/plugin/Main.java:129 | a melee record that is not entity-caused yields `attacks.melee`, else "未知原因" |
| DeathListenerProperties.PlayerAttackerUsesAccountName | src/main/java/cn/ureyes/plugin/Main.java:134-135 | a player attacker fills `{attacker}` in `attacks.player` with the account name |
| DeathListenerProperties.PlayerMeleeReadsOnlyPlayerTemplate | src/main/java/cn/ureyes/plugin/Main.java:131-135 | a player's melee kill depends only on `attacks.player` and the account name: never on `attacks.mob`, `entities.*` or the player's custom name |
| DeathListenerProperties.MobAttackerUsesResolvedName | src/main/java/cn/ureyes/plugin/Main.java:132-137 | any other attacker fills `{attacker}` in `attacks.mob` with its resolved name |
| DeathListenerProperties.PlayerShooterUsesAccountName | src/main/java/cn/ureyes/plugin/Main.java:152-155 | a player's projectile fills `attacks.player_projectile` with the account name, then the projectile name |
| DeathListenerProperties.PlayerShooterReadsOnlyPlayerTemplate | src/main/java/cn/ureyes/plugin/Main.java:146-155 | a player's projectile kill depends only on `attacks.player_projectile` and the projectile name, never on `attacks.mob_projectile` or `entities.*` |
| DeathListenerProperties.MobShooterUsesResolvedName | src/main/java/cn/ureyes/plugin/Main.java:148-159 | any other entity shooter fills `attacks.mob_projectile` with its resolved name, then the projectile name |
| DeathListenerProperties.ProjectileWithoutEntity | src/main/java/cn/ureyes/plugin/Main.java:141 | a projectile record that is not entity-caused yields the bare `attacks.projectile` |
| DeathListenerProperties.ProjectileWithoutEntityShooter | src/main/java/cn/ureyes/plugin/Main.java:143-162 | a damager that is not a projectile, or has no entity shooter, yields `attacks.projectile` + " (" + projectile name + ")" |
| DeathListenerProperties.FormatWithoutPlaceholders | src/main/java/cn/ureyes/plugin/Main.java:93-95 | a `death-format` without `{player}` and `{reason}` is announced unchanged |
| DeathListenerProperties.ReasonAppearsInMessage | src/main/java/cn/ureyes/plugin/Main.java:93-95 | every format that mentions `{reason}` yields a message containing the reason, whatever else it holds |
| DeathListenerProperties.NoReasonTokenLeft | src/main/java/cn/ureyes/plugin/Main.java:95 | a reason without `{` or `}` and with some character outside `{reason}` leaves no `{reason}` in the message |
| DeathListenerProperties.NoPlayerTokenLeft | src/main/java/cn/ureyes/plugin/Main.java:94-95 | a victim name and a reason without `{` or `}`, each with some character outside `{player}`, leave no `{player}` in the message |
| DeathListenerProperties.NoPlayerTokenBeforeReason | src/main/java/cn/ureyes/plugin/Main.java:94 | text without `{` followed by `{reason}` holds no `{player}` |
| DeathListenerProperties.PlayerThenReasonFormat | src/main/java/cn/ureyes/plugin/Main.java:93-95 | `{player}<mid>{reason}` is filled in as name, mid, reason when neither mid nor name holds `{` |
| DeathListenerProperties.PlayerThenReasonMessage | src/main/java/cn/ureyes/plugin/Main.java:90-95 | for such a format the announcement is the victim's name, the middle text and the reason, for any cause |
| DeathListenerProperties.PlayerFilledIn | src/main/java/cn/ureyes/plugin/Main.java:94 | the `{player}` step on `{player}<mid>{reason}` leaves `{reason}` in place |
| DeathListenerProperties.ReasonFilledIn | src/main/java/cn/ureyes/plugin/Main.java:95 | the `{reason}` step on text without `{` followed by `{reason}` appends the reason |
| DeathListenerProperties.AliceFellToHerDoom | src/main/java/cn/ureyes/plugin/Main.java:90-95 | format "{player} died: {reason}", FALL configured as "fell to their doom", victim Alice: "Alice died: fell to their doom" |
| DeathListenerProperties.PlayerTokenInReasonSurvives | src/main/java/cn/ureyes/plugin/Main.java:94-95 | `{player}` is replaced before `{reason}`, so a `{player}` inside the reason survives |
| DeathListenerProperties.ReasonTokenInNameIsReplaced | src/main/java/cn/ureyes/plugin/Main.java:94-95 | a victim named `{reason}` has that name replaced by the reason |
| JavaString.IndexOfFrom | src/main/java/cn/ureyes/plugin/Main.java:94-95 | the result is an occurrence at or after the start with none before it, or none exists |
| JavaString.IndexOf | src/main/java/cn/ureyes/plugin/Main.java:94-95 | the first occurrence; absent exactly when the target does not occur |
| JavaString.FirstOccurrence | src/main/java/cn/ureyes/plugin/Main.java:94-95 | an occurrence with none before it is the one `indexOf` returns |
| JavaString.ReplaceIsScan | src/main/java/cn/ureyes/plugin/Main.java:94-95 | the indexOf-loop `replace` equals the character-by-character scan on every input |
| JavaString.ReplaceWithoutOccurrence | src/main/java/cn/ureyes/plugin/Main.java:94-95 | a string without the target is returned unchanged |
| JavaString.ReplaceInsertsReplacement | src/main/java/cn/ureyes/plugin/Main.java:124 | where the target occurs, the replacement appears in the result |
| JavaString.MissingCharacterRulesOutOccurrence | src/main/java/cn/ureyes/plugin/Main.java:94-95 | a string lacking one of the target's characters does not contain it |
| JavaString.ReplaceAfterPlainPrefix | src/main/java/cn/ureyes/plugin/Main.java:94-95 | `(a + pat + b).replace(pat, rep) == a + rep + b.replace(pat, rep)` when `a` cannot start `pat` |
| JavaString.ReplaceLeadingOccurrence | src/main/java/cn/ureyes/plugin/Main.java:94 | `(pat + b).replace(pat, rep) == rep + b` when `b` holds no `pat` |
| JavaString.ReplaceWholeString | src/main/java/cn/ureyes/plugin/Main.java:94-95 | the target itself becomes exactly the replacement |
| JavaString.NoOccurrenceAcrossSeparator | src/main/java/cn/ureyes/plugin/Main.java:94-95 | an occurrence cannot straddle a separator that holds neither the target's first nor its last character and has a character outside it |
| JavaString.NoOccurrenceBeforeFirst | src/main/java/cn/ureyes/plugin/Main.java:94-95 | the text before the first occurrence holds none |
| JavaString.ReplaceEliminates | src/main/java/cn/ureyes/plugin/Main.java:94-95 | a replacement holding neither the target's first nor its last character, and some character outside it, leaves no occurrence behind |
| JavaString.ReplaceKeepsAbsent | src/main/java/cn/ureyes/plugin/Main.java:95 | under the same condition on the replacement relative to another target, replacing cannot create that target |
| JavaString.NoOccurrenceInSlice | src/main/java/cn/ureyes/plugin/Main.java:94-95 | a piece of a string without the target holds none |
| JavaString.ReplaceAtFirst | src/main/java/cn/ureyes/plugin/Main.java:94-95 | `replace` copies up to the first occurrence, inserts the replacement and continues after the occurrence |
| JavaString.OccurrencesApart | src/main/java/cn/ureyes/plugin/Main.java:94-95 | two distinct same-length tokens whose first characters appear nowhere else in either never overlap |
| JavaString.ReplaceKeepsOtherToken | src/main/java/cn/ureyes/plugin/Main.java:94-95 | replacing one token keeps every occurrence of another token that cannot overlap it, such as `{reason}` through the `{player}` step |
| JavaString.ScanSkip | src/main/java/cn/ureyes/plugin/Main.java:94-95 | the scan copies a stretch in which the target does not start |
| JavaString.ScanToFirstOccurrence | src/main/java/cn/ureyes/plugin/Main.java:94-95 | the scan copies up to the first occurrence, then replaces it |
| JavaString.Lower | src/main/java/cn/ureyes/plugin/Main.java:177 | same length, each character lower-cased, no upper-case ASCII letter left |

## Left out

- Plugin lifecycle and registration (`onEnable`, `registerEvents`, `getCommand`): host-runtime plumbing.
- `loadMessages` and `reloadConfig`: directory creation, `saveResource` and YAML parsing are disk I/O and a library parser. The document is an input map of string values; non-string YAML values are not modelled.
- A `messages` field still null after a failed first load: the resolver always receives a document.
- `ReloadCommand`: permission check, sender messages and logging, with no computed result.
- `ChatColor.translateAlternateColorCodes` and `event.setDeathMessage`: the model stops at the pre-colour string.
- Logging and `printStackTrace`: output only.
- DeathMessage: requires `death-format` to be present; the source throws a `NullPointerException` when it is absent, and that failure is not modelled.
- Replace: requires a non-empty target. Every call site passes a non-empty placeholder literal, so Java's empty-target behaviour (inserting between all characters) is not modelled.
- Lower: lower-cases ASCII letters only. Enum constant names are ASCII; locale-specific rules and non-ASCII letters are not modelled.
- The resolved attacker name computed at Main.java:132 for a player damager, and the shooter name computed at Main.java:150 for a player shooter, are discarded by the source. The model does not compute them, since reading the document has no effect.
