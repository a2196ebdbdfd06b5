# stapid collision core in Dafny

This project models how combat is resolved in stapid, a local multiplayer
arena shooter built on Bevy. Each frame, four collision systems run:

- `collision_bullet`: bullets against the sprite colliders, such as walls and players;
- `collision_explosion`: explosions against players;
- `collision_powerup`: power-ups against players;
- `collision_player`: players against walls, which decides which directions a player may not move in.

The systems change player records in place. They queue despawn and spawn
commands and send UI and death events. The model also covers the data types
and small helpers the systems use: players, bullets, directions, bullet kinds
and cooldown timers.

Modules:

- `Wrappers`: `Option`.
- `GameUtils` (`src/game_utils.rs`): `Direction` and `opposite`, `DirectionHelper`,
  `DirectionBlock`, `BulletType` and `convert_int`, `TimerType`, `HitCooldownTimer`.
- `GameObjects` (`src/game_objects.rs`): the `Player` class, whose fields the
  systems change in place, with `Player::new` and `decrement_life`. Also the
  immutable parts: the bullet constructors, `bullet_from_enum`, the spawn
  offset and `Wall::convert_int`.
- `CombatRules`: what each collision does, as a function of a snapshot of the
  world, and what a whole pass does, as a fold of those functions over the
  query rows in order. The lemmas state what one contact or one whole pass
  changes, and what it leaves alone.
- `CollisionSystems`: the four systems as loops over the live `Player` objects
  and an `array` of bullets. Each is proved to end in the state the matching
  `CombatRules` fold describes.

Bevy's `collide` is known only by its results. The model takes them as a
contact table: row `k` holds what `collide` reports for the `k`-th entity of
the outer query against each entity of the inner query, `None` when they do
not overlap. The integers `rand` draws are inputs in the same way. The
`Commands` and `EventWriter` traffic becomes an `Effects` value:

- the set of despawned query indices (despawn in Bevy is deferred, so a
  despawned bullet or power-up is still met by later colliders in the same pass);
- the list of spawned `HitCooldownTimer` records, each named after its player,
  with its kind and its two-second duration;
- the list of spawned explosions, with where they appear;
- counters of UI refresh events and player-dead events.

Points where the behaviour of the code is easy to misread:

- A normal bullet that reaches a vulnerable player with one life left sends a
  UI event as well as the death event. The event is sent after the
  `lifes > 1` branch at `src/collision.rs:172`. The same holds for bouncy
  bullets at `src/collision.rs:258`.
- There is no bounce budget. A bouncy bullet is despawned only after
  wounding a player who keeps at least one life (`src/collision.rs:246`). It is
  not despawned in the lethal branch.
- Despawn is deferred: a despawned bullet keeps meeting the remaining
  colliders in the same pass.
- `collision.rs` reads `player.direction_block`, which the `Player` of
  `src/game_objects.rs:9-20` lacks; the two files come from different
  revisions. The modelled `Player` carries a `DirectionBlock`, and `Player::new`
  initialises it to all false.

## Model

| member | source | states |
|---|---|---|
| GameUtils.Opposite | src/game_utils.rs:13-21 | the opposite direction stays on the same axis (vertical stays vertical, horizontal stays horizontal), and a direction is its own opposite exactly when it is `None` |
| GameUtils.OppositeInvolution | src/game_utils.rs:13-21 | taking the opposite twice gives back the direction |
| GameUtils.BulletTypeFromInt | src/game_utils.rs:86-94 | the result is `Some` exactly for 0, 1 and 2, which give Ice, Explosive and Bouncy respectively; it is never the normal bullet |
| GameUtils.BulletTypeFromIntOnto | src/game_utils.rs:86-94 | every special bullet kind is produced by exactly one integer in 0..=2, the range `collision_powerup` draws from |
| GameObjects.Player.constructor | src/game_objects.rs:50-82 | a new player has three lives, size 50, speed 2.5, faces up and right, has no flag set and no power-up kind, and is blocked in no direction |
| GameObjects.Player.DecrementLife | src/game_objects.rs:84-86 | lives go down by exactly one and no other field of the player changes |
| GameObjects.SpawnOffset | src/game_objects.rs:88-100 | the x offset is 30 exactly for Right, -30 exactly for Left and 0 exactly for a non-horizontal component; the y offset is 30, -30 and 0 in the same way for Up, Down and non-vertical |
| GameObjects.SpawnOffsetOpposite | src/game_objects.rs:88-100 | turning round on both axes mirrors the spawn point through the player |
| GameObjects.NewNormalBullet | src/game_objects.rs:118-128 | a normal bullet in the given direction, at speed 10, neither stunning nor bouncing, with area 1 |
| GameObjects.NewIceBullet | src/game_objects.rs:130-140 | an ice bullet in the given direction, at speed 20; it stuns and its area is 1 |
| GameObjects.NewExplosiveBullet | src/game_objects.rs:142-152 | an explosive bullet in the given direction, at speed 6, with area 5 |
| GameObjects.NewBouncyBullet | src/game_objects.rs:154-164 | a bouncy bullet in the given direction, at speed 15; it bounces and its area is 1 |
| GameObjects.BulletFromEnum | src/game_objects.rs:104-116 | given a present kind (the source unwraps), the bullet has that kind and that direction; it stuns exactly when it is ice and bounces exactly when it is bouncy; its area is 5 exactly when it is explosive and 1 otherwise |
| GameObjects.WallDirectionFromInt | src/game_objects.rs:287-293 | 0 gives Up, 1 gives Right, every other integer gives `None` |
| CombatRules.HitByBullet | src/collision.rs:152-259 | one bullet on one player changes only lives, invulnerability and stun. An invulnerable player is untouched, with no timer or event. An explosive bullet does nothing to the player. Ice stuns, with one Stun timer, exactly a player that is neither invulnerable nor stunned. A wounding hit with more than one life left takes exactly one life, clears stun, sets invulnerability, arms one Invulnerable timer and sends a UI event. With one life or fewer, it sends the death event and the UI event and changes nothing |
| CombatRules.IceHitIdempotent | src/collision.rs:180-187 | a second ice hit on a player the first one stunned changes nothing and arms nothing |
| CombatRules.Reflect | src/collision.rs:230-240 | a left or right contact flips the horizontal component and keeps the vertical one; every other side flips the vertical one and keeps the horizontal one |
| CombatRules.ReflectTwice | src/collision.rs:230-240 | two contacts on the same side restore the bullet's direction |
| CombatRules.BulletContact | src/collision.rs:151-262 | one bullet meeting one collider. The bullet and collider counts stay the same, and a collider is a player before exactly when it is one after. The contact lemmas below state each branch, `NonPlayerContact` the no-overlap and non-player cases |
| CombatRules.BulletPass | src/collision.rs:141-266 | the bullet pass as a fold, bullet by bullet in query order and each against every collider. The bullet and collider counts stay the same; `BulletPassLosesAtMostOneLife` and `BulletPassDespawnsAndReflects` state what it does |
| CombatRules.WoundingContact | src/collision.rs:153-258 | a normal or bouncy bullet on a vulnerable player with more than one life: that player alone loses one life, loses the stun and becomes invulnerable. Exactly one Invulnerable timer with the player's name is appended, one UI event is sent, no death event, no explosion, and the bullet is despawned |
| CombatRules.LethalContact | src/collision.rs:153-258 | a normal or bouncy bullet on a vulnerable player with one life or fewer: no player changes and no timer is armed. One death event and one UI event are sent. The bullet is despawned exactly when it is a normal one |
| CombatRules.NonPlayerContact | src/collision.rs:151-155 | a contact that reaches no player: without an overlap nothing changes; on a wall or other non-player collider no player changes and no timer, UI event or death event is produced, and a normal bullet is only despawned |
| CombatRules.InvulnerableContact | src/collision.rs:155-189 | any bullet on an invulnerable player changes no player and produces no timer, UI event or death event |
| CombatRules.IceContact | src/collision.rs:176-190 | an ice bullet is despawned on every contact and never changes lives or sends events. It stuns, with one Stun timer, only a player neither invulnerable nor stunned |
| CombatRules.ExplosiveContact | src/collision.rs:191-227 | an explosive bullet is despawned on every contact. It queues exactly one explosion of radius 50 at the bullet's translation and changes no bullet, no player and no timer or event |
| CombatRules.BouncyContact | src/collision.rs:229-261 | a bouncy bullet is reflected on every contact, walls included. It is despawned exactly when it meets a vulnerable player with more than one life. A contact with a non-player changes nothing else |
| CombatRules.BulletPassLosesAtMostOneLife | src/collision.rs:141-266 | over a whole bullet pass, each player loses at most one life, however many bullets hit it. A player with lives keeps at least one, an invulnerable player does not change at all, and only lives and flags change; colliders that are not players stay so |
| CombatRules.BulletPassDespawnsAndReflects | src/collision.rs:141-266 | over a whole bullet pass, a normal, ice or explosive bullet is despawned exactly when it touched something. A bouncy bullet that touched no player is not despawned. A bouncy bullet ends with the reflections of all its contacts, in order, and every other bullet keeps its direction. Nothing outside the bullet query is despawned |
| CombatRules.ExplosionHit | src/collision.rs:30-44 | one explosion on a player sends a UI event. With more than two lives left it takes two, sets invulnerability and arms one Invulnerable timer; otherwise it sends the death event and changes nothing |
| CombatRules.ExplosionTakes | src/collision.rs:33-43 | of `c` explosions met in one pass, the number that take lives is at most `c`; it is 0 from two lives or fewer, and `c` while more than `2c` lives are left |
| CombatRules.ExplosionLifesStep | src/collision.rs:33-43 | the next explosion takes two lives exactly when more than two are left after the earlier ones, and then it counts among those that take lives |
| CombatRules.ExplosionLifesBounds | src/collision.rs:33-43 | explosions never add lives and never take the last one. While the lives last, each overlap takes two. The lives lost are exactly two per overlap that takes lives |
| CombatRules.ScanExplosionsEffect | src/collision.rs:23-45 | one player against all explosions: each overlap is applied, even after the first has made the player invulnerable. Each overlap sends one UI event. The overlaps that find more than two lives left (`ExplosionTakes` of them) each append one Invulnerable timer with the player's name, and every other overlap sends one death event. No other player changes, nothing is despawned and no explosion is spawned |
| CombatRules.ExplosionPass | src/collision.rs:19-46 | the explosion pass as a fold, player by player: a player invulnerable at the start of its turn is skipped, and any other one meets every explosion. The player count stays the same; `ExplosionPassOutcome` states what the fold does |
| CombatRules.ExplosionPassOutcome | src/collision.rs:19-46 | over a whole explosion pass, an invulnerable player is skipped. Any other player loses two lives per overlapping explosion while more than two are left, and becomes invulnerable if one of them took lives. Nothing else about the player changes and it never loses its last life. One UI event is sent per overlap of a non-invulnerable player. Exactly the overlaps that take lives arm a timer (`VulnerableTakes` of them), and every other such overlap sends one death event |
| CombatRules.PowerupContact | src/collision.rs:63-70 | without an overlap nothing happens. With one, the player holds a power-up whose kind is `BulletTypeFromInt` of the draw, a special kind for a draw in 0..=2, and nothing else about it changes. That power-up is despawned and one UI event is sent. No other player, timer, death event or explosion changes |
| CombatRules.PowerupPass | src/collision.rs:55-72 | the power-up pass as a fold, player by player, each against every power-up. The player count stays the same; `PowerupPassOutcome` states what the fold does |
| CombatRules.LastContact | src/collision.rs:56-70 | the last power-up a player overlaps: none exactly when there is no overlap; otherwise an overlapped index with no overlap after it |
| CombatRules.ScanPowerupsEffect | src/collision.rs:56-70 | one player against all power-ups: the player's power-up kind comes from the draw at its last overlap. Every overlapped power-up is despawned and one UI event is sent per overlap |
| CombatRules.PickedUp | src/collision.rs:55-72 | a power-up is in the set exactly when some player overlaps it |
| CombatRules.PowerupPassOutcome | src/collision.rs:55-72 | over a whole power-up pass, a player overlapping nothing is unchanged. A player that overlaps something holds a power-up whose kind is `BulletTypeFromInt` of the draw at the last power-up it overlaps (`PowerupOutcome`), a special kind whenever the draws are in 0..=2, and nothing else about it changes. A power-up is despawned exactly when some player overlapped it; several players overlapping one power-up are all granted it. One UI event is sent per overlap, and no timer or death event |
| CombatRules.ContactBlock | src/collision.rs:84-125 | each of up, down, right and left is blocked exactly when some wall reports Top, Bottom, Right or Left respectively; `Inside` blocks nothing |
| CollisionSystems.StrikePlayer | src/collision.rs:155-259 | the player-side branch of a bullet contact, done in place, ends in the state `HitByBullet` gives and queues its timer and events. A bouncy bullet is despawned only when it wounds |
| CollisionSystems.BulletMeetsCollider | src/collision.rs:145-263 | one bullet against one collider, done in place on the bullet array and the player objects, ends where `BulletContact` says |
| CollisionSystems.CollisionBullet | src/collision.rs:129-266 | the bullet system leaves the bullets, the players and the effects where the bullet-pass fold says, which the two pass lemmas above characterise |
| CollisionSystems.CollisionExplosion | src/collision.rs:11-47 | the explosion system, checking invulnerability once per player and skipping with `continue`, ends where the explosion-pass fold says |
| CollisionSystems.CollisionPowerup | src/collision.rs:49-73 | the power-up system ends where the power-up-pass fold says |
| CollisionSystems.MarkWalls | src/collision.rs:84-112 | the wall loop returns, for each side, whether some wall reported it. It sets the matching blocks and leaves the rest of the player as it was |
| CollisionSystems.BlockByWalls | src/collision.rs:80-125 | afterwards a player's movement block is exactly the walls' contact sides: directions no wall reported are cleared. Nothing else about the player changes |
| CollisionSystems.CollisionPlayer | src/collision.rs:75-127 | every player's movement block is recomputed from its wall contacts, and nothing else about any player changes |

## Left out

- `collide` (Bevy's AABB test on `f32` vectors) is an input. So are the +1.15 margin on the player's box for walls and the explosion sprite's 150-unit scale, which only feed that test.
- The `rand` draws are inputs: the power-up kind at `src/collision.rs:66`. `PowerUp::generate_random_position` and `Wall::new_random_wall` are not modelled: they place entities at random `f32` positions.
- Sprite and texture loads, `get_direction_sprite`, the explosion's `TextureAtlas` and `AnimationTimer` are left out; they only affect rendering.
- Timer ticking and expiry happen in a system that is not part of this model. Only the creation of `HitCooldownTimer` records is modelled; the `Duration` is kept as a whole number of seconds.
- `Wall::new` is left out: it places walls using constants from `crate::constants`, which is not part of this model.
- Player `Bindings` (key codes) are input configuration and are not modelled. Neither are the bullet `color` and the `Name` component.
- GameObjects.Player.DecrementLife: lives are unbounded integers; the `i32` wrap-around of `lifes -= 1` is not modelled, because lives start at 3 and the systems only decrement them while more than one or two are left.
- Entity identities are query indices. Despawned entities are recorded in a set and removed from nothing, as Bevy applies despawns after the system.
- The `Commands` and `EventWriter` traffic is modelled by counts per kind and lists of spawns. The relative order of different kinds of commands is not modelled.
- The systems' `Player` objects must be distinct, as Bevy's queries guarantee. The bullet system's colliders that are not players are represented by `None`.
- Which entities each query yields is an input. The bullet system's collider query asks for a sprite `Handle<Image>`, so it never yields an explosion, whose sprite sheet carries a texture atlas instead.
- `src/level1.rs`, `src/main.rs` and `assets/scripts/resize.py` are not part of this model: they are a level table, app setup and an image script.
