/**
 * The four systems of `src/collision.rs` as loops over the live player
 * objects, changing them in place as the systems do, each proved to end in
 * the state that the corresponding fold of `CombatRules` describes. The
 * `collide` result of every pair is an input (a contact table), and so is
 * every integer `rand` draws. What the systems queue through `Commands` and
 * `EventWriter` is returned as an `Effects` value.
 */
module CollisionSystems {
  import opened Wrappers
  import opened GameUtils
  import opened GameObjects
  import opened CombatRules

  /** The entities of a player query are distinct objects. */
  predicate DistinctPlayers(players: seq<Player>)
  {
    forall a, b :: 0 <= a < b < |players| ==> players[a] != players[b]
  }

  function PlayerSet(players: seq<Player>): set<Player>
  {
    set p | p in players
  }

  function States(players: seq<Player>): (r: seq<PlayerState>)
    reads PlayerSet(players)
    ensures |r| == |players| && forall k :: 0 <= k < |players| ==> r[k] == players[k].State()
  {
    seq(|players|, k requires 0 <= k < |players| reads PlayerSet(players) => players[k].State())
  }

  /** The players among the colliders of `collision_bullet`'s query. */
  function ColliderPlayers(colliders: seq<Option<Player>>): set<Player>
  {
    set k | 0 <= k < |colliders| && colliders[k].Some? :: colliders[k].value
  }

  predicate DistinctColliders(colliders: seq<Option<Player>>)
  {
    forall a, b :: 0 <= a < b < |colliders| && colliders[a].Some? && colliders[b].Some? ==> colliders[a].value != colliders[b].value
  }

  function ColliderStates(colliders: seq<Option<Player>>): (r: seq<Option<PlayerState>>)
    reads ColliderPlayers(colliders)
    ensures |r| == |colliders|
    ensures forall k :: 0 <= k < |colliders| ==> r[k] == if colliders[k].Some? then Some(colliders[k].value.State()) else None
  {
    seq(|colliders|, k requires 0 <= k < |colliders| reads ColliderPlayers(colliders) =>
      if colliders[k].Some? then Some(colliders[k].value.State()) else None)
  }

  /**
   * The part of `collision_bullet`'s inner loop that concerns the player a
   * bullet of type `t` (index `i` in the bullet query) touched: a bouncy
   * bullet is despawned only when it wounds the player.
   */
  method StrikePlayer(t: BulletType, i: nat, player: Player, fx0: Effects) returns (fx: Effects)
    modifies player
    ensures var h := HitByBullet(t, old(player.State()));
      player.State() == h.state &&
      fx == Record(if t == BouncyBullet && DespawnsOn(t, Some(old(player.State()))) then fx0.Despawn(i) else fx0, h)
  {
    fx := fx0;
    match t
    case NormalBullet =>
      if !player.invulnerable {
        if player.lifes > 1 {
          player.DecrementLife();
          player.stunned := false;
          player.invulnerable := true;
          fx := fx.SpawnTimer(player.name, Invulnerable);
        } else {
          fx := fx.SendPlayerDead();
        }
        fx := fx.SendUpdateUI();
      }
    case IceBullet =>
      if !player.invulnerable && !player.stunned {
        player.stunned := true;
        fx := fx.SpawnTimer(player.name, Stun);
      }
    case ExplosiveBullet =>
    case BouncyBullet =>
      if !player.invulnerable {
        if player.lifes > 1 {
          fx := fx.Despawn(i);
          player.DecrementLife();
          player.stunned := false;
          player.invulnerable := true;
          fx := fx.SpawnTimer(player.name, Invulnerable);
        } else {
          fx := fx.SendPlayerDead();
        }
        fx := fx.SendUpdateUI();
      }
  }

  /**
   * The body of `collision_bullet`'s inner loop: bullet `i`, at `at`, against
   * collider `j`, which `collide` reported on `side`. It changes bullet `i`
   * and the player of collider `j` and nothing else.
   */
  method BulletMeetsCollider(bullets: array<Bullet>, i: nat, at: Vec3, colliders: seq<Option<Player>>, j: nat,
                             side: Option<Collision>, fx0: Effects)
    returns (fx: Effects)
    requires i < bullets.Length && j < |colliders|
    requires DistinctColliders(colliders)
    modifies bullets, ColliderPlayers(colliders)
    ensures var r := BulletContact(BulletWorld(old(bullets[..]), old(ColliderStates(colliders)), fx0), i, j, at, side);
      bullets[..] == r.bullets && ColliderStates(colliders) == r.colliders && fx == r.fx
  {
    fx := fx0;
    if side.Some? {
      var t := bullets[i].bulletType;
      match t {
        case NormalBullet =>
          fx := fx.Despawn(i);
        case IceBullet =>
          fx := fx.Despawn(i);
        case ExplosiveBullet =>
          fx := fx.Despawn(i);
          fx := fx.SpawnExplosion(at);
        case BouncyBullet =>
          var b := bullets[i];
          bullets[i] := b.(direction := Reflect(b.direction, side.value));
      }
      if colliders[j].Some? {
        fx := StrikePlayer(t, i, colliders[j].value, fx);
      }
    }
  }

  /**
   * `collision_bullet`: every bullet against every entity of the collider query
   * (the sprite colliders, such as players and walls; which entities the
   * query yields is an input), in query order. The bullet sees the collider on
   * `contacts[i][j]`; a despawned bullet keeps being tested in the same pass.
   */
  method CollisionBullet(bullets: array<Bullet>, translations: seq<Vec3>, colliders: seq<Option<Player>>, contacts: ContactTable)
    returns (fx: Effects)
    requires |translations| == |contacts| == bullets.Length
    requires Table(contacts, |colliders|)
    requires DistinctColliders(colliders)
    modifies bullets, ColliderPlayers(colliders)
    ensures var r := BulletPass(BulletWorld(old(bullets[..]), old(ColliderStates(colliders)), NoEffects), translations, contacts, bullets.Length);
      bullets[..] == r.bullets && ColliderStates(colliders) == r.colliders && fx == r.fx
  {
    ghost var w0 := BulletWorld(bullets[..], ColliderStates(colliders), NoEffects);
    fx := NoEffects;
    var i := 0;
    while i < bullets.Length
      invariant 0 <= i <= bullets.Length
      invariant var w := BulletPass(w0, translations, contacts, i);
        bullets[..] == w.bullets && ColliderStates(colliders) == w.colliders && fx == w.fx
    {
      ghost var wi := BulletPass(w0, translations, contacts, i);
      var j := 0;
      while j < |colliders|
        invariant 0 <= j <= |colliders|
        invariant var w := ScanColliders(wi, i, translations[i], contacts[i], j);
          bullets[..] == w.bullets && ColliderStates(colliders) == w.colliders && fx == w.fx
      {
        fx := BulletMeetsCollider(bullets, i, translations[i], colliders, j, contacts[i][j], fx);
        j := j + 1;
      }
      i := i + 1;
    }
  }

  /**
   * `collision_explosion`: each player that is not invulnerable at the start of
   * its turn against every explosion. The check is made once per player, so a
   * player is hit by each explosion it overlaps.
   */
  method CollisionExplosion(players: seq<Player>, contacts: ContactTable) returns (fx: Effects)
    requires |contacts| == |players|
    requires DistinctPlayers(players)
    modifies PlayerSet(players)
    ensures var r := ExplosionPass(PlayerWorld(old(States(players)), NoEffects), contacts, |players|);
      States(players) == r.players && fx == r.fx
  {
    ghost var w0 := PlayerWorld(States(players), NoEffects);
    fx := NoEffects;
    var k := 0;
    while k < |players|
      invariant 0 <= k <= |players|
      invariant var w := ExplosionPass(w0, contacts, k); States(players) == w.players && fx == w.fx
    {
      var player := players[k];
      if player.invulnerable {
        k := k + 1;
        continue;
      }
      ghost var wk := ExplosionPass(w0, contacts, k);
      var e := 0;
      while e < |contacts[k]|
        invariant 0 <= e <= |contacts[k]|
        invariant var w := ScanExplosions(wk, k, contacts[k], e); States(players) == w.players && fx == w.fx
      {
        if contacts[k][e].Some? {
          fx := fx.SendUpdateUI();
          if player.lifes > 2 {
            player.lifes := player.lifes - 2;
            player.invulnerable := true;
            fx := fx.SpawnTimer(player.name, Invulnerable);
          } else {
            fx := fx.SendPlayerDead();
          }
        }
        e := e + 1;
      }
      k := k + 1;
    }
  }

  /**
   * `collision_powerup`: every player against every power-up; an overlap sends
   * a UI event, grants the kind `BulletTypeFromInt(draws[k][j])` and despawns
   * the power-up (deferred, so a later player can still pick it up).
   */
  method CollisionPowerup(players: seq<Player>, contacts: ContactTable, draws: seq<seq<int>>) returns (fx: Effects)
    requires |contacts| == |players| && DrawTable(contacts, draws)
    requires DistinctPlayers(players)
    modifies PlayerSet(players)
    ensures var r := PowerupPass(PlayerWorld(old(States(players)), NoEffects), contacts, draws, |players|);
      States(players) == r.players && fx == r.fx
  {
    ghost var w0 := PlayerWorld(States(players), NoEffects);
    fx := NoEffects;
    var k := 0;
    while k < |players|
      invariant 0 <= k <= |players|
      invariant var w := PowerupPass(w0, contacts, draws, k); States(players) == w.players && fx == w.fx
    {
      var player := players[k];
      ghost var wk := PowerupPass(w0, contacts, draws, k);
      var j := 0;
      while j < |contacts[k]|
        invariant 0 <= j <= |contacts[k]|
        invariant var w := ScanPowerups(wk, k, contacts[k], draws[k], j); States(players) == w.players && fx == w.fx
      {
        if contacts[k][j].Some? {
          fx := fx.SendUpdateUI();
          var bulletRandom := draws[k][j];
          player.powerup := true;
          player.powerUpType := BulletTypeFromInt(bulletRandom);
          fx := fx.Despawn(j);
        }
        j := j + 1;
      }
      k := k + 1;
    }
  }

  /**
   * The body of `collision_player`'s outer loop: one player against every wall.
   * A wall reporting a side blocks that direction at once; after the loop,
   * every direction no wall reported is unblocked. Nothing but the movement
   * block changes.
   */
  method BlockByWalls(player: Player, row: seq<Option<Collision>>)
    modifies player
    ensures player.State() == old(player.State()).(directionBlock := ContactBlock(row, |row|))
  {
    var wasCollisionUp, wasCollisionDown, wasCollisionRight, wasCollisionLeft := MarkWalls(player, row);
    if !wasCollisionUp {
      player.directionBlock := player.directionBlock.(up := false);
    }
    if !wasCollisionDown {
      player.directionBlock := player.directionBlock.(down := false);
    }
    if !wasCollisionRight {
      player.directionBlock := player.directionBlock.(right := false);
    }
    if !wasCollisionLeft {
      player.directionBlock := player.directionBlock.(left := false);
    }
  }

  /**
   * The inner loop of `collision_player`: every wall touching the player on a
   * side blocks that direction; the returned flags say which sides some wall
   * touched. Directions no wall touched keep their old block for now.
   */
  method MarkWalls(player: Player, row: seq<Option<Collision>>)
    returns (wasCollisionUp: bool, wasCollisionDown: bool, wasCollisionRight: bool, wasCollisionLeft: bool)
    modifies player
    ensures wasCollisionUp == ContactBlock(row, |row|).up
    ensures wasCollisionDown == ContactBlock(row, |row|).down
    ensures wasCollisionRight == ContactBlock(row, |row|).right
    ensures wasCollisionLeft == ContactBlock(row, |row|).left
    ensures player.directionBlock == DirectionBlock(old(player.directionBlock.up) || wasCollisionUp,
                                                    old(player.directionBlock.down) || wasCollisionDown,
                                                    old(player.directionBlock.right) || wasCollisionRight,
                                                    old(player.directionBlock.left) || wasCollisionLeft)
    ensures player.State() == old(player.State()).(directionBlock := player.directionBlock)
  {
    wasCollisionUp, wasCollisionDown, wasCollisionRight, wasCollisionLeft := false, false, false, false;
    var j := 0;
    while j < |row|
      invariant 0 <= j <= |row|
      invariant wasCollisionUp == ContactBlock(row, j).up
      invariant wasCollisionDown == ContactBlock(row, j).down
      invariant wasCollisionRight == ContactBlock(row, j).right
      invariant wasCollisionLeft == ContactBlock(row, j).left
      invariant player.directionBlock == DirectionBlock(old(player.directionBlock.up) || wasCollisionUp,
                                                        old(player.directionBlock.down) || wasCollisionDown,
                                                        old(player.directionBlock.right) || wasCollisionRight,
                                                        old(player.directionBlock.left) || wasCollisionLeft)
      modifies player`directionBlock
    {
      match row[j] {
        case Some(Right) =>
          player.directionBlock := player.directionBlock.(right := true);
          wasCollisionRight := true;
        case Some(Left) =>
          player.directionBlock := player.directionBlock.(left := true);
          wasCollisionLeft := true;
        case Some(Top) =>
          player.directionBlock := player.directionBlock.(up := true);
          wasCollisionUp := true;
        case Some(Bottom) =>
          player.directionBlock := player.directionBlock.(down := true);
          wasCollisionDown := true;
        case Some(Inside) =>
        case None =>
      }
      j := j + 1;
    }
  }

  /**
   * `collision_player`: each player's movement block recomputed from this
   * pass's wall contacts (row `k` of `contacts`, taken with the player's box
   * widened by the source's margin); nothing else changes.
   */
  method CollisionPlayer(players: seq<Player>, contacts: ContactTable)
    requires |contacts| == |players|
    requires DistinctPlayers(players)
    modifies PlayerSet(players)
    ensures forall k :: 0 <= k < |players| ==>
      players[k].State() == old(players[k].State()).(directionBlock := ContactBlock(contacts[k], |contacts[k]|))
  {
    var k := 0;
    while k < |players|
      invariant 0 <= k <= |players|
      invariant forall a :: 0 <= a < |players| ==>
        players[a].State() == if a < k then old(players[a].State()).(directionBlock := ContactBlock(contacts[a], |contacts[a]|))
                              else old(players[a].State())
    {
      BlockByWalls(players[k], contacts[k]);
      k := k + 1;
    }
  }
}
