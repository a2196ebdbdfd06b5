/**
 * The records of `src/game_objects.rs` that the collision systems use: the
 * player, whose fields the systems change in place, the bullet and its four
 * constructors, the explosion, and the wall-direction draw.
 */
module GameObjects {
  import opened Wrappers
  import opened GameUtils

  /**
   * Everything about a player that the collision systems read or write, as
   * one value. `Player.State()` gives it for a live player object.
   */
  datatype PlayerState = PlayerState(
    name: string,
    lifes: int,
    invulnerable: bool,
    stunned: bool,
    powerup: bool,
    direction: DirectionHelper,
    powerUpType: Option<BulletType>,
    directionBlock: DirectionBlock)

  const InitialLifes: int := 3

  /**
   * A player. `lifes` is the source's `i32` life counter; the collision
   * systems only ever lower it while it is above 1, so it never wraps.
   * The `direction_block` field comes from the later revision that
   * `collision.rs` is written against.
   */
  class Player {
    const name: string
    const size: int
    const speed: real
    var lifes: int
    var invulnerable: bool
    var stunned: bool
    var powerup: bool
    var direction: DirectionHelper
    var powerUpType: Option<BulletType>
    var directionBlock: DirectionBlock

    /** `Player::new`: three lives, no flag set, facing up and right, nothing blocked. */
    constructor (enteredName: string)
      ensures name == enteredName && size == 50 && speed == 2.5
      ensures lifes == InitialLifes && lifes == 3
      ensures !invulnerable && !stunned && !powerup && powerUpType == None
      ensures direction == DirectionHelper(Up, Right)
      ensures directionBlock == Unblocked
    {
      name := enteredName;
      size := 50;
      speed := 2.5;
      lifes := InitialLifes;
      invulnerable := false;
      stunned := false;
      powerup := false;
      direction := DirectionHelper(Up, Right);
      powerUpType := None;
      directionBlock := Unblocked;
    }

    function State(): PlayerState
      reads this
    {
      PlayerState(name, lifes, invulnerable, stunned, powerup, direction, powerUpType, directionBlock)
    }

    /** `decrement_life`: one life fewer, every other field as it was. */
    method DecrementLife()
      modifies this
      ensures lifes == old(lifes) - 1
      ensures State() == old(State()).(lifes := old(lifes) - 1)
    {
      lifes := lifes - 1;
    }
  }

  /**
   * `get_bullet_spawn_position` of a player whose `direction` is `h`: the
   * offset from the player at which its bullet appears, 30 units
   * along each axis the player faces, 0 on an axis whose component is not a
   * direction of that axis.
   */
  function SpawnOffset(h: DirectionHelper): (r: (real, real))
    ensures r.0 == 30.0 <==> h.directionX == Right
    ensures r.0 == -30.0 <==> h.directionX == Left
    ensures r.0 == 0.0 <==> !IsHorizontal(h.directionX)
    ensures r.1 == 30.0 <==> h.directionY == Up
    ensures r.1 == -30.0 <==> h.directionY == Down
    ensures r.1 == 0.0 <==> !IsVertical(h.directionY)
  {
    var x := match h.directionX
      case Right => 30.0
      case Left => -30.0
      case _ => 0.0;
    var y := match h.directionY
      case Up => 30.0
      case Down => -30.0
      case _ => 0.0;
    (x, y)
  }

  /** Turning round on both axes mirrors the spawn point through the player. */
  lemma SpawnOffsetOpposite(h: DirectionHelper)
    ensures var r := SpawnOffset(DirectionHelper(Opposite(h.directionY), Opposite(h.directionX)));
      r == (-SpawnOffset(h).0, -SpawnOffset(h).1)
  {
  }

  /**
   * A bullet. Only `direction` changes after it is fired (a bouncy bullet is
   * reflected). The colour of the sprite is not modelled.
   */
  datatype Bullet = Bullet(
    bulletType: BulletType,
    speed: real,
    areaOfEffect: real,
    stuns: bool,
    bounces: bool,
    direction: DirectionHelper)

  /** The flags and area of a bullet agree with its type tag. */
  predicate WellFormedBullet(b: Bullet)
  {
    && (b.stuns <==> b.bulletType == IceBullet)
    && (b.bounces <==> b.bulletType == BouncyBullet)
    && b.areaOfEffect == (if b.bulletType == ExplosiveBullet then 5.0 else 1.0)
  }

  function NewNormalBullet(directionEntered: DirectionHelper): (b: Bullet)
    ensures b.bulletType == NormalBullet && b.direction == directionEntered
    ensures WellFormedBullet(b) && b.speed == 10.0
  {
    Bullet(NormalBullet, 10.0, 1.0, false, false, directionEntered)
  }

  function NewIceBullet(directionEntered: DirectionHelper): (b: Bullet)
    ensures b.bulletType == IceBullet && b.direction == directionEntered
    ensures WellFormedBullet(b) && b.speed == 20.0
  {
    Bullet(IceBullet, 20.0, 1.0, true, false, directionEntered)
  }

  function NewExplosiveBullet(directionEntered: DirectionHelper): (b: Bullet)
    ensures b.bulletType == ExplosiveBullet && b.direction == directionEntered
    ensures WellFormedBullet(b) && b.speed == 6.0
  {
    Bullet(ExplosiveBullet, 6.0, 5.0, false, false, directionEntered)
  }

  function NewBouncyBullet(directionEntered: DirectionHelper): (b: Bullet)
    ensures b.bulletType == BouncyBullet && b.direction == directionEntered
    ensures WellFormedBullet(b) && b.speed == 15.0
  {
    Bullet(BouncyBullet, 15.0, 1.0, false, true, directionEntered)
  }

  /**
   * `Bullet::bullet_from_enum`: the bullet of the given type travelling in the
   * given direction. The source unwraps its optional argument, so a `None`
   * is outside what it accepts.
   */
  function BulletFromEnum(enteredBulletType: Option<BulletType>, direction: DirectionHelper): (b: Bullet)
    requires enteredBulletType.Some?
    ensures b.bulletType == enteredBulletType.value
    ensures b.direction == direction
    ensures WellFormedBullet(b)
  {
    match enteredBulletType.value
    case NormalBullet => NewNormalBullet(direction)
    case IceBullet => NewIceBullet(direction)
    case ExplosiveBullet => NewExplosiveBullet(direction)
    case BouncyBullet => NewBouncyBullet(direction)
  }

  /** An `Explosion` component: the area left behind by an explosive bullet. */
  datatype Explosion = Explosion(radius: real)

  /** `Wall::convert_int`: 0 is a horizontal wall (Up), 1 a vertical one (Right). */
  function WallDirectionFromInt(number: int): (r: Option<Direction>)
    ensures r.Some? <==> number == 0 || number == 1
    ensures r == Some(Up) <==> number == 0
    ensures r == Some(Right) <==> number == 1
  {
    match number
    case 0 => Some(Up)
    case 1 => Some(Right)
    case _ => None
  }
}
