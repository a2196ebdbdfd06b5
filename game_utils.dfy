/**
 * The plain data declarations of `src/game_utils.rs`: directions, the
 * four-way movement block, bullet and timer kinds, and the two `match`
 * conversions defined there.
 */
module GameUtils {
  import opened Wrappers

  /** One axis of a facing or travel direction; `NoDirection` is the source's `Direction::None`. */
  datatype Direction = Up | Down | Right | Left | NoDirection

  predicate IsVertical(d: Direction) { d == Up || d == Down }

  predicate IsHorizontal(d: Direction) { d == Right || d == Left }

  /** `Direction::opposite`: the other direction on the same axis. */
  function Opposite(d: Direction): (r: Direction)
    ensures IsVertical(r) <==> IsVertical(d)
    ensures IsHorizontal(r) <==> IsHorizontal(d)
    ensures r == d <==> d == NoDirection
  {
    match d
    case Up => Down
    case Down => Up
    case Right => Left
    case Left => Right
    case NoDirection => NoDirection
  }

  /** Taking the opposite twice gives the direction back. */
  lemma OppositeInvolution(d: Direction)
    ensures Opposite(Opposite(d)) == d
  {
  }

  /** A two-axis direction: `direction_y` for the vertical axis, `direction_x` for the horizontal one. */
  datatype DirectionHelper = DirectionHelper(directionY: Direction, directionX: Direction)

  /** One flag per cardinal direction: movement that way is blocked by a wall. */
  datatype DirectionBlock = DirectionBlock(up: bool, down: bool, right: bool, left: bool)

  const Unblocked := DirectionBlock(false, false, false, false)

  datatype BulletType = NormalBullet | IceBullet | ExplosiveBullet | BouncyBullet

  /** The kinds of hit cooldown; these are the only two the source declares. */
  datatype TimerType = Invulnerable | Stun

  /**
   * A `HitCooldownTimer` record: a one-shot timer of `durationSecs` seconds
   * naming the player whose flag it clears when it fires.
   */
  datatype HitCooldownTimer = HitCooldownTimer(durationSecs: nat, associatedPlayer: string, timerType: TimerType)

  /**
   * `BulletType::convert_int`: the power-up kind for a drawn integer.
   * Exactly 0, 1 and 2 give a kind, and never the normal bullet.
   */
  function BulletTypeFromInt(number: int): (r: Option<BulletType>)
    ensures r.Some? <==> 0 <= number <= 2
    ensures r != Some(NormalBullet)
    ensures r == Some(IceBullet) <==> number == 0
    ensures r == Some(ExplosiveBullet) <==> number == 1
    ensures r == Some(BouncyBullet) <==> number == 2
  {
    match number
    case 0 => Some(IceBullet)
    case 1 => Some(ExplosiveBullet)
    case 2 => Some(BouncyBullet)
    case _ => None
  }

  /** Every special bullet kind is drawn by exactly one integer of 0..=2. */
  lemma BulletTypeFromIntOnto(t: BulletType)
    requires t != NormalBullet
    ensures exists n :: 0 <= n <= 2 && BulletTypeFromInt(n) == Some(t)
    ensures forall a, b :: BulletTypeFromInt(a) == BulletTypeFromInt(b) == Some(t) ==> a == b
  {
    match t
    case IceBullet => assert BulletTypeFromInt(0) == Some(t);
    case ExplosiveBullet => assert BulletTypeFromInt(1) == Some(t);
    case BouncyBullet => assert BulletTypeFromInt(2) == Some(t);
  }
}
