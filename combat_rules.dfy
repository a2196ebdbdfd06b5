/**
 * The rules applied by the collision systems of `src/collision.rs`, as
 * values: what one contact does to a player, a bullet and the queued
 * commands and events, and what a whole pass of a system does, as a fold of
 * those contacts in the order the systems' loops visit them. The systems
 * themselves (the loops that change players in place) are in
 * `CollisionSystems`, proved against these folds.
 */
module CombatRules {
  import opened Wrappers
  import opened GameUtils
  import opened GameObjects

  /**
   * The result of Bevy's `collide(a_pos, a_size, b_pos, b_size)` when the two
   * boxes overlap: the side of the second box that the first one touches.
   * The geometry itself is not modelled; every system takes its results as
   * a contact table.
   */
  datatype Collision = Left | Right | Top | Bottom | Inside

  /** A contact table: row `k` holds the `collide` results of query item `k` against each collider. */
  type ContactTable = seq<seq<Option<Collision>>>

  /** The number of overlaps among the first `n` entries of a row. */
  function CountBefore(row: seq<Option<Collision>>, n: nat): nat
    requires n <= |row|
  {
    if n == 0 then 0 else CountBefore(row, n - 1) + (if row[n - 1].Some? then 1 else 0)
  }

  /** A `Transform` translation; it is only carried from a bullet to the explosion it leaves. */
  datatype Vec3 = Vec3(x: real, y: real, z: real)

  /** An explosion entity queued by `commands.spawn`, with its position and `Explosion` component. */
  datatype ExplosionSpawn = ExplosionSpawn(translation: Vec3, explosion: Explosion)

  /** `Duration::from_secs(2)`: the length of every hit cooldown timer. */
  const HitCooldownSecs: nat := 2

  /** The radius of the `Explosion` an explosive bullet leaves. */
  const ExplosionRadius: real := 50.0

  /**
   * What a system queues while it runs: `despawn` commands (by index in the
   * system's own query), spawned `HitCooldownTimer`s and explosions, in
   * order, and the number of `UpdateUIEvent`s and `PlayerDeadEvent`s sent
   * (both events carry no data). Despawns are deferred: marking an entity
   * does not take it out of the loop that marked it.
   */
  datatype Effects = Effects(
    despawned: set<nat>,
    timers: seq<HitCooldownTimer>,
    explosions: seq<ExplosionSpawn>,
    uiEvents: nat,
    deadEvents: nat)
  {
    function Despawn(e: nat): Effects
    {
      this.(despawned := despawned + {e})
    }

    function SpawnTimer(player: string, kind: TimerType): Effects
    {
      this.(timers := timers + [HitCooldownTimer(HitCooldownSecs, player, kind)])
    }

    function SpawnExplosion(at: Vec3): Effects
    {
      this.(explosions := explosions + [ExplosionSpawn(at, Explosion(ExplosionRadius))])
    }

    function SendUpdateUI(): Effects
    {
      this.(uiEvents := uiEvents + 1)
    }

    function SendPlayerDead(): Effects
    {
      this.(deadEvents := deadEvents + 1)
    }
  }

  const NoEffects := Effects({}, [], [], 0, 0)

  /** What one hit does on the player's side: the player afterwards, the timer it arms, the events it sends. */
  datatype Hit = Hit(state: PlayerState, timer: Option<TimerType>, uiEvent: bool, deadEvent: bool)

  /** A hit that leaves the player as it is and produces nothing. */
  function NoHit(p: PlayerState): Hit
  {
    Hit(p, None, false, false)
  }

  /** Queue a hit's timer (named after the player) and its events. */
  function Record(fx: Effects, h: Hit): Effects
  {
    var withTimer := if h.timer.Some? then fx.SpawnTimer(h.state.name, h.timer.value) else fx;
    var withUI := if h.uiEvent then withTimer.SendUpdateUI() else withTimer;
    if h.deadEvent then withUI.SendPlayerDead() else withUI
  }

  /** Normal and bouncy bullets are the two that wound. */
  predicate Wounds(t: BulletType)
  {
    t == NormalBullet || t == BouncyBullet
  }

  /**
   * A bullet of type `t` touching player `p`. Only `lifes`, `invulnerable`
   * and `stunned` can change. An invulnerable player is immune to every
   * kind; an explosive bullet does nothing to the player it touches; an ice
   * bullet stuns a player that is neither invulnerable nor stunned and
   * never costs a life; a wounding bullet costs a vulnerable player one life
   * (clearing the stun and arming invulnerability) while more than one is
   * left, and otherwise reports the player dead and changes nothing. Every
   * wounding bullet that reaches a vulnerable player refreshes the UI.
   */
  function HitByBullet(t: BulletType, p: PlayerState): (h: Hit)
    ensures h.state == p.(lifes := h.state.lifes, invulnerable := h.state.invulnerable, stunned := h.state.stunned)
    ensures p.invulnerable ==> h == NoHit(p)
    ensures t == ExplosiveBullet ==> h == NoHit(p)
    ensures t == IceBullet ==>
      if !p.invulnerable && !p.stunned then h == Hit(p.(stunned := true), Some(Stun), false, false) else h == NoHit(p)
    ensures Wounds(t) && !p.invulnerable && p.lifes > 1 ==>
      h == Hit(p.(lifes := p.lifes - 1, stunned := false, invulnerable := true), Some(Invulnerable), true, false)
    ensures Wounds(t) && !p.invulnerable && p.lifes <= 1 ==> h == Hit(p, None, true, true)
    ensures p.lifes - 1 <= h.state.lifes <= p.lifes
    ensures h.deadEvent ==> h.state == p && h.timer.None?
  {
    match t
    case NormalBullet | BouncyBullet =>
      if p.invulnerable then NoHit(p)
      else if p.lifes > 1 then
        Hit(p.(lifes := p.lifes - 1, stunned := false, invulnerable := true), Some(Invulnerable), true, false)
      else
        Hit(p, None, true, true)
    case IceBullet =>
      if !p.invulnerable && !p.stunned then Hit(p.(stunned := true), Some(Stun), false, false) else NoHit(p)
    case ExplosiveBullet => NoHit(p)
  }

  /** A second ice hit on the player it just stunned changes nothing and arms nothing. */
  lemma IceHitIdempotent(p: PlayerState)
    ensures var once := HitByBullet(IceBullet, p).state;
      HitByBullet(IceBullet, once) == NoHit(once)
  {
  }

  /**
   * A bouncy bullet's new direction after touching something on `side`:
   * a left or right contact turns it round horizontally, any other side
   * (top, bottom or inside) vertically.
   */
  function Reflect(d: DirectionHelper, side: Collision): (r: DirectionHelper)
    ensures side == Collision.Left || side == Collision.Right ==>
      r.directionX == Opposite(d.directionX) && r.directionY == d.directionY
    ensures side != Collision.Left && side != Collision.Right ==>
      r.directionY == Opposite(d.directionY) && r.directionX == d.directionX
  {
    match side
    case Left | Right => DirectionHelper(d.directionY, Opposite(d.directionX))
    case _ => DirectionHelper(Opposite(d.directionY), d.directionX)
  }

  /** Two contacts on the same side bring a bouncy bullet back to its direction. */
  lemma ReflectTwice(d: DirectionHelper, side: Collision)
    ensures Reflect(Reflect(d, side), side) == d
  {
    OppositeInvolution(d.directionX);
    OppositeInvolution(d.directionY);
  }

  // ---------------------------------------------------------------------
  // collision_bullet
  // ---------------------------------------------------------------------

  /**
   * The state `collision_bullet` works on: the bullets (by query index), the
   * colliders (a player, or `None` for any other sprite collider, such as a
   * wall or a power-up), and
   * what has been queued.
   */
  datatype BulletWorld = BulletWorld(bullets: seq<Bullet>, colliders: seq<Option<PlayerState>>, fx: Effects)

  /**
   * Whether a bullet of type `t` is despawned on touching `c`: every type but
   * the bouncy one always is; a bouncy bullet only when it wounds a player
   * without killing it.
   */
  predicate DespawnsOn(t: BulletType, c: Option<PlayerState>)
  {
    t != BouncyBullet || (c.Some? && !c.value.invulnerable && c.value.lifes > 1)
  }

  /** Bullet `i` meeting collider `j` on `side` (`None`: no overlap), the bullet being at `at`. */
  function BulletContact(w: BulletWorld, i: nat, j: nat, at: Vec3, side: Option<Collision>): (r: BulletWorld)
    requires i < |w.bullets| && j < |w.colliders|
    ensures |r.bullets| == |w.bullets| && |r.colliders| == |w.colliders|
    ensures forall k :: 0 <= k < |w.colliders| ==> (r.colliders[k].Some? <==> w.colliders[k].Some?)
  {
    if side.None? then w
    else
      var b := w.bullets[i];
      var bullets := if b.bulletType == BouncyBullet then w.bullets[i := b.(direction := Reflect(b.direction, side.value))] else w.bullets;
      var despawned := if DespawnsOn(b.bulletType, w.colliders[j]) then w.fx.Despawn(i) else w.fx;
      var fx := if b.bulletType == ExplosiveBullet then despawned.SpawnExplosion(at) else despawned;
      match w.colliders[j]
      case None => BulletWorld(bullets, w.colliders, fx)
      case Some(p) =>
        var h := HitByBullet(b.bulletType, p);
        BulletWorld(bullets, w.colliders[j := Some(h.state)], Record(fx, h))
  }

  /** Bullet `i` tested against the first `n` colliders, in query order. */
  function ScanColliders(w: BulletWorld, i: nat, at: Vec3, row: seq<Option<Collision>>, n: nat): (r: BulletWorld)
    requires i < |w.bullets| && |row| == |w.colliders| && n <= |row|
    ensures |r.bullets| == |w.bullets| && |r.colliders| == |w.colliders|
    ensures forall k :: 0 <= k < |w.colliders| ==> (r.colliders[k].Some? <==> w.colliders[k].Some?)
  {
    if n == 0 then w else BulletContact(ScanColliders(w, i, at, row, n - 1), i, n - 1, at, row[n - 1])
  }

  predicate Table(contacts: ContactTable, columns: nat)
  {
    forall k :: 0 <= k < |contacts| ==> |contacts[k]| == columns
  }

  /** The first `m` bullets, each tested against every collider: `collision_bullet`'s two loops. */
  function BulletPass(w: BulletWorld, translations: seq<Vec3>, contacts: ContactTable, m: nat): (r: BulletWorld)
    requires |translations| == |contacts| == |w.bullets| && m <= |w.bullets|
    requires Table(contacts, |w.colliders|)
    ensures |r.bullets| == |w.bullets| && |r.colliders| == |w.colliders|
    ensures forall k :: 0 <= k < |w.colliders| ==> (r.colliders[k].Some? <==> w.colliders[k].Some?)
  {
    if m == 0 then w
    else
      var before := BulletPass(w, translations, contacts, m - 1);
      ScanColliders(before, m - 1, translations[m - 1], contacts[m - 1], |contacts[m - 1]|)
  }

  // --- single contacts -------------------------------------------------

  /**
   * A wounding bullet on a vulnerable player with more than one life: one life
   * fewer, stun cleared, invulnerable, exactly one `Invulnerable` timer for
   * that player and one UI event; nothing else about the colliders, no death.
   */
  lemma WoundingContact(w: BulletWorld, i: nat, j: nat, at: Vec3, side: Collision)
    requires i < |w.bullets| && j < |w.colliders|
    requires Wounds(w.bullets[i].bulletType) && w.colliders[j].Some?
    requires !w.colliders[j].value.invulnerable && w.colliders[j].value.lifes > 1
    ensures var p := w.colliders[j].value;
      var r := BulletContact(w, i, j, at, Some(side));
      && r.colliders == w.colliders[j := Some(p.(lifes := p.lifes - 1, stunned := false, invulnerable := true))]
      && r.fx.timers == w.fx.timers + [HitCooldownTimer(HitCooldownSecs, p.name, Invulnerable)]
      && r.fx.uiEvents == w.fx.uiEvents + 1 && r.fx.deadEvents == w.fx.deadEvents
      && r.fx.explosions == w.fx.explosions
      && r.fx.despawned == w.fx.despawned + {i}
  {
  }

  /**
   * A wounding bullet on a vulnerable player with one life or fewer: one death
   * event and one UI event, the player and the timers untouched; the normal
   * bullet is despawned, the bouncy one is not.
   */
  lemma LethalContact(w: BulletWorld, i: nat, j: nat, at: Vec3, side: Collision)
    requires i < |w.bullets| && j < |w.colliders|
    requires Wounds(w.bullets[i].bulletType) && w.colliders[j].Some?
    requires !w.colliders[j].value.invulnerable && w.colliders[j].value.lifes <= 1
    ensures var r := BulletContact(w, i, j, at, Some(side));
      && r.colliders == w.colliders
      && r.fx.timers == w.fx.timers
      && r.fx.deadEvents == w.fx.deadEvents + 1 && r.fx.uiEvents == w.fx.uiEvents + 1
      && (i in r.fx.despawned <==> i in w.fx.despawned || w.bullets[i].bulletType == NormalBullet)
  {
  }

  /**
   * A contact that reaches no player: no overlap changes nothing at all, and
   * a bullet touching a wall or another non-player collider arms no timer,
   * sends no event and changes no player; a normal bullet there is only
   * despawned.
   */
  lemma NonPlayerContact(w: BulletWorld, i: nat, j: nat, at: Vec3, side: Option<Collision>)
    requires i < |w.bullets| && j < |w.colliders|
    requires side.None? || w.colliders[j].None?
    ensures var r := BulletContact(w, i, j, at, side);
      && r.colliders == w.colliders
      && r.fx.timers == w.fx.timers
      && r.fx.uiEvents == w.fx.uiEvents && r.fx.deadEvents == w.fx.deadEvents
      && (side.None? ==> r == w)
      && (side.Some? && w.bullets[i].bulletType == NormalBullet ==> r == w.(fx := w.fx.Despawn(i)))
  {
  }

  /** An invulnerable player is left as it is by every bullet, with no timer and no event. */
  lemma InvulnerableContact(w: BulletWorld, i: nat, j: nat, at: Vec3, side: Collision)
    requires i < |w.bullets| && j < |w.colliders|
    requires w.colliders[j].Some? && w.colliders[j].value.invulnerable
    ensures var r := BulletContact(w, i, j, at, Some(side));
      && r.colliders == w.colliders
      && r.fx.timers == w.fx.timers
      && r.fx.uiEvents == w.fx.uiEvents && r.fx.deadEvents == w.fx.deadEvents
  {
  }

  /**
   * An ice bullet: despawned; the lives never change; a player neither
   * invulnerable nor stunned becomes stunned with one `Stun` timer, any other
   * contact changes nothing and arms nothing.
   */
  lemma IceContact(w: BulletWorld, i: nat, j: nat, at: Vec3, side: Collision)
    requires i < |w.bullets| && j < |w.colliders|
    requires w.bullets[i].bulletType == IceBullet
    ensures var r := BulletContact(w, i, j, at, Some(side));
      && r.fx.despawned == w.fx.despawned + {i}
      && r.fx.uiEvents == w.fx.uiEvents && r.fx.deadEvents == w.fx.deadEvents
      && match w.colliders[j]
         case None => r.colliders == w.colliders && r.fx.timers == w.fx.timers
         case Some(p) =>
           if !p.invulnerable && !p.stunned then
             && r.colliders == w.colliders[j := Some(p.(stunned := true))]
             && r.fx.timers == w.fx.timers + [HitCooldownTimer(HitCooldownSecs, p.name, Stun)]
           else
             r.colliders == w.colliders && r.fx.timers == w.fx.timers
  {
  }

  /**
   * An explosive bullet: despawned, and exactly one explosion of radius 50 is
   * queued at the bullet's translation, whatever it touched; no collider
   * changes and no timer or event is produced.
   */
  lemma ExplosiveContact(w: BulletWorld, i: nat, j: nat, at: Vec3, side: Collision)
    requires i < |w.bullets| && j < |w.colliders|
    requires w.bullets[i].bulletType == ExplosiveBullet
    ensures var r := BulletContact(w, i, j, at, Some(side));
      && r.bullets == w.bullets && r.colliders == w.colliders
      && r.fx == w.fx.Despawn(i).(explosions := w.fx.explosions + [ExplosionSpawn(at, Explosion(50.0))])
  {
  }

  /**
   * A bouncy bullet is reflected on every contact, walls included, and
   * nothing else about it changes; it is despawned only by a player it
   * wounds without killing.
   */
  lemma BouncyContact(w: BulletWorld, i: nat, j: nat, at: Vec3, side: Collision)
    requires i < |w.bullets| && j < |w.colliders|
    requires w.bullets[i].bulletType == BouncyBullet
    ensures var r := BulletContact(w, i, j, at, Some(side));
      && r.bullets == w.bullets[i := w.bullets[i].(direction := Reflect(w.bullets[i].direction, side))]
      && (i in r.fx.despawned <==> i in w.fx.despawned || DespawnsOn(BouncyBullet, w.colliders[j]))
      && (w.colliders[j].None? ==> r.colliders == w.colliders && r.fx == w.fx)
  {
  }

  // --- the whole pass: players ------------------------------------------

  /**
   * How far one `collision_bullet` pass can take a player from `p0` to `q`:
   * only lives and flags change, an invulnerable player does not change at
   * all, and at most one life is lost, after which the player is
   * invulnerable (so no later bullet of the same pass wounds it).
   */
  predicate WithinOneHit(p0: PlayerState, q: PlayerState)
  {
    && q == p0.(lifes := q.lifes, invulnerable := q.invulnerable, stunned := q.stunned)
    && (p0.invulnerable ==> q == p0)
    && (q.lifes == p0.lifes || (q.lifes == p0.lifes - 1 && p0.lifes > 1 && q.invulnerable))
  }

  predicate AllWithinOneHit(cs0: seq<Option<PlayerState>>, cs: seq<Option<PlayerState>>)
  {
    && |cs0| == |cs|
    && forall k :: 0 <= k < |cs| ==>
         (cs0[k].Some? <==> cs[k].Some?) && (cs[k].Some? ==> WithinOneHit(cs0[k].value, cs[k].value))
  }

  lemma ContactWithinOneHit(cs0: seq<Option<PlayerState>>, w: BulletWorld, i: nat, j: nat, at: Vec3, side: Option<Collision>)
    requires i < |w.bullets| && j < |w.colliders|
    requires AllWithinOneHit(cs0, w.colliders)
    ensures AllWithinOneHit(cs0, BulletContact(w, i, j, at, side).colliders)
  {
    if side.Some? && w.colliders[j].Some? {
      var q := w.colliders[j].value;
      var h := HitByBullet(w.bullets[i].bulletType, q);
      assert WithinOneHit(cs0[j].value, h.state);
    }
  }

  lemma {:induction false} ScanWithinOneHit(cs0: seq<Option<PlayerState>>, w: BulletWorld, i: nat, at: Vec3, row: seq<Option<Collision>>, n: nat)
    requires i < |w.bullets| && |row| == |w.colliders| && n <= |row|
    requires AllWithinOneHit(cs0, w.colliders)
    ensures AllWithinOneHit(cs0, ScanColliders(w, i, at, row, n).colliders)
  {
    if n > 0 {
      ScanWithinOneHit(cs0, w, i, at, row, n - 1);
      ContactWithinOneHit(cs0, ScanColliders(w, i, at, row, n - 1), i, n - 1, at, row[n - 1]);
    }
  }

  lemma {:induction false} PassWithinOneHit(w: BulletWorld, translations: seq<Vec3>, contacts: ContactTable, m: nat)
    requires |translations| == |contacts| == |w.bullets| && m <= |w.bullets|
    requires Table(contacts, |w.colliders|)
    ensures AllWithinOneHit(w.colliders, BulletPass(w, translations, contacts, m).colliders)
  {
    if m > 0 {
      PassWithinOneHit(w, translations, contacts, m - 1);
      var before := BulletPass(w, translations, contacts, m - 1);
      ScanWithinOneHit(w.colliders, before, m - 1, translations[m - 1], contacts[m - 1], |contacts[m - 1]|);
    }
  }

  /**
   * Over a whole `collision_bullet` pass, however many bullets touch a player:
   * it loses at most one life, never drops below 1 from a positive count,
   * changes in nothing but lives and flags, and an invulnerable player does
   * not change at all. Colliders that are not players stay so.
   */
  lemma BulletPassLosesAtMostOneLife(w: BulletWorld, translations: seq<Vec3>, contacts: ContactTable)
    requires |translations| == |contacts| == |w.bullets|
    requires Table(contacts, |w.colliders|)
    ensures var r := BulletPass(w, translations, contacts, |w.bullets|);
      && |r.colliders| == |w.colliders|
      && forall k :: 0 <= k < |w.colliders| ==>
           && (r.colliders[k].Some? <==> w.colliders[k].Some?)
           && (w.colliders[k].Some? ==>
                 var p, q := w.colliders[k].value, r.colliders[k].value;
                 && p.lifes - 1 <= q.lifes <= p.lifes
                 && (p.lifes >= 1 ==> q.lifes >= 1)
                 && (p.invulnerable ==> q == p)
                 && q == p.(lifes := q.lifes, invulnerable := q.invulnerable, stunned := q.stunned))
  {
    PassWithinOneHit(w, translations, contacts, |w.bullets|);
  }

  // --- the whole pass: bullets ------------------------------------------

  /** Whether one of the first `n` entries of a row is an overlap. */
  predicate ContactBefore(row: seq<Option<Collision>>, n: nat)
  {
    exists j :: 0 <= j < n && j < |row| && row[j].Some?
  }

  /** Whether one of the first `n` entries of a row is an overlap with a collider that is a player in `cs`. */
  predicate PlayerContactBefore(row: seq<Option<Collision>>, cs: seq<Option<PlayerState>>, n: nat)
  {
    exists j :: 0 <= j < n && j < |row| && j < |cs| && row[j].Some? && cs[j].Some?
  }

  /** The direction of a bouncy bullet after the first `n` contacts of its row, in order. */
  function ReflectAlong(d: DirectionHelper, row: seq<Option<Collision>>, n: nat): DirectionHelper
    requires n <= |row|
  {
    if n == 0 then d
    else
      var before := ReflectAlong(d, row, n - 1);
      match row[n - 1]
      case None => before
      case Some(side) => Reflect(before, side)
  }

  /** One contact changes at most bullet `i` (its direction, if bouncy) and despawns at most bullet `i`. */
  lemma ContactBullets(w: BulletWorld, i: nat, j: nat, at: Vec3, side: Option<Collision>)
    requires i < |w.bullets| && j < |w.colliders|
    ensures var r := BulletContact(w, i, j, at, side);
      var b := w.bullets[i];
      && (forall e :: 0 <= e < |w.bullets| && e != i ==> r.bullets[e] == w.bullets[e])
      && r.bullets[i] == b.(direction := if b.bulletType == BouncyBullet && side.Some? then Reflect(b.direction, side.value) else b.direction)
      && r.fx.despawned == w.fx.despawned + (if side.Some? && DespawnsOn(b.bulletType, w.colliders[j]) then {i} else {})
  {
  }

  lemma {:induction false} ScanBulletShapes(w: BulletWorld, i: nat, at: Vec3, row: seq<Option<Collision>>, n: nat)
    requires i < |w.bullets| && |row| == |w.colliders| && n <= |row|
    ensures var r := ScanColliders(w, i, at, row, n);
      var b := w.bullets[i];
      && (forall e :: 0 <= e < |w.bullets| && e != i ==> r.bullets[e] == w.bullets[e])
      && r.bullets[i] == b.(direction := if b.bulletType == BouncyBullet then ReflectAlong(b.direction, row, n) else b.direction)
  {
    if n > 0 {
      ScanBulletShapes(w, i, at, row, n - 1);
      ContactBullets(ScanColliders(w, i, at, row, n - 1), i, n - 1, at, row[n - 1]);
    }
  }

  lemma {:induction false} ScanDespawns(w: BulletWorld, i: nat, at: Vec3, row: seq<Option<Collision>>, n: nat)
    requires i < |w.bullets| && |row| == |w.colliders| && n <= |row|
    ensures var r := ScanColliders(w, i, at, row, n);
      var t := w.bullets[i].bulletType;
      && w.fx.despawned <= r.fx.despawned
      && (forall e :: e in r.fx.despawned ==> e in w.fx.despawned || e == i)
      && (t != BouncyBullet ==> (i in r.fx.despawned <==> i in w.fx.despawned || ContactBefore(row, n)))
      && (t == BouncyBullet && i in r.fx.despawned ==> i in w.fx.despawned || PlayerContactBefore(row, w.colliders, n))
  {
    if n > 0 {
      ScanDespawns(w, i, at, row, n - 1);
      ScanBulletShapes(w, i, at, row, n - 1);
      var v := ScanColliders(w, i, at, row, n - 1);
      ContactBullets(v, i, n - 1, at, row[n - 1]);
      if ContactBefore(row, n) && !ContactBefore(row, n - 1) {
        assert row[n - 1].Some?;
      }
      if row[n - 1].Some? && v.colliders[n - 1].Some? {
        assert PlayerContactBefore(row, w.colliders, n);
      }
    }
  }

  /**
   * After `collision_bullet` has handled the first `m` bullets, each bullet
   * keeps everything but its direction, which a handled bouncy bullet has
   * reflected along its row of contacts.
   */
  lemma {:induction false} PassBulletShapes(w: BulletWorld, translations: seq<Vec3>, contacts: ContactTable, m: nat)
    requires |translations| == |contacts| == |w.bullets| && m <= |w.bullets|
    requires Table(contacts, |w.colliders|)
    ensures var r := BulletPass(w, translations, contacts, m);
      forall i :: 0 <= i < |w.bullets| ==>
        var b := w.bullets[i];
        r.bullets[i] == b.(direction := if i < m && b.bulletType == BouncyBullet then ReflectAlong(b.direction, contacts[i], |contacts[i]|) else b.direction)
  {
    if m > 0 {
      PassBulletShapes(w, translations, contacts, m - 1);
      var v := BulletPass(w, translations, contacts, m - 1);
      ScanBulletShapes(v, m - 1, translations[m - 1], contacts[m - 1], |contacts[m - 1]|);
    }
  }

  /**
   * After `collision_bullet` has handled the first `m` bullets: a handled
   * non-bouncy bullet is despawned exactly when it touched anything, a handled
   * bouncy bullet only if it touched a player, and no other entity is despawned.
   */
  lemma {:induction false} PassDespawns(w: BulletWorld, translations: seq<Vec3>, contacts: ContactTable, m: nat)
    requires |translations| == |contacts| == |w.bullets| && m <= |w.bullets|
    requires Table(contacts, |w.colliders|)
    ensures var r := BulletPass(w, translations, contacts, m);
      && (forall e :: e in r.fx.despawned ==> e in w.fx.despawned || e < m)
      && forall i :: 0 <= i < |w.bullets| ==>
           var t := w.bullets[i].bulletType;
           && (i >= m ==> (i in r.fx.despawned <==> i in w.fx.despawned))
           && (i < m && t != BouncyBullet ==> (i in r.fx.despawned <==> i in w.fx.despawned || ContactBefore(contacts[i], |contacts[i]|)))
           && (i < m && t == BouncyBullet && i in r.fx.despawned ==> i in w.fx.despawned || PlayerContactBefore(contacts[i], w.colliders, |contacts[i]|))
  {
    if m > 0 {
      PassDespawns(w, translations, contacts, m - 1);
      PassDespawnsLast(w, translations, contacts, m);
    }
  }

  /** What handling bullet `m - 1` adds to the despawn set of the first `m - 1` bullets. */
  lemma PassDespawnsLast(w: BulletWorld, translations: seq<Vec3>, contacts: ContactTable, m: nat)
    requires |translations| == |contacts| == |w.bullets| && 0 < m <= |w.bullets|
    requires Table(contacts, |w.colliders|)
    ensures var v, r := BulletPass(w, translations, contacts, m - 1), BulletPass(w, translations, contacts, m);
      var t, row := w.bullets[m - 1].bulletType, contacts[m - 1];
      && (forall e :: e in r.fx.despawned ==> e in v.fx.despawned || e == m - 1)
      && (forall i :: 0 <= i < |w.bullets| && i != m - 1 ==> (i in r.fx.despawned <==> i in v.fx.despawned))
      && (t != BouncyBullet ==> (m - 1 in r.fx.despawned <==> m - 1 in v.fx.despawned || ContactBefore(row, |row|)))
      && (t == BouncyBullet && m - 1 in r.fx.despawned ==> m - 1 in v.fx.despawned || PlayerContactBefore(row, w.colliders, |row|))
  {
    PassBulletShapes(w, translations, contacts, m - 1);
    var v := BulletPass(w, translations, contacts, m - 1);
    var row := contacts[m - 1];
    ScanDespawns(v, m - 1, translations[m - 1], row, |row|);
    var r := BulletPass(w, translations, contacts, m);
    assert r == ScanColliders(v, m - 1, translations[m - 1], row, |row|);
    var t := w.bullets[m - 1].bulletType;
    assert v.bullets[m - 1].bulletType == t;
    if t == BouncyBullet && m - 1 in r.fx.despawned && m - 1 !in v.fx.despawned {
      var j :| 0 <= j < |row| && j < |v.colliders| && row[j].Some? && v.colliders[j].Some?;
      assert w.colliders[j].Some?;
      assert PlayerContactBefore(row, w.colliders, |row|);
    }
  }

  /**
   * After a whole `collision_bullet` pass from an empty despawn set: normal, ice
   * and explosive bullets are despawned exactly when they touched anything; a
   * bouncy bullet that touched no player (only colliders that are not
   * players) is not despawned; a bouncy bullet's direction is its contacts'
   * reflections in order, every other bullet's is unchanged; nothing outside
   * the bullet query is despawned.
   */
  lemma BulletPassDespawnsAndReflects(w: BulletWorld, translations: seq<Vec3>, contacts: ContactTable)
    requires |translations| == |contacts| == |w.bullets|
    requires Table(contacts, |w.colliders|)
    requires w.fx.despawned == {}
    ensures var r := BulletPass(w, translations, contacts, |w.bullets|);
      && (forall e :: e in r.fx.despawned ==> e < |w.bullets|)
      && forall i :: 0 <= i < |w.bullets| ==>
           var b := w.bullets[i];
           && r.bullets[i] == b.(direction := if b.bulletType == BouncyBullet then ReflectAlong(b.direction, contacts[i], |contacts[i]|) else b.direction)
           && (b.bulletType != BouncyBullet ==> (i in r.fx.despawned <==> ContactBefore(contacts[i], |contacts[i]|)))
           && (b.bulletType == BouncyBullet && !PlayerContactBefore(contacts[i], w.colliders, |contacts[i]|) ==> i !in r.fx.despawned)
  {
    PassBulletShapes(w, translations, contacts, |w.bullets|);
    PassDespawns(w, translations, contacts, |w.bullets|);
  }

  // ---------------------------------------------------------------------
  // collision_explosion
  // ---------------------------------------------------------------------

  /** The players of a system's player query, in query order, with what has been queued. */
  datatype PlayerWorld = PlayerWorld(players: seq<PlayerState>, fx: Effects)

  /**
   * One explosion overlapping player `p`: two lives and invulnerability while
   * more than two lives are left, otherwise a death event; a UI event either way.
   * Invulnerability is not looked at here: the system checks it once per
   * player, before its loop over the explosions.
   */
  function ExplosionHit(p: PlayerState): (h: Hit)
    ensures h.uiEvent
    ensures h.timer.Some? <==> p.lifes > 2
    ensures h.deadEvent <==> p.lifes <= 2
    ensures h.timer.Some? ==> h.timer.value == Invulnerable && h.state == p.(lifes := p.lifes - 2, invulnerable := true)
    ensures h.deadEvent ==> h.state == p
  {
    if p.lifes > 2 then Hit(p.(lifes := p.lifes - 2, invulnerable := true), Some(Invulnerable), true, false)
    else Hit(p, None, true, true)
  }

  function ExplosionContact(w: PlayerWorld, k: nat, side: Option<Collision>): (r: PlayerWorld)
    requires k < |w.players|
    ensures |r.players| == |w.players|
  {
    if side.None? then w
    else
      var h := ExplosionHit(w.players[k]);
      PlayerWorld(w.players[k := h.state], Record(w.fx, h))
  }

  /** Player `k` tested against the first `n` explosions. */
  function ScanExplosions(w: PlayerWorld, k: nat, row: seq<Option<Collision>>, n: nat): (r: PlayerWorld)
    requires k < |w.players| && n <= |row|
    ensures |r.players| == |w.players|
  {
    if n == 0 then w else ExplosionContact(ScanExplosions(w, k, row, n - 1), k, row[n - 1])
  }

  /** The first `m` players of `collision_explosion`: each one that is invulnerable is skipped, the others scanned. */
  function ExplosionPass(w: PlayerWorld, contacts: ContactTable, m: nat): (r: PlayerWorld)
    requires |contacts| == |w.players| && m <= |w.players|
    ensures |r.players| == |w.players|
  {
    if m == 0 then w
    else
      var before := ExplosionPass(w, contacts, m - 1);
      if before.players[m - 1].invulnerable then before
      else ScanExplosions(before, m - 1, contacts[m - 1], |contacts[m - 1]|)
  }

  /** Lives left from `lifes` after `c` explosions in one pass: each takes two while more than two are left. */
  function ExplosionLifes(lifes: int, c: nat): int
  {
    if c == 0 || lifes <= 2 then lifes else ExplosionLifes(lifes - 2, c - 1)
  }

  /**
   * How many of `c` explosions met in one pass take lives from a player who
   * starts with `lifes` (each of the others reports the player dead).
   */
  function ExplosionTakes(lifes: int, c: nat): (r: nat)
    ensures r <= c
    ensures lifes <= 2 ==> r == 0
    ensures lifes > 2 * c ==> r == c
  {
    if c == 0 || lifes <= 2 then 0 else 1 + ExplosionTakes(lifes - 2, c - 1)
  }

  /**
   * The `c + 1`-th explosion takes two lives exactly when more than two are
   * left after the first `c`, and then it counts among the taking ones.
   */
  lemma {:induction false} ExplosionLifesStep(lifes: int, c: nat)
    ensures ExplosionLifes(lifes, c + 1) == var x := ExplosionLifes(lifes, c); if x > 2 then x - 2 else x
    ensures ExplosionTakes(lifes, c + 1) == ExplosionTakes(lifes, c) + if ExplosionLifes(lifes, c) > 2 then 1 else 0
  {
    if c > 0 && lifes > 2 {
      ExplosionLifesStep(lifes - 2, c - 1);
    }
  }

  /**
   * Explosions never take the last life, never add one, and while the lives
   * last every one of the `c` overlaps takes two.
   */
  lemma {:induction false} ExplosionLifesBounds(lifes: int, c: nat)
    ensures ExplosionLifes(lifes, c) <= lifes
    ensures lifes >= 1 ==> ExplosionLifes(lifes, c) >= 1
    ensures lifes > 2 * c ==> ExplosionLifes(lifes, c) == lifes - 2 * c
    ensures ExplosionLifes(lifes, c) == lifes - 2 * ExplosionTakes(lifes, c)
  {
    if c > 0 && lifes > 2 {
      ExplosionLifesBounds(lifes - 2, c - 1);
    }
  }

  /** Reference outcome of one `collision_explosion` pass for a player whose row of overlaps is `row`. */
  function ExplosionOutcome(p: PlayerState, row: seq<Option<Collision>>): PlayerState
  {
    if p.invulnerable then p
    else
      var c := CountBefore(row, |row|);
      p.(lifes := ExplosionLifes(p.lifes, c), invulnerable := c > 0 && p.lifes > 2)
  }

  /**
   * Scanning one player's first `n` explosions: it meets each overlapping one
   * (invulnerability armed by the first does not shield it from the next), so
   * its lives follow `ExplosionLifes`; every overlap sends one UI event; the
   * overlaps that take lives (`ExplosionTakes`) each arm one `Invulnerable`
   * timer for that player and every other overlap sends one death event. No
   * other player changes and nothing is despawned or spawned.
   */
  lemma ScanExplosionsEffect(w: PlayerWorld, k: nat, row: seq<Option<Collision>>, n: nat)
    requires k < |w.players| && n <= |row|
    ensures var r := ScanExplosions(w, k, row, n);
      var p := w.players[k];
      var c := CountBefore(row, n);
      && r.players == w.players[k := p.(lifes := ExplosionLifes(p.lifes, c), invulnerable := p.invulnerable || (c > 0 && p.lifes > 2))]
      && r.fx.uiEvents == w.fx.uiEvents + c
      && |r.fx.timers| == |w.fx.timers| + ExplosionTakes(p.lifes, c)
      && r.fx.deadEvents == w.fx.deadEvents + (c - ExplosionTakes(p.lifes, c))
      && w.fx.timers <= r.fx.timers
      && (forall t :: |w.fx.timers| <= t < |r.fx.timers| ==> r.fx.timers[t] == HitCooldownTimer(HitCooldownSecs, p.name, Invulnerable))
      && r.fx.despawned == w.fx.despawned && r.fx.explosions == w.fx.explosions
  {
    ScanExplosionsPlayers(w, k, row, n);
    ScanExplosionsEvents(w, k, row, n);
  }

  /** The player half of `ScanExplosionsEffect`, with the UI events and what is left alone. */
  lemma {:induction false} ScanExplosionsPlayers(w: PlayerWorld, k: nat, row: seq<Option<Collision>>, n: nat)
    requires k < |w.players| && n <= |row|
    ensures var r := ScanExplosions(w, k, row, n);
      var p := w.players[k];
      var c := CountBefore(row, n);
      && r.players == w.players[k := p.(lifes := ExplosionLifes(p.lifes, c), invulnerable := p.invulnerable || (c > 0 && p.lifes > 2))]
      && r.fx.uiEvents == w.fx.uiEvents + c
      && r.fx.despawned == w.fx.despawned && r.fx.explosions == w.fx.explosions
  {
    if n > 0 {
      ScanExplosionsPlayers(w, k, row, n - 1);
      ExplosionLifesStep(w.players[k].lifes, CountBefore(row, n - 1));
      ExplosionLifesBounds(w.players[k].lifes, CountBefore(row, n - 1));
    }
  }

  /** The timer and death-event half of `ScanExplosionsEffect`. */
  lemma {:induction false} ScanExplosionsEvents(w: PlayerWorld, k: nat, row: seq<Option<Collision>>, n: nat)
    requires k < |w.players| && n <= |row|
    ensures var r := ScanExplosions(w, k, row, n);
      var p := w.players[k];
      var c := CountBefore(row, n);
      && |r.fx.timers| == |w.fx.timers| + ExplosionTakes(p.lifes, c)
      && r.fx.deadEvents == w.fx.deadEvents + (c - ExplosionTakes(p.lifes, c))
      && w.fx.timers <= r.fx.timers
      && (forall t :: |w.fx.timers| <= t < |r.fx.timers| ==> r.fx.timers[t] == HitCooldownTimer(HitCooldownSecs, p.name, Invulnerable))
  {
    if n > 0 {
      ScanExplosionsEvents(w, k, row, n - 1);
      ScanExplosionsPlayers(w, k, row, n - 1);
      ExplosionLifesStep(w.players[k].lifes, CountBefore(row, n - 1));
    }
  }

  /** The overlaps of the players of the first `m` rows that are not invulnerable. */
  function VulnerableOverlaps(players: seq<PlayerState>, contacts: ContactTable, m: nat): nat
    requires |contacts| == |players| && m <= |players|
  {
    if m == 0 then 0
    else VulnerableOverlaps(players, contacts, m - 1) + (if players[m - 1].invulnerable then 0 else CountBefore(contacts[m - 1], |contacts[m - 1]|))
  }

  /** Of those overlaps, the ones that take lives (and arm a timer) rather than report a death. */
  function VulnerableTakes(players: seq<PlayerState>, contacts: ContactTable, m: nat): (r: nat)
    requires |contacts| == |players| && m <= |players|
    ensures r <= VulnerableOverlaps(players, contacts, m)
  {
    if m == 0 then 0
    else
      VulnerableTakes(players, contacts, m - 1) +
      (if players[m - 1].invulnerable then 0 else ExplosionTakes(players[m - 1].lifes, CountBefore(contacts[m - 1], |contacts[m - 1]|)))
  }

  lemma {:induction false} ExplosionPassPrefix(w: PlayerWorld, contacts: ContactTable, m: nat)
    requires |contacts| == |w.players| && m <= |w.players|
    ensures var r := ExplosionPass(w, contacts, m);
      && (forall k :: 0 <= k < |w.players| ==> r.players[k] == if k < m then ExplosionOutcome(w.players[k], contacts[k]) else w.players[k])
      && r.fx.uiEvents == w.fx.uiEvents + VulnerableOverlaps(w.players, contacts, m)
      && |r.fx.timers| == |w.fx.timers| + VulnerableTakes(w.players, contacts, m)
      && r.fx.deadEvents == w.fx.deadEvents + (VulnerableOverlaps(w.players, contacts, m) - VulnerableTakes(w.players, contacts, m))
      && r.fx.despawned == w.fx.despawned && r.fx.explosions == w.fx.explosions
  {
    if m > 0 {
      ExplosionPassPrefix(w, contacts, m - 1);
      var before := ExplosionPass(w, contacts, m - 1);
      if !before.players[m - 1].invulnerable {
        ScanExplosionsEffect(before, m - 1, contacts[m - 1], |contacts[m - 1]|);
      }
    }
  }

  /**
   * A whole `collision_explosion` pass: every invulnerable player is skipped;
   * every other player takes two lives per overlapping explosion while more
   * than two are left (so it is hit by each explosion, not only the first),
   * becomes invulnerable if one of them took lives, and never loses its last
   * life. One UI event is sent per overlap of a non-invulnerable player; each
   * such overlap that takes lives arms one timer and each other one sends one
   * death event.
   */
  lemma ExplosionPassOutcome(w: PlayerWorld, contacts: ContactTable)
    requires |contacts| == |w.players|
    ensures var r := ExplosionPass(w, contacts, |w.players|);
      && |r.players| == |w.players|
      && (forall k :: 0 <= k < |w.players| ==>
            var p, q, c := w.players[k], r.players[k], CountBefore(contacts[k], |contacts[k]|);
            && q == ExplosionOutcome(p, contacts[k])
            && (p.invulnerable ==> q == p)
            && q == p.(lifes := q.lifes, invulnerable := q.invulnerable)
            && q.lifes <= p.lifes && (p.lifes >= 1 ==> q.lifes >= 1)
            && (!p.invulnerable && p.lifes > 2 * c ==> q.lifes == p.lifes - 2 * c))
      && r.fx.uiEvents == w.fx.uiEvents + VulnerableOverlaps(w.players, contacts, |w.players|)
      && |r.fx.timers| == |w.fx.timers| + VulnerableTakes(w.players, contacts, |w.players|)
      && r.fx.deadEvents == w.fx.deadEvents + (VulnerableOverlaps(w.players, contacts, |w.players|) - VulnerableTakes(w.players, contacts, |w.players|))
  {
    ExplosionPassPrefix(w, contacts, |w.players|);
    forall k | 0 <= k < |w.players| {
      ExplosionLifesBounds(w.players[k].lifes, CountBefore(contacts[k], |contacts[k]|));
    }
  }

  // ---------------------------------------------------------------------
  // collision_powerup
  // ---------------------------------------------------------------------

  /**
   * Player `k` overlapping power-up `j` with `draw` the integer drawn from
   * 0..=2: the player holds a power-up of that kind, the power-up entity is
   * despawned, and the UI is refreshed.
   */
  function PowerupContact(w: PlayerWorld, k: nat, j: nat, side: Option<Collision>, draw: int): (r: PlayerWorld)
    requires k < |w.players|
    ensures |r.players| == |w.players|
    ensures side.None? ==> r == w
    ensures side.Some? ==>
      && r.players[k] == w.players[k].(powerup := true, powerUpType := r.players[k].powerUpType)
      && r.players[k].powerUpType == BulletTypeFromInt(draw)
      && (0 <= draw <= 2 ==> r.players[k].powerUpType.Some? && r.players[k].powerUpType.value != NormalBullet)
      && r.fx.despawned == w.fx.despawned + {j} && r.fx.uiEvents == w.fx.uiEvents + 1
    ensures forall a :: 0 <= a < |w.players| && a != k ==> r.players[a] == w.players[a]
    ensures r.fx.timers == w.fx.timers && r.fx.deadEvents == w.fx.deadEvents && r.fx.explosions == w.fx.explosions
  {
    if side.None? then w
    else
      PlayerWorld(w.players[k := w.players[k].(powerup := true, powerUpType := BulletTypeFromInt(draw))],
                  w.fx.SendUpdateUI().Despawn(j))
  }

  function ScanPowerups(w: PlayerWorld, k: nat, row: seq<Option<Collision>>, draws: seq<int>, n: nat): (r: PlayerWorld)
    requires k < |w.players| && |draws| == |row| && n <= |row|
    ensures |r.players| == |w.players|
  {
    if n == 0 then w else PowerupContact(ScanPowerups(w, k, row, draws, n - 1), k, n - 1, row[n - 1], draws[n - 1])
  }

  /** `draws[k][j]` is the integer drawn when player `k` overlaps power-up `j`. */
  predicate DrawTable(contacts: ContactTable, draws: seq<seq<int>>)
  {
    |draws| == |contacts| && forall k :: 0 <= k < |contacts| ==> |draws[k]| == |contacts[k]|
  }

  /** The first `m` players of `collision_powerup`, each tested against every power-up. */
  function PowerupPass(w: PlayerWorld, contacts: ContactTable, draws: seq<seq<int>>, m: nat): (r: PlayerWorld)
    requires |contacts| == |w.players| && DrawTable(contacts, draws) && m <= |w.players|
    ensures |r.players| == |w.players|
  {
    if m == 0 then w
    else ScanPowerups(PowerupPass(w, contacts, draws, m - 1), m - 1, contacts[m - 1], draws[m - 1], |contacts[m - 1]|)
  }

  /** The last of the first `n` entries of a row that is an overlap. */
  function LastContact(row: seq<Option<Collision>>, n: nat): (r: Option<nat>)
    requires n <= |row|
    ensures r.None? <==> !ContactBefore(row, n)
    ensures r.Some? ==> r.value < n && row[r.value].Some? && forall j :: r.value < j < n ==> row[j].None?
  {
    if n == 0 then None
    else if row[n - 1].Some? then Some(n - 1)
    else LastContact(row, n - 1)
  }

  /** The power-up kinds drawn at the first `n` entries of a row. */
  function PowerupOutcome(p: PlayerState, row: seq<Option<Collision>>, draws: seq<int>, n: nat): PlayerState
    requires |draws| == |row| && n <= |row|
  {
    match LastContact(row, n)
    case None => p
    case Some(j) => p.(powerup := true, powerUpType := BulletTypeFromInt(draws[j]))
  }

  /** The indices among the first `n` entries of a row that are overlaps. */
  function ContactIndices(row: seq<Option<Collision>>, n: nat): set<nat>
  {
    set j: nat | j < n && j < |row| && row[j].Some?
  }

  lemma {:induction false} ScanPowerupsEffect(w: PlayerWorld, k: nat, row: seq<Option<Collision>>, draws: seq<int>, n: nat)
    requires k < |w.players| && |draws| == |row| && n <= |row|
    ensures var r := ScanPowerups(w, k, row, draws, n);
      && r.players == w.players[k := PowerupOutcome(w.players[k], row, draws, n)]
      && r.fx == w.fx.(despawned := w.fx.despawned + ContactIndices(row, n), uiEvents := w.fx.uiEvents + CountBefore(row, n))
  {
    if n > 0 {
      ScanPowerupsEffect(w, k, row, draws, n - 1);
      assert ContactIndices(row, n) == ContactIndices(row, n - 1) + (if row[n - 1].Some? then {n - 1} else {});
    }
  }

  /** The power-ups overlapped by at least one of the first `m` players. */
  function PickedUp(contacts: ContactTable, m: nat): (r: set<nat>)
    requires m <= |contacts|
    ensures forall j: nat :: j in r <==> exists k :: 0 <= k < m && j < |contacts[k]| && contacts[k][j].Some?
  {
    if m == 0 then {}
    else
      var before := PickedUp(contacts, m - 1);
      var row := contacts[m - 1];
      assert forall j: nat :: j in ContactIndices(row, |row|) <==> j < |row| && row[j].Some?;
      before + ContactIndices(row, |row|)
  }

  /** The overlaps of the first `m` rows. */
  function TotalContacts(contacts: ContactTable, m: nat): nat
    requires m <= |contacts|
  {
    if m == 0 then 0 else TotalContacts(contacts, m - 1) + CountBefore(contacts[m - 1], |contacts[m - 1]|)
  }

  lemma {:induction false} PowerupPassPlayers(w: PlayerWorld, contacts: ContactTable, draws: seq<seq<int>>, m: nat)
    requires |contacts| == |w.players| && DrawTable(contacts, draws) && m <= |w.players|
    ensures var r := PowerupPass(w, contacts, draws, m);
      forall k :: 0 <= k < |w.players| ==>
        r.players[k] == if k < m then PowerupOutcome(w.players[k], contacts[k], draws[k], |contacts[k]|) else w.players[k]
  {
    if m > 0 {
      PowerupPassPlayers(w, contacts, draws, m - 1);
      ScanPowerupsEffect(PowerupPass(w, contacts, draws, m - 1), m - 1, contacts[m - 1], draws[m - 1], |contacts[m - 1]|);
    }
  }

  lemma {:induction false} PowerupPassEffects(w: PlayerWorld, contacts: ContactTable, draws: seq<seq<int>>, m: nat)
    requires |contacts| == |w.players| && DrawTable(contacts, draws) && m <= |w.players|
    ensures PowerupPass(w, contacts, draws, m).fx ==
      w.fx.(despawned := w.fx.despawned + PickedUp(contacts, m), uiEvents := w.fx.uiEvents + TotalContacts(contacts, m))
  {
    if m > 0 {
      PowerupPassEffects(w, contacts, draws, m - 1);
      ScanPowerupsEffect(PowerupPass(w, contacts, draws, m - 1), m - 1, contacts[m - 1], draws[m - 1], |contacts[m - 1]|);
    }
  }

  /**
   * A whole `collision_powerup` pass: a player that overlaps no power-up is
   * unchanged; one that overlaps some holds a power-up afterwards, of the
   * kind drawn at the last one it overlaps, which is a special kind whenever
   * the draws are in 0..=2, and nothing else about it changes. Every
   * overlapped power-up is despawned, even one that several players overlap
   * and each of them is granted (the despawn is deferred), and nothing else is.
   * One UI event is sent per overlap.
   */
  lemma PowerupPassOutcome(w: PlayerWorld, contacts: ContactTable, draws: seq<seq<int>>)
    requires |contacts| == |w.players| && DrawTable(contacts, draws)
    ensures var r := PowerupPass(w, contacts, draws, |w.players|);
      && |r.players| == |w.players|
      && (forall k :: 0 <= k < |w.players| ==>
            var p, q, row := w.players[k], r.players[k], contacts[k];
            && (!ContactBefore(row, |row|) ==> q == p)
            && q == PowerupOutcome(p, row, draws[k], |row|)
            && (ContactBefore(row, |row|) ==>
                  && q == p.(powerup := true, powerUpType := q.powerUpType)
                  && ((forall j :: 0 <= j < |row| ==> 0 <= draws[k][j] <= 2) ==>
                        q.powerUpType.Some? && q.powerUpType.value != NormalBullet)))
      && (forall j: nat :: j in r.fx.despawned <==> j in w.fx.despawned || exists k :: 0 <= k < |w.players| && j < |contacts[k]| && contacts[k][j].Some?)
      && r.fx.uiEvents == w.fx.uiEvents + TotalContacts(contacts, |w.players|)
      && r.fx.timers == w.fx.timers && r.fx.deadEvents == w.fx.deadEvents
  {
    PowerupPassPlayers(w, contacts, draws, |w.players|);
    PowerupPassEffects(w, contacts, draws, |w.players|);
  }

  // ---------------------------------------------------------------------
  // collision_player
  // ---------------------------------------------------------------------

  /** Whether one of the first `n` entries of a row reports `side`. */
  predicate SideBefore(row: seq<Option<Collision>>, side: Collision, n: nat)
  {
    exists j :: 0 <= j < n && j < |row| && row[j] == Some(side)
  }

  /**
   * The movement block a player ends a `collision_player` pass with, the
   * first `n` walls of its row considered: each direction is blocked exactly
   * when some wall touches the player on that side. `Inside` blocks nothing.
   */
  function ContactBlock(row: seq<Option<Collision>>, n: nat): (r: DirectionBlock)
    requires n <= |row|
    ensures r.up <==> SideBefore(row, Top, n)
    ensures r.down <==> SideBefore(row, Bottom, n)
    ensures r.right <==> SideBefore(row, Collision.Right, n)
    ensures r.left <==> SideBefore(row, Collision.Left, n)
  {
    if n == 0 then Unblocked
    else
      var b := ContactBlock(row, n - 1);
      match row[n - 1]
      case Some(Top) => b.(up := true)
      case Some(Bottom) => b.(down := true)
      case Some(Right) => b.(right := true)
      case Some(Left) => b.(left := true)
      case _ => b
  }
}
