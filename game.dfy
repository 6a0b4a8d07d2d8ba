/**
 * The tick-driven engine. One Update runs, in order: the expiry check of
 * the timed effect and of invulnerability, the spawn counter (and maybe a
 * new particle), the falling pass with cart collisions, steam emission,
 * the steam pass, and the explosion countdown.
 *
 * The clock is the `now` argument (milliseconds); every random number the
 * engine would draw is a caller-supplied argument with its range demanded.
 * The hit notification is the counter Hits.
 */
module Games {
  import opened DotNet
  import opened Effects
  import opened Particles
  import opened Carts
  import opened Spawning

  /** Ticks an explosion lasts. */
  const ExplosionTicks := 10

  /** How far below the cart a particle may fall before it is dropped. */
  const FallMargin := 100

  /** An explosion's fields as a value. */
  datatype Blast = Blast(location: Point, radius: int, lifeTime: int, color: Color)

  /** The explosion a caught particle leaves: at its centre, as wide as it, for ten ticks. */
  function BlastOf(d: ParticleView): (b: Blast)
    ensures b.location == d.Centre() && b.radius == d.size && b.color == d.color
    ensures b.lifeTime == ExplosionTicks
  {
    Blast(d.Centre(), d.size, ExplosionTicks, d.color)
  }

  /** The cart's position and height, which no pass of a tick changes. */
  datatype CartFrame = CartFrame(x: int, y: int, height: int)

  /** What the falling pass has produced so far. */
  datatype Pass = Pass(session: Session, views: seq<ParticleView>, blasts: seq<Blast>)

  /**
   * One particle of the falling pass: it falls by its speed; if it then
   * touches the cart (whose width is the session's current one) it is
   * caught: collected, an explosion is left and the collision is handled.
   */
  function FallOne(acc: Pass, d: ParticleView, cart: CartFrame, base: int, now: int): Pass
  {
    var moved := d.(y := d.y + d.speed);
    if IntersectsWith(Rectangle(cart.x, cart.y, acc.session.width, cart.height), moved.Box()) then
      var caught := moved.(collected := true);
      Pass(Collide(acc.session, Hazardous(d.color), d.effect, base, now),
           acc.views + [caught], acc.blasts + [BlastOf(caught)])
    else
      Pass(acc.session, acc.views + [moved], acc.blasts)
  }

  /**
   * What one step of the falling pass guarantees: one more view, with the
   * earlier ones kept; the particle fell by its speed and a collected one
   * stays collected; the score never drops, a life lost fires one hit,
   * game-over is never undone, the effect/cart coupling survives a particle
   * without Steam; at most one explosion is added and it starts with ten ticks.
   */
  lemma FallOneStep(acc: Pass, d: ParticleView, cart: CartFrame, base: int, now: int)
    ensures var r := FallOne(acc, d, cart, base, now);
      && |r.views| == |acc.views| + 1 && r.views[..|acc.views|] == acc.views
      && r.views[|acc.views|].y == d.y + d.speed && (d.collected ==> r.views[|acc.views|].collected)
      && r.session.score >= acc.session.score
      && r.session.lives <= acc.session.lives && r.session.lives + r.session.hits == acc.session.lives + acc.session.hits
      && (acc.session.gameOver ==> r.session.gameOver)
      && (d.effect != Steam && Coupled(acc.session, base) ==> Coupled(r.session, base))
      && |acc.blasts| <= |r.blasts| <= |acc.blasts| + 1 && r.blasts[..|acc.blasts|] == acc.blasts
      && forall k :: |acc.blasts| <= k < |r.blasts| ==> r.blasts[k].lifeTime == ExplosionTicks
  {
  }

  /** The falling pass over a snapshot of the particle list, in order. */
  function FallAll(s: Session, ds: seq<ParticleView>, cart: CartFrame, base: int, now: int): (r: Pass)
    ensures |r.views| == |ds| && |r.blasts| <= |ds|
  {
    if ds == [] then Pass(s, [], [])
    else
      var n := |ds| - 1;
      FallOne(FallAll(s, ds[..n], cart, base, now), ds[n], cart, base, now)
  }

  /** In the falling pass each particle only falls by its speed, and may become collected but never uncollected. */
  lemma {:induction false} FallAllViews(s: Session, ds: seq<ParticleView>, cart: CartFrame, base: int, now: int)
    ensures var r := FallAll(s, ds, cart, base, now);
      forall j :: 0 <= j < |ds| ==>
        r.views[j] == ds[j].(y := ds[j].y + ds[j].speed, collected := r.views[j].collected) &&
        (ds[j].collected ==> r.views[j].collected)
  {
    if ds != [] {
      var n := |ds| - 1;
      FallAllViews(s, ds[..n], cart, base, now);
      assert forall j :: 0 <= j < n ==> ds[..n][j] == ds[j];
    }
  }

  /**
   * Over the falling pass the score never drops, every life lost fires one
   * hit, and game-over is never undone.
   */
  lemma {:induction false} FallAllSession(s: Session, ds: seq<ParticleView>, cart: CartFrame, base: int, now: int)
    ensures var r := FallAll(s, ds, cart, base, now);
      && r.session.score >= s.score
      && r.session.lives <= s.lives && r.session.lives + r.session.hits == s.lives + s.hits
      && (s.gameOver ==> r.session.gameOver)
  {
    if ds != [] {
      var n := |ds| - 1;
      FallAllSession(s, ds[..n], cart, base, now);
      FallOneStep(FallAll(s, ds[..n], cart, base, now), ds[n], cart, base, now);
    }
  }

  /** The effect/cart coupling survives a falling pass in which no particle carries Steam. */
  lemma {:induction false} FallAllCoupled(s: Session, ds: seq<ParticleView>, cart: CartFrame, base: int, now: int)
    requires Coupled(s, base) && forall j :: 0 <= j < |ds| ==> ds[j].effect != Steam
    ensures Coupled(FallAll(s, ds, cart, base, now).session, base)
  {
    if ds != [] {
      var n := |ds| - 1;
      assert forall j :: 0 <= j < n ==> ds[..n][j] == ds[j];
      FallAllCoupled(s, ds[..n], cart, base, now);
      FallOneStep(FallAll(s, ds[..n], cart, base, now), ds[n], cart, base, now);
    }
  }

  /** Every explosion the falling pass leaves starts with ten ticks. */
  lemma {:induction false} FallAllBlasts(s: Session, ds: seq<ParticleView>, cart: CartFrame, base: int, now: int)
    ensures forall b :: b in FallAll(s, ds, cart, base, now).blasts ==> b.lifeTime == ExplosionTicks
  {
    if ds != [] {
      var n := |ds| - 1;
      var acc := FallAll(s, ds[..n], cart, base, now);
      FallAllBlasts(s, ds[..n], cart, base, now);
      FallOneStep(acc, ds[n], cart, base, now);
      var r := FallOne(acc, ds[n], cart, base, now);
      forall b | b in r.blasts
        ensures b.lifeTime == ExplosionTicks
      {
        var k :| 0 <= k < |r.blasts| && r.blasts[k] == b;
        if k < |acc.blasts| {
          assert b == r.blasts[..|acc.blasts|][k];
        }
      }
    }
  }

  /** Walking one more particle of the snapshot is one more FallOne step. */
  lemma FallAllStep(s: Session, ds: seq<ParticleView>, i: nat, cart: CartFrame, base: int, now: int)
    requires i < |ds|
    ensures FallAll(s, ds[..i + 1], cart, base, now) == FallOne(FallAll(s, ds[..i], cart, base, now), ds[i], cart, base, now)
  {
    assert ds[..i + 1][..i] == ds[..i];
  }

  /** One more step of the falling pass extends the walked prefix by one entry. */
  lemma FallAllNext(s: Session, ds: seq<ParticleView>, whole: Pass, done: Pass, i: nat, cart: CartFrame, base: int, now: int)
    requires i < |ds| && whole == FallAll(s, ds, cart, base, now) && done == FallAll(s, ds[..i], cart, base, now)
    ensures FallOne(done, ds[i], cart, base, now) == FallAll(s, ds[..i + 1], cart, base, now)
    ensures FallOne(done, ds[i], cart, base, now).views == whole.views[..i + 1]
  {
    FallAllStep(s, ds, i, cart, base, now);
    FallAllPrefix(s, ds, i + 1, cart, base, now);
  }

  /** The pass over a prefix of the snapshot has produced a prefix of the whole pass's views. */
  lemma {:induction false} FallAllPrefix(s: Session, ds: seq<ParticleView>, i: nat, cart: CartFrame, base: int, now: int)
    requires i <= |ds|
    ensures FallAll(s, ds[..i], cart, base, now).views == FallAll(s, ds, cart, base, now).views[..i]
    decreases |ds|
  {
    if i < |ds| {
      var n := |ds| - 1;
      FallAllPrefix(s, ds[..n], i, cart, base, now);
      assert ds[..n][..i] == ds[..i];
    } else {
      assert ds[..i] == ds;
    }
  }

  /** A particle stays in the list unless it was collected or fell more than 100 below the cart. */
  predicate Survives(v: ParticleView, cartY: int)
  {
    !v.collected && v.y <= cartY + FallMargin
  }

  function SurvivorFlags(vs: seq<ParticleView>, cartY: int): (keep: seq<bool>)
    ensures |keep| == |vs| && forall j :: 0 <= j < |vs| ==> keep[j] == Survives(vs[j], cartY)
  {
    seq(|vs|, j requires 0 <= j < |vs| => Survives(vs[j], cartY))
  }

  /**
   * One tick of a steam particle: it rises by its (negative) speed and
   * shrinks by one while it has size left; sizes never go below zero.
   */
  function Rise(v: ParticleView): (r: ParticleView)
    ensures r.y == v.y + v.speed
    ensures r.size == (if v.size > 0 then v.size - 1 else 0) && r.size >= 0
    ensures r.(y := v.y, size := v.size) == v
  {
    v.(y := v.y + v.speed, size := if v.size > 0 then v.size - 1 else 0)
  }

  function SteamFlags(vs: seq<ParticleView>): (keep: seq<bool>)
    ensures |keep| == |vs| && forall j :: 0 <= j < |vs| ==> keep[j] == (Rise(vs[j]).size > 0)
  {
    seq(|vs|, j requires 0 <= j < |vs| => Rise(vs[j]).size > 0)
  }

  /** One tick of an explosion: one tick less to live, nothing else changes. */
  function Tick(b: Blast): (r: Blast)
    ensures r.lifeTime == b.lifeTime - 1 && r.(lifeTime := b.lifeTime) == b
  {
    b.(lifeTime := b.lifeTime - 1)
  }

  /** An explosion survives its tick while its decremented lifetime is positive. */
  function BlastFlags(bs: seq<Blast>): (keep: seq<bool>)
    ensures |keep| == |bs| && forall j :: 0 <= j < |bs| ==> keep[j] == (Tick(bs[j]).lifeTime > 0)
  {
    seq(|bs|, j requires 0 <= j < |bs| => Tick(bs[j]).lifeTime > 0)
  }

  /** The views of particles none of which carries Steam carry no Steam either. */
  lemma NoSteamIn(ps: seq<Particle>, vs: seq<ParticleView>)
    requires |vs| == |ps| && forall j :: 0 <= j < |ps| ==> vs[j] == ps[j].View()
    requires forall p :: p in ps ==> p.Effect != Steam
    ensures forall j :: 0 <= j < |vs| ==> vs[j].effect != Steam
  {
    forall j | 0 <= j < |vs|
      ensures vs[j].effect != Steam
    {
      assert ps[j] in ps;
    }
  }

  ghost function ViewsOf(ps: seq<Particle>): (vs: seq<ParticleView>)
    reads ps
    ensures |vs| == |ps| && forall j :: 0 <= j < |ps| ==> vs[j] == ps[j].View()
  {
    if ps == [] then [] else ViewsOf(ps[..|ps| - 1]) + [ps[|ps| - 1].View()]
  }

  ghost function BlastsOf(es: seq<Explosion>): (bs: seq<Blast>)
    reads es
    ensures |bs| == |es| && forall j :: 0 <= j < |es| ==> bs[j] == es[j].View()
  {
    if es == [] then [] else BlastsOf(es[..|es| - 1]) + [es[|es| - 1].View()]
  }

  /** random.Next(lo, hi) can return `v`: lo <= v < hi, or v == lo when lo == hi. */
  predicate CanReturn(v: int, lo: int, hi: int)
  {
    lo <= v && (v < hi || v == lo == hi)
  }

  /** The random numbers one tick may draw, in the order the engine draws them. */
  datatype Draws = Draws(spawnX: int, color: int, steamRoll: int, steamDx: int, steamSize: int, steamLift: int)
  {
    /** The ranges of random.Next(100), Next(10), Next(-10, 10), Next(10) and Next(3). */
    predicate Fits()
    {
      0 <= color < 100 && 0 <= steamRoll < 10 && -10 <= steamDx < 10 &&
      0 <= steamSize < 10 && 0 <= steamLift < 3
    }
  }

  class Explosion {
    var Location: Point
    var Radius: int
    var LifeTime: int
    var Color: DotNet.Color

    function View(): Blast
      reads this
    {
      Blast(Location, Radius, LifeTime, Color)
    }

    constructor (b: Blast)
      ensures View() == b
    {
      Location, Radius, LifeTime, Color := b.location, b.radius, b.lifeTime, b.color;
    }
  }

  /**
   * A pass over `snapshot` has walked its first `i` entries: those now have
   * the views `after`, the rest still have the views `before`.
   */
  ghost predicate Walked(snapshot: seq<Particle>, before: seq<ParticleView>, after: seq<ParticleView>, i: nat)
    reads snapshot
  {
    && i <= |snapshot| == |before| == |after| && Distinct(snapshot)
    && (forall j :: 0 <= j < i ==> snapshot[j].View() == after[j])
    && (forall j :: i <= j < |snapshot| ==> snapshot[j].View() == before[j])
  }

  /**
   * The explosion pass has walked the first `i` entries of `snapshot`
   * (whose views were `before`): those have ticked, the rest are as they
   * were, and the live list holds the walked survivors, then the rest.
   */
  ghost predicate ExplosionsWalked(snapshot: seq<Explosion>, before: seq<Blast>, i: nat, list: seq<Explosion>)
    reads snapshot
  {
    && i <= |snapshot| == |before| && Distinct(snapshot)
    && (forall j :: 0 <= j < i ==> snapshot[j].View() == Tick(before[j]))
    && (forall j :: i <= j < |snapshot| ==> snapshot[j].View() == before[j])
    && list == Select(snapshot, BlastFlags(before), i) + snapshot[i..]
  }

  /** The body of the explosion pass for entry `i`: it ticks, and leaves the list when it runs out. */
  method CountDown(snapshot: seq<Explosion>, ghost before: seq<Blast>, i: nat, explosion: Explosion, explosions: seq<Explosion>)
    returns (live: seq<Explosion>)
    requires i < |snapshot| && explosion == snapshot[i] && ExplosionsWalked(snapshot, before, i, explosions)
    modifies explosion`LifeTime
    ensures ExplosionsWalked(snapshot, before, i + 1, live)
  {
    assert forall j :: 0 <= j < |snapshot| && j != i ==> snapshot[j] != explosion;
    explosion.LifeTime := explosion.LifeTime - 1;
    assert explosion.View() == Tick(before[i]);
    WalkStep(snapshot, BlastFlags(before), i);
    live := if explosion.LifeTime <= 0 then RemoveFirst(explosions, explosion) else explosions;
  }

  /** After the whole explosion pass, the survivors are distinct and each has between 1 and 10 ticks left. */
  lemma CountedDownValid(snapshot: seq<Explosion>, before: seq<Blast>, explosions: seq<Explosion>)
    requires ExplosionsWalked(snapshot, before, |snapshot|, explosions)
    requires forall j :: 0 <= j < |before| ==> 0 < before[j].lifeTime <= ExplosionTicks
    ensures Distinct(explosions)
    ensures forall e :: e in explosions ==> 0 < e.LifeTime <= ExplosionTicks
    ensures forall e :: e in explosions <==> e in snapshot && e.LifeTime > 0
  {
    SelectDistinct(snapshot, BlastFlags(before), |snapshot|);
    assert explosions == Select(snapshot, BlastFlags(before), |snapshot|);
    forall e
      ensures e in explosions <==> e in snapshot && e.LifeTime > 0
      ensures e in explosions ==> 0 < e.LifeTime <= ExplosionTicks
    {
      SelectMember(snapshot, BlastFlags(before), |snapshot|, e);
    }
  }

  /** The steam pass has walked the first `i` entries of `snapshot` (whose views were `before`). */
  ghost predicate SteamWalked(snapshot: seq<Particle>, before: seq<ParticleView>, i: nat, list: seq<Particle>)
    reads snapshot
  {
    && i <= |snapshot| == |before| && Distinct(snapshot)
    && (forall j :: 0 <= j < i ==> snapshot[j].View() == Rise(before[j]))
    && (forall j :: i <= j < |snapshot| ==> snapshot[j].View() == before[j])
    && list == Select(snapshot, SteamFlags(before), i) + snapshot[i..]
  }

  /** The body of the steam pass for entry `i`: it rises and shrinks, and leaves the list when it is gone. */
  method Evaporate(snapshot: seq<Particle>, ghost before: seq<ParticleView>, i: nat, steam: Particle, steamParticles: seq<Particle>)
    returns (live: seq<Particle>)
    requires i < |snapshot| && steam == snapshot[i] && SteamWalked(snapshot, before, i, steamParticles)
    modifies steam`Y, steam`Size
    ensures SteamWalked(snapshot, before, i + 1, live)
  {
    assert forall j :: 0 <= j < |snapshot| && j != i ==> snapshot[j] != steam;
    steam.Y, steam.Size := steam.Y + steam.Speed, if steam.Size > 0 then steam.Size - 1 else 0;
    assert steam.View() == Rise(before[i]);
    WalkStep(snapshot, SteamFlags(before), i);
    live := if steam.Size <= 0 then RemoveFirst(steamParticles, steam) else steamParticles;
  }

  /** After the whole steam pass, the survivors are distinct, none is falling, and each has size left. */
  lemma EvaporatedValid(snapshot: seq<Particle>, before: seq<ParticleView>, steam: seq<Particle>, falling: seq<Particle>)
    requires SteamWalked(snapshot, before, |snapshot|, steam)
    requires forall j :: 0 <= j < |snapshot| ==> snapshot[j] !in falling
    ensures Distinct(steam)
    ensures forall s :: s in steam ==> s !in falling && s.Size > 0
    ensures forall s :: s in steam <==> s in snapshot && s.Size > 0
  {
    SelectDistinct(snapshot, SteamFlags(before), |snapshot|);
    forall s
      ensures s in steam <==> s in snapshot && s.Size > 0
      ensures s in steam ==> s !in falling
    {
      SelectMember(snapshot, SteamFlags(before), |snapshot|, s);
    }
  }

  class Game {
    var Particles: seq<Particle>
    var SteamParticles: seq<Particle>
    var Explosions: seq<Explosion>
    const Cart: Cart
    var Score: int
    var IsGameOver: bool
    var Lives: int
    var IsInvulnerable: bool
    var SpawnRate: int
    var ParticleSpeed: int
    var ParticleSize: int
    var CurrentEffect: ParticleEffect
    var EffectEndTime: int
    /** How many times the hit notification has fired. */
    var Hits: nat

    var spawnCounter: int
    const screenWidth: int
    const originalCartWidth: int
    var invulnerabilityEndTime: int

    /** The scalar state the collision state machine works on. */
    ghost function Status(): Session
      reads this`Score, this`Lives, this`IsGameOver, this`Hits, this`CurrentEffect, this`EffectEndTime,
               this`IsInvulnerable, this`invulnerabilityEndTime, Cart`Width, Cart`IsFrozen
    {
      Session(Score, Lives, IsGameOver, Hits, CurrentEffect, EffectEndTime,
              IsInvulnerable, invulnerabilityEndTime, Cart.Width, Cart.IsFrozen)
    }

    /** The falling pass from `start` over `views`, against this game's cart. */
    ghost function PassFrom(start: Session, views: seq<ParticleView>, now: int): Pass
      reads Cart`X, Cart`Y, Cart`Height
    {
      FallAll(start, views, CartFrame(Cart.X, Cart.Y, Cart.Height), originalCartWidth, now)
    }

    /**
     * The object invariant: the effect slot and the cart agree; no list
     * holds an object twice and the falling and steam lists share none;
     * falling particles never carry Steam; steam particles have size left;
     * explosions have between 1 and 10 ticks left.
     */
    ghost predicate Valid()
      reads this`Score, this`Lives, this`IsGameOver, this`Hits, this`CurrentEffect, this`EffectEndTime,
               this`IsInvulnerable, this`invulnerabilityEndTime, Cart`Width, Cart`IsFrozen,
               this`Particles, this`SteamParticles, this`Explosions, Particles`Effect, SteamParticles`Size, Explosions`LifeTime
    {
      && originalCartWidth == Cart.BaseWidth
      && Coupled(Status(), originalCartWidth)
      && FallingValid() && SteamValid() && ExplosionsValid()
    }

    /** Every falling particle is uncollected and at most 100 below the cart. */
    ghost predicate InPlay()
      reads this`Particles, Particles`IsCollected, Particles`Y, Cart`Y
    {
      forall p :: p in Particles ==> !p.IsCollected && p.Y <= Cart.Y + FallMargin
    }

    /**
     * The spawn counter's invariant: it starts at 0 and only counts up or
     * goes back to 0, so it is never negative. It is kept apart from
     * `Valid` because only spawning touches it.
     */
    predicate Counting()
      reads this`spawnCounter
    {
      spawnCounter >= 0
    }

    /** No falling particle twice, and none carries Steam. */
    ghost predicate FallingValid()
      reads this`Particles, Particles`Effect
    {
      Distinct(Particles) && forall p :: p in Particles ==> p.Effect != Steam
    }

    /** No steam particle twice, none also falling, and each has size left. */
    ghost predicate SteamValid()
      reads this`Particles, this`SteamParticles, SteamParticles`Size
    {
      && Distinct(SteamParticles)
      && (forall s :: s in SteamParticles ==> s !in Particles)
      && (forall s :: s in SteamParticles ==> s.Size > 0)
    }

    /** No explosion twice, and each has between 1 and 10 ticks left. */
    ghost predicate ExplosionsValid()
      reads this`Explosions, Explosions`LifeTime
    {
      Distinct(Explosions) && forall e :: e in Explosions ==> 0 < e.LifeTime <= ExplosionTicks
    }

    /** A new game: cart 50 above the bottom, three lives, nothing on screen. */
    constructor (screenWidth: int, screenHeight: int)
      ensures Valid() && Counting() && fresh(Cart)
      ensures this.screenWidth == screenWidth && Cart.Y == screenHeight - 50
      ensures Cart.Width == originalCartWidth == 60 && !Cart.IsFrozen
      ensures Particles == [] && SteamParticles == [] && Explosions == []
      ensures Score == 0 && Lives == 3 && !IsGameOver && !IsInvulnerable && Hits == 0
      ensures CurrentEffect == None && spawnCounter == 0
      ensures SpawnRate == 50 && ParticleSpeed == 3 && ParticleSize == 10
    {
      Particles, SteamParticles, Explosions := [], [], [];
      var cart := new Cart();
      Cart := cart;
      Score, IsGameOver, Lives, IsInvulnerable := 0, false, 3, false;
      SpawnRate, ParticleSpeed, ParticleSize := 50, 3, 10;
      CurrentEffect, EffectEndTime, Hits := None, 0, 0;
      spawnCounter, invulnerabilityEndTime := 0, 0;
      this.screenWidth := screenWidth;
      originalCartWidth := cart.BaseWidth;
      new;
      Cart.Y := screenHeight - 50;
    }

    /**
     * One tick. Once the game is over nothing changes; otherwise the six
     * passes run in order.
     */
    method Update(now: int, rnd: Draws)
      requires Valid() && Counting()
      requires rnd.Fits()
      requires !IsGameOver && SpawnsAt(spawnCounter, SpawnRate) ==> CanReturn(rnd.spawnX, 0, screenWidth)
      modifies this`Particles, this`SteamParticles, this`Explosions, this`Score, this`Lives, this`IsGameOver, this`Hits
      modifies this`CurrentEffect, this`EffectEndTime, this`IsInvulnerable, this`invulnerabilityEndTime, this`spawnCounter
      modifies Cart`Width, Cart`IsFrozen, Particles`Y, Particles`IsCollected, SteamParticles`Y, SteamParticles`Size, Explosions`LifeTime
      ensures Valid() && Counting()
      ensures old(IsGameOver) ==>
                unchanged(this, Cart) && unchanged(Particles) && unchanged(SteamParticles) && unchanged(Explosions)
      ensures old(IsGameOver) ==> IsGameOver
      ensures Score >= old(Score)
      ensures Lives <= old(Lives) && Lives + Hits == old(Lives + Hits)
      ensures spawnCounter == if old(IsGameOver) then old(spawnCounter) else NextCounter(old(spawnCounter), SpawnRate)
      ensures !old(IsGameOver) && 1 <= SpawnRate <= 99 ==> 0 <= spawnCounter < Threshold(SpawnRate)
      ensures |Particles| <= |old(Particles)| + 1
      ensures forall p :: p in Particles ==> p in old(Particles) || fresh(p)
      ensures forall p, q :: p in Particles && q in Particles && p !in old(Particles) && q !in old(Particles) ==> p == q
      ensures !old(IsGameOver) ==> InPlay()
    {
      if IsGameOver {
        return;
      }
      CheckEffects(now);
      SpawnParticles(rnd.spawnX, rnd.color);
      Animate(now, rnd);
    }

    /**
     * The moving part of a tick, after expiry and spawning: the falling
     * pass, steam emission, the steam pass and the explosion countdown.
     */
    method Animate(now: int, rnd: Draws)
      requires Valid() && rnd.Fits()
      modifies this`Particles, this`SteamParticles, this`Explosions, this`Score, this`Lives, this`IsGameOver, this`Hits
      modifies this`CurrentEffect, this`EffectEndTime, this`IsInvulnerable, this`invulnerabilityEndTime
      modifies Cart`Width, Cart`IsFrozen, Particles`Y, Particles`IsCollected, SteamParticles`Y, SteamParticles`Size, Explosions`LifeTime
      ensures Valid()
      ensures Score >= old(Score) && Lives <= old(Lives) && Lives + Hits == old(Lives + Hits)
      ensures old(IsGameOver) ==> IsGameOver
      ensures |Particles| <= |old(Particles)|
      ensures forall p :: p in Particles ==> p in old(Particles)
      ensures InPlay()
    {
      FallingPass(now);
      Fade(rnd);
    }

    method FallingPass(now: int)
      requires Valid()
      modifies this`Particles, this`Explosions, this`Score, this`Lives, this`IsGameOver, this`Hits
      modifies this`CurrentEffect, this`EffectEndTime, this`IsInvulnerable, this`invulnerabilityEndTime
      modifies Cart`Width, Cart`IsFrozen, Particles`Y, Particles`IsCollected
      ensures Valid() && InPlay()
      ensures Score >= old(Score) && Lives <= old(Lives) && Lives + Hits == old(Lives + Hits)
      ensures old(IsGameOver) ==> IsGameOver
      ensures |Particles| <= |old(Particles)|
      ensures forall p :: p in Particles ==> p in old(Particles)
      ensures |old(Explosions)| <= |Explosions| && Explosions[..|old(Explosions)|] == old(Explosions)
      ensures forall k :: 0 <= k < |Explosions| ==> Explosions[k] in old(Explosions) || fresh(Explosions[k])
    {
      ghost var pass := UpdateParticles(now);
      assert forall k :: 0 <= k < |Explosions| ==> Explosions[k] in old(Explosions) || fresh(Explosions[k]);
    }

    /**
     * The rest of a tick once the falling pass is done: steam emission, the
     * steam pass and the explosion countdown, none of which touches the
     * falling particles.
     */
    method Fade(rnd: Draws)
      requires Valid() && rnd.Fits()
      requires InPlay()
      modifies this`SteamParticles, this`Explosions, SteamParticles`Y, SteamParticles`Size, Explosions`LifeTime
      ensures Valid()
      ensures InPlay()
    {
      GenerateSteam(rnd.steamRoll, rnd.steamDx, rnd.steamSize, rnd.steamLift);
      Dissipate();
    }

    /** The steam pass and then the explosion countdown. */
    method Dissipate()
      requires Valid() && InPlay()
      modifies this`SteamParticles, this`Explosions, SteamParticles`Y, SteamParticles`Size, Explosions`LifeTime
      ensures Valid() && InPlay()
    {
      UpdateSteam();
      UpdateExplosions();
    }

    /** The expiry check: each deadline is checked and cleared on its own. */
    method CheckEffects(now: int)
      requires Valid()
      modifies this`CurrentEffect, this`IsInvulnerable, Cart`Width, Cart`IsFrozen
      ensures Valid()
      ensures Status() == Expire(old(Status()), originalCartWidth, now)
    {
      if CurrentEffect != None && now >= EffectEndTime {
        ResetCurrentEffect();
      }
      if IsInvulnerable && now >= invulnerabilityEndTime {
        IsInvulnerable := false;
      }
    }

    /** The spawn counter ticks; when it reaches the threshold one particle is created and it resets. */
    method SpawnParticles(x: int, color: int)
      requires 0 <= color < 100
      requires SpawnsAt(spawnCounter, SpawnRate) ==> CanReturn(x, 0, screenWidth)
      requires Valid() && Counting()
      modifies this`spawnCounter, this`Particles
      ensures Valid() && Counting()
      ensures spawnCounter == NextCounter(old(spawnCounter), SpawnRate)
      ensures forall p :: p in Particles && p !in old(Particles) ==> fresh(p) && p == Particles[|Particles| - 1]
      ensures !SpawnsAt(old(spawnCounter), SpawnRate) ==> Particles == old(Particles)
      ensures SpawnsAt(old(spawnCounter), SpawnRate) ==>
                |Particles| == |old(Particles)| + 1 && Particles[..|old(Particles)|] == old(Particles) &&
                fresh(Particles[|old(Particles)|]) &&
                Particles[|old(Particles)|].View() ==
                  ParticleView(x, -20, ParticleSize, ParticleSpeed, Draw(color).color, Draw(color).effect, false)
    {
      spawnCounter := spawnCounter + 1;
      if spawnCounter >= 100 - SpawnRate {
        CreateParticle(x, color);
        spawnCounter := 0;
      }
    }

    /** A new falling particle at `x`, just above the screen, coloured by the draw. */
    method CreateParticle(x: int, color: int)
      requires 0 <= color < 100 && CanReturn(x, 0, screenWidth)
      requires Valid()
      modifies this`Particles
      ensures Valid()
      ensures |Particles| == |old(Particles)| + 1 && Particles[..|old(Particles)|] == old(Particles)
      ensures fresh(Particles[|old(Particles)|])
      ensures Particles[|old(Particles)|].View() ==
                ParticleView(x, -20, ParticleSize, ParticleSpeed, Draw(color).color, Draw(color).effect, false)
    {
      var drawn := Draw(color);
      var particle := new Particle.Init(ParticleView(x, -20, ParticleSize, ParticleSpeed, drawn.color, drawn.effect, false));
      Particles := Particles + [particle];
    }

    /** The explosions list is `e0` followed by one new explosion per blast in `blasts`. */
    ghost predicate BlastsAdded(e0: seq<Explosion>, blasts: seq<Blast>)
      reads this`Explosions, Explosions
    {
      && |Explosions| == |e0| + |blasts| && Explosions[..|e0|] == e0
      && forall k :: 0 <= k < |blasts| ==> Explosions[|e0| + k].View() == blasts[k]
    }

    /** The cart is where the pass started it: no pass of a tick moves it. */
    ghost predicate CartAt(frame: CartFrame)
      reads Cart`X, Cart`Y, Cart`Height
    {
      Cart.X == frame.x && Cart.Y == frame.y && Cart.Height == frame.height && originalCartWidth == Cart.BaseWidth
    }

    /**
     * The falling pass has walked the first `i` entries of `snapshot`
     * (whose views were `before`; `views` are the ones the whole pass gives
     * them), and `done` is the pass over those entries: they hold their new
     * views and the rest are untouched; the cart has not moved; the session
     * is `done`'s; the live list holds the walked survivors, then the rest;
     * the explosions list grew from `e0` by `done`'s blasts; the steam and
     * explosion invariants hold.
     */
    ghost predicate FallWalked(snapshot: seq<Particle>, before: seq<ParticleView>, views: seq<ParticleView>,
                               done: Pass, frame: CartFrame, e0: seq<Explosion>, i: nat)
      reads this`Score, this`Lives, this`IsGameOver, this`Hits, this`CurrentEffect, this`EffectEndTime,
               this`IsInvulnerable, this`invulnerabilityEndTime, Cart`Width, Cart`IsFrozen,
               Cart`X, Cart`Y, Cart`Height, this`Particles, this`SteamParticles, this`Explosions, snapshot,
               SteamParticles`Size, Explosions
    {
      && Walked(snapshot, before, views, i)
      && CartAt(frame) && Status() == done.session
      && Particles == Select(snapshot, SurvivorFlags(views, frame.y), i) + snapshot[i..]
      && BlastsAdded(e0, done.blasts)
      && SteamValid() && ExplosionsValid()
    }

    /**
     * The falling pass over a snapshot of the list: every particle falls,
     * those touching the cart are handled as collisions, and those collected
     * or more than 100 below the cart are removed. The pass may go on after
     * a lethal hit.
     */
    method UpdateParticles(now: int) returns (ghost pass: Pass)
      requires Valid()
      modifies this`Particles, this`Explosions, this`Score, this`Lives, this`IsGameOver, this`Hits
      modifies this`CurrentEffect, this`EffectEndTime, this`IsInvulnerable, this`invulnerabilityEndTime
      modifies Cart`Width, Cart`IsFrozen, Particles`Y, Particles`IsCollected
      ensures Valid()
      ensures pass == old(PassFrom(Status(), ViewsOf(Particles), now))
      ensures Status() == pass.session
      ensures forall j {:trigger pass.views[j]} :: 0 <= j < |old(Particles)| ==> old(Particles)[j].View() == pass.views[j]
      ensures |Particles| <= |old(Particles)|
      ensures forall p :: p in Particles <==> p in old(Particles) && Survives(p.View(), Cart.Y)
      ensures BlastsAdded(old(Explosions), pass.blasts)
      ensures forall e :: e in Explosions ==> e in old(Explosions) || fresh(e)
      ensures InPlay()
      ensures Score >= old(Score) && Lives <= old(Lives) && Lives + Hits == old(Lives + Hits)
      ensures old(IsGameOver) ==> IsGameOver
    {
      var snapshot := Particles;
      ghost var start := Status();
      ghost var before := ViewsOf(snapshot);
      ghost var frame := CartFrame(Cart.X, Cart.Y, Cart.Height);
      ghost var whole := FallAll(start, before, frame, originalCartWidth, now);
      ghost var keep := SurvivorFlags(whole.views, frame.y);
      ghost var e0 := Explosions;
      ghost var done := Pass(start, [], []);
      FallStarts(snapshot, before, whole, frame, e0);
      var i := 0;
      // The first `i` entries have been walked: they hold the whole pass's
      // views, the session is the pass over them, the live list holds their
      // survivors and then the rest, and the explosions list grew by their blasts.
      while i < |snapshot|
        invariant 0 <= i <= |snapshot|
        invariant done == FallAll(start, before[..i], frame, originalCartWidth, now)
        invariant done.views == whole.views[..i]
        invariant FallWalked(snapshot, before, whole.views, done, frame, e0, i)
        invariant forall e :: e in Explosions ==> e in e0 || fresh(e)
      {
        FallAllNext(start, before, whole, done, i, frame, originalCartWidth, now);
        FallStep(snapshot, before, whole.views, done, frame, now, e0, i, snapshot[i]);
        done, i := FallOne(done, before[i], frame, originalCartWidth, now), i + 1;
      }
      FallenValid(snapshot, before, whole, done, start, frame, now, e0, i);
      FallAllSession(start, before, frame, originalCartWidth, now);
      pass := whole;
    }

    /** Before the falling pass nothing has been walked. */
    lemma FallStarts(snapshot: seq<Particle>, before: seq<ParticleView>, whole: Pass, frame: CartFrame, e0: seq<Explosion>)
      requires snapshot == Particles && before == ViewsOf(snapshot) && |whole.views| == |before|
      requires Valid() && CartAt(frame) && e0 == Explosions
      ensures FallWalked(snapshot, before, whole.views, Pass(Status(), [], []), frame, e0, 0)
      ensures forall j :: 0 <= j < |before| ==> before[j].effect != Steam
    {
      assert Particles == Select(snapshot, SurvivorFlags(whole.views, frame.y), 0) + snapshot[0..];
      NoSteamIn(snapshot, before);
    }

    /**
     * After the whole falling pass the object invariant holds again, every
     * survivor is uncollected and near enough, and the pass over the walked
     * entries is the pass over the whole snapshot.
     */
    lemma FallenValid(snapshot: seq<Particle>, before: seq<ParticleView>, whole: Pass, done: Pass, start: Session,
                      frame: CartFrame, now: int, e0: seq<Explosion>, i: nat)
      requires i == |snapshot| == |before|
      requires whole == FallAll(start, before, frame, originalCartWidth, now)
      requires done == FallAll(start, before[..i], frame, originalCartWidth, now)
      requires FallWalked(snapshot, before, whole.views, done, frame, e0, i)
      requires Coupled(start, originalCartWidth)
      requires forall j :: 0 <= j < |before| ==> before[j].effect != Steam
      ensures Status() == whole.session && BlastsAdded(e0, whole.blasts)
      ensures |whole.views| == |snapshot| && forall j :: 0 <= j < |snapshot| ==> snapshot[j].View() == whole.views[j]
      ensures |Particles| <= |snapshot|
      ensures forall p :: p in Particles <==> p in snapshot && Survives(p.View(), Cart.Y)
      ensures Valid()
      ensures InPlay()
    {
      var keep := SurvivorFlags(whole.views, frame.y);
      assert before[..|snapshot|] == before;
      assert Particles == Select(snapshot, keep, |snapshot|);
      FallAllViews(start, before, frame, originalCartWidth, now);
      FallAllCoupled(start, before, frame, originalCartWidth, now);
      SelectDistinct(snapshot, keep, |snapshot|);
      forall p
        ensures p in Particles <==> p in snapshot && Survives(p.View(), Cart.Y)
        ensures p in Particles ==> p.Effect != Steam
      {
        SelectMember(snapshot, keep, |snapshot|, p);
      }
    }

    /**
     * One step of the falling pass, from the pass `done` over the walked
     * entries: the particle falls, may be caught, and may leave the list;
     * `views` are the views the whole pass gives the snapshot.
     */
    method FallStep(snapshot: seq<Particle>, ghost before: seq<ParticleView>, ghost views: seq<ParticleView>,
                    ghost done: Pass, ghost frame: CartFrame, now: int, ghost e0: seq<Explosion>, i: nat, particle: Particle)
      requires i < |snapshot| && particle == snapshot[i] && FallWalked(snapshot, before, views, done, frame, e0, i)
      requires FallOne(done, before[i], frame, originalCartWidth, now).views == views[..i + 1]
      modifies this`Particles, this`Explosions, this`Score, this`Lives, this`IsGameOver, this`Hits
      modifies this`CurrentEffect, this`EffectEndTime, this`IsInvulnerable, this`invulnerabilityEndTime
      modifies Cart`Width, Cart`IsFrozen, particle`Y, particle`IsCollected
      ensures FallWalked(snapshot, before, views, FallOne(done, before[i], frame, originalCartWidth, now), frame, e0, i + 1)
      ensures forall e :: e in Explosions ==> e in old(Explosions) || fresh(e)
    {
      assert particle.View() == before[i];
      assert particle in Particles && particle !in SteamParticles;
      assert forall j :: 0 <= j < |snapshot| && j != i ==> snapshot[j] != particle;
      Fall(particle, done, frame, now, e0);
      assert particle.View() == views[i];
      Sweep(snapshot, views, frame, i);
    }

    /**
     * The loop body's second half for entry `i`: once it has fallen, a
     * particle that is collected or more than 100 below the cart leaves the
     * live list.
     */
    method Sweep(snapshot: seq<Particle>, ghost views: seq<ParticleView>, ghost frame: CartFrame, i: nat)
      requires i < |snapshot| == |views| && Distinct(snapshot) && snapshot[i].View() == views[i]
      requires Cart.Y == frame.y && Particles == Select(snapshot, SurvivorFlags(views, frame.y), i) + snapshot[i..]
      requires SteamValid() && ExplosionsValid()
      modifies this`Particles
      ensures Particles == Select(snapshot, SurvivorFlags(views, frame.y), i + 1) + snapshot[i + 1..]
      ensures SteamValid() && ExplosionsValid()
    {
      var particle := snapshot[i];
      var live := if particle.IsCollected || particle.Y > Cart.Y + FallMargin then RemoveFirst(Particles, particle) else Particles;
      WalkStep(snapshot, SurvivorFlags(views, frame.y), i);
      assert forall j :: 0 <= j < |Explosions| ==> Explosions[j] as object != this;
      Particles := live;
    }

    /**
     * The loop body's first half for one particle: it falls by its speed,
     * and if it then touches the cart it is handled as a collision; this is
     * one FallOne step of the pass.
     */
    method Fall(particle: Particle, ghost acc: Pass, ghost frame: CartFrame, now: int, ghost e0: seq<Explosion>)
      requires CartAt(frame) && Status() == acc.session && ExplosionsValid() && BlastsAdded(e0, acc.blasts)
      modifies this`Explosions, this`Score, this`Lives, this`IsGameOver, this`Hits
      modifies this`CurrentEffect, this`EffectEndTime, this`IsInvulnerable, this`invulnerabilityEndTime
      modifies Cart`Width, Cart`IsFrozen, particle`Y, particle`IsCollected
      ensures CartAt(frame) && ExplosionsValid()
      ensures Status() == FallOne(acc, old(particle.View()), frame, originalCartWidth, now).session
      ensures FallOne(acc, old(particle.View()), frame, originalCartWidth, now).views == acc.views + [particle.View()]
      ensures forall e :: e in Explosions ==> e in old(Explosions) || fresh(e)
      ensures BlastsAdded(e0, FallOne(acc, old(particle.View()), frame, originalCartWidth, now).blasts)
    {
      ghost var d := particle.View();
      particle.Y := particle.Y + particle.Speed;
      ghost var moved := particle.View();
      assert moved == d.(y := d.y + d.speed);
      if IntersectsWith(Cart.Bounds(), Rectangle(particle.X, particle.Y, particle.Size, particle.Size)) {
        Catch(particle, acc, frame, now, e0);
        assert FallOne(acc, d, frame, originalCartWidth, now) ==
               Pass(Collide(acc.session, Hazardous(d.color), d.effect, originalCartWidth, now),
                    acc.views + [particle.View()], acc.blasts + [BlastOf(particle.View())]);
      } else {
        assert FallOne(acc, d, frame, originalCartWidth, now) == Pass(acc.session, acc.views + [moved], acc.blasts);
      }
    }

    /** A particle that touches the cart during the falling pass: its collision is handled. */
    method Catch(particle: Particle, ghost acc: Pass, ghost frame: CartFrame, now: int, ghost e0: seq<Explosion>)
      requires CartAt(frame) && Status() == acc.session && ExplosionsValid() && BlastsAdded(e0, acc.blasts)
      modifies this`Explosions, this`Score, this`Lives, this`IsGameOver, this`Hits
      modifies this`CurrentEffect, this`EffectEndTime, this`IsInvulnerable, this`invulnerabilityEndTime
      modifies Cart`Width, Cart`IsFrozen, particle`IsCollected
      ensures CartAt(frame) && ExplosionsValid()
      ensures particle.View() == old(particle.View()).(collected := true)
      ensures Status() == Collide(acc.session, Hazardous(old(particle.Color)), old(particle.Effect), originalCartWidth, now)
      ensures BlastsAdded(e0, acc.blasts + [BlastOf(particle.View())])
      ensures forall e :: e in Explosions ==> e in old(Explosions) || fresh(e)
    {
      ghost var e1 := Explosions;
      HandleParticleCollision(particle, now);
      assert Explosions == e1 + [Explosions[|e1|]];
    }

    /**
     * A caught particle: it is collected and leaves an explosion; then the
     * collision state machine runs (a life lost on an unguarded hazard, the
     * game over when none is left, otherwise the particle's effect).
     */
    method HandleParticleCollision(particle: Particle, now: int)
      requires originalCartWidth == Cart.BaseWidth && ExplosionsValid()
      modifies this`Explosions, this`Score, this`Lives, this`IsGameOver, this`Hits
      modifies this`CurrentEffect, this`EffectEndTime, this`IsInvulnerable, this`invulnerabilityEndTime
      modifies Cart`Width, Cart`IsFrozen, particle`IsCollected
      ensures particle.IsCollected && ExplosionsValid()
      ensures Status() == Collide(old(Status()), old(particle.IsDangerous()), particle.Effect, originalCartWidth, now)
      ensures |Explosions| == |old(Explosions)| + 1 && Explosions[..|old(Explosions)|] == old(Explosions)
      ensures fresh(Explosions[|old(Explosions)|]) && Explosions[|old(Explosions)|].View() == BlastOf(particle.View())
    {
      particle.IsCollected := true;
      CreateExplosion(particle);
      if particle.IsDangerous() && !IsInvulnerable {
        Lives := Lives - 1;
        Hits := Hits + 1;
        if Lives <= 0 {
          IsGameOver := true;
          return;
        }
      }
      ApplyParticleEffect(particle, now);
    }

    /** An explosion at the particle's centre, as wide as the particle, for ten ticks. */
    method CreateExplosion(particle: Particle)
      requires ExplosionsValid()
      modifies this`Explosions
      ensures ExplosionsValid()
      ensures |Explosions| == |old(Explosions)| + 1 && Explosions[..|old(Explosions)|] == old(Explosions)
      ensures fresh(Explosions[|old(Explosions)|]) && Explosions[|old(Explosions)|].View() == BlastOf(particle.View())
    {
      var location := Point(particle.X + Half(particle.Size), particle.Y + Half(particle.Size));
      var explosion := new Explosion(Blast(location, particle.Size, ExplosionTicks, particle.Color));
      Explosions := Explosions + [explosion];
    }

    /** Every explosion ticks down once; those with no ticks left are removed. */
    method UpdateExplosions()
      requires ExplosionsValid()
      modifies this`Explosions, Explosions`LifeTime
      ensures ExplosionsValid()
      ensures forall j :: 0 <= j < |old(Explosions)| ==> old(Explosions)[j].View() == Tick(old(Explosions[j].View()))
      ensures forall e :: e in Explosions <==> e in old(Explosions) && e.LifeTime > 0
    {
      var snapshot := Explosions;
      ghost var before := BlastsOf(snapshot);
      assert forall j :: 0 <= j < |before| ==> 0 < before[j].lifeTime <= ExplosionTicks;
      CountDownAll(snapshot, before);
      CountedDownValid(snapshot, before, Explosions);
    }

    /**
     * The loop of the explosion pass over the snapshot: every entry ticks
     * once, in order, and those that run out leave the live list.
     */
    method CountDownAll(snapshot: seq<Explosion>, ghost before: seq<Blast>)
      requires ExplosionsWalked(snapshot, before, 0, Explosions)
      modifies this`Explosions, snapshot`LifeTime
      ensures ExplosionsWalked(snapshot, before, |snapshot|, Explosions)
    {
      var i := 0;
      while i < |snapshot|
        invariant 0 <= i <= |snapshot|
        invariant ExplosionsWalked(snapshot, before, i, Explosions)
        modifies this`Explosions, snapshot`LifeTime
      {
        TickExplosion(snapshot, before, i, snapshot[i]);
        i := i + 1;
      }
    }

    /** One step of the explosion pass, on the live list itself. */
    method TickExplosion(snapshot: seq<Explosion>, ghost before: seq<Blast>, i: nat, explosion: Explosion)
      requires i < |snapshot| && explosion == snapshot[i] && ExplosionsWalked(snapshot, before, i, Explosions)
      modifies this`Explosions, explosion`LifeTime
      ensures ExplosionsWalked(snapshot, before, i + 1, Explosions)
    {
      var live := CountDown(snapshot, before, i, explosion, Explosions);
      assert forall j :: 0 <= j < |snapshot| ==> snapshot[j] as object != this;
      Explosions := live;
    }

    /**
     * Applies a caught particle's effect. The current effect is cleared
     * first, whatever the particle's effect is.
     */
    method ApplyParticleEffect(particle: Particle, now: int)
      requires originalCartWidth == Cart.BaseWidth
      modifies this`Score, this`CurrentEffect, this`EffectEndTime, this`IsInvulnerable, this`invulnerabilityEndTime
      modifies Cart`Width, Cart`IsFrozen
      ensures Status() == ApplyEffect(old(Status()), particle.Effect, originalCartWidth, now)
    {
      ResetCurrentEffect();
      CurrentEffect := particle.Effect;
      match particle.Effect {
        case DoubleSize =>
          Cart.Width := originalCartWidth * 2;
          EffectEndTime := now + LongEffectMs;
        case Freeze =>
          Cart.IsFrozen := true;
          EffectEndTime := now + FreezeMs;
        case HalfSize =>
          Cart.Width := Half(originalCartWidth);
          EffectEndTime := now + LongEffectMs;
        case BonusPoints =>
          Score := Score + 5;
          CurrentEffect := None;
        case Invulnerability =>
          ActivateInvulnerability(InvulnerableMs, now);
          CurrentEffect := None;
        case None =>
          Score := Score + 1;
        case Steam =>
      }
    }

    /** Invulnerability for `ms` milliseconds; nothing but its flag and deadline changes. */
    method ActivateInvulnerability(ms: int, now: int)
      modifies this`IsInvulnerable, this`invulnerabilityEndTime
      ensures Status() == Invulnerable(old(Status()), ms, now)
    {
      IsInvulnerable := true;
      invulnerabilityEndTime := now + ms;
    }

    /**
     * While the cart moved on its last pointer update, with probability
     * 3 in 10 a steam puff appears at the cart's top centre.
     */
    method GenerateSteam(roll: int, dx: int, size: int, lift: int)
      requires 0 <= roll < 10 && -10 <= dx < 10 && 0 <= size < 10 && 0 <= lift < 3
      requires Valid()
      modifies this`SteamParticles
      ensures Valid()
      ensures forall s :: s in SteamParticles ==> s in old(SteamParticles) || fresh(s)
      ensures !(Cart.LastMovement != 0 && roll < 3) ==> SteamParticles == old(SteamParticles)
      ensures Cart.LastMovement != 0 && roll < 3 ==>
                |SteamParticles| == |old(SteamParticles)| + 1 &&
                SteamParticles[..|old(SteamParticles)|] == old(SteamParticles) &&
                fresh(SteamParticles[|old(SteamParticles)|]) &&
                SteamParticles[|old(SteamParticles)|].View() ==
                  ParticleView(Cart.X + Half(Cart.Width) + dx, Cart.Y, 5 + size, -1 - lift, WhiteSmoke, Steam, false)
    {
      if Cart.LastMovement != 0 && roll < 3 {
        var steam := new Particle.Init(ParticleView(Cart.X + Half(Cart.Width) + dx, Cart.Y, 5 + size, -1 - lift, WhiteSmoke, Steam, false));
        SteamParticles := SteamParticles + [steam];
      }
    }

    /** Every steam particle rises and shrinks by one; those with no size left are removed. */
    method UpdateSteam()
      requires SteamValid()
      modifies this`SteamParticles, SteamParticles`Y, SteamParticles`Size
      ensures SteamValid()
      ensures forall p :: p in Particles ==> p.Y == old(p.Y)
      ensures forall j :: 0 <= j < |old(SteamParticles)| ==> old(SteamParticles)[j].View() == Rise(old(SteamParticles[j].View()))
      ensures forall s :: s in SteamParticles <==> s in old(SteamParticles) && s.Size > 0
    {
      var snapshot := SteamParticles;
      ghost var before := ViewsOf(snapshot);
      assert forall j :: 0 <= j < |snapshot| ==> snapshot[j] !in Particles;
      var i := 0;
      while i < |snapshot|
        invariant 0 <= i <= |snapshot|
        invariant SteamWalked(snapshot, before, i, SteamParticles)
        invariant forall p :: p in old(Particles) ==> p.Y == old(p.Y)
        modifies this`SteamParticles, snapshot`Y, snapshot`Size
      {
        assert snapshot[i] !in Particles;
        TickSteam(snapshot, before, i, snapshot[i]);
        i := i + 1;
      }
      EvaporatedValid(snapshot, before, SteamParticles, Particles);
    }

    /** One step of the steam pass, on the live list itself. */
    method TickSteam(snapshot: seq<Particle>, ghost before: seq<ParticleView>, i: nat, steam: Particle)
      requires i < |snapshot| && steam == snapshot[i] && SteamWalked(snapshot, before, i, SteamParticles)
      requires steam !in Particles
      modifies this`SteamParticles, steam`Y, steam`Size
      ensures SteamWalked(snapshot, before, i + 1, SteamParticles)
      ensures forall p :: p in Particles ==> p.Y == old(p.Y)
    {
      var live := Evaporate(snapshot, before, i, steam, SteamParticles);
      assert forall j :: 0 <= j < |snapshot| ==> snapshot[j] as object != this;
      SteamParticles := live;
    }

    /** Clears the current effect: base width, not frozen, slot None. */
    method ResetCurrentEffect()
      requires originalCartWidth == Cart.BaseWidth
      modifies this`CurrentEffect, Cart`Width, Cart`IsFrozen
      ensures Status() == ResetEffect(old(Status()), originalCartWidth)
    {
      Cart.ResetSize();
      CurrentEffect := None;
    }

    /**
     * A new session: no particles, steam or explosions, score 0, three
     * lives, not over, no effect, not invulnerable, cart at base width and
     * free. The only way out of game-over.
     */
    method Reset()
      requires originalCartWidth == Cart.BaseWidth
      modifies this`Particles, this`SteamParticles, this`Explosions, this`Score, this`Lives
      modifies this`IsGameOver, this`CurrentEffect, this`IsInvulnerable, Cart`Width, Cart`IsFrozen
      ensures Valid()
      ensures Particles == [] && SteamParticles == [] && Explosions == []
      ensures Score == 0 && Lives == 3 && !IsGameOver && CurrentEffect == None && !IsInvulnerable
      ensures Cart.Width == Cart.BaseWidth && !Cart.IsFrozen
    {
      Particles, SteamParticles, Explosions := [], [], [];
      Score := 0;
      Lives := 3;
      IsGameOver := false;
      CurrentEffect := None;
      IsInvulnerable := false;
      Cart.ResetSize();
    }
  }
}
