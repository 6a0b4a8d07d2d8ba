/**
 * The collision state machine of the game engine, on values: the scalar
 * session state (score, lives, game-over, the hit notification, the single
 * current-effect slot with its deadline, the separate invulnerability
 * deadline) together with the two cart fields the effect slot drives
 * (width and frozen). Game's methods are proved to move their fields
 * exactly as these functions say.
 *
 * Times are integer milliseconds; `now` is the clock reading of the tick.
 */
module Effects {
  import opened DotNet

  /** What a particle does when it is caught. */
  datatype ParticleEffect = None | DoubleSize | Freeze | HalfSize | BonusPoints | Steam | Invulnerability

  /** The effects that stay in the current-effect slot until a deadline. */
  predicate IsTimed(e: ParticleEffect)
  {
    e == DoubleSize || e == Freeze || e == HalfSize
  }

  /** Only red particles are hazards. */
  predicate Hazardous(c: Color)
  {
    c == Red
  }

  /** How long the timed effects and invulnerability last, in milliseconds. */
  const LongEffectMs := 5000
  const FreezeMs := 2000
  const InvulnerableMs := 5000

  /**
   * The game's scalar state plus the two cart fields the effect slot owns.
   * `hits` counts how many times the hit notification has fired.
   */
  datatype Session = Session(
    score: int,
    lives: int,
    gameOver: bool,
    hits: nat,
    effect: ParticleEffect,
    effectEnd: int,
    invulnerable: bool,
    invulnerableEnd: int,
    width: int,
    frozen: bool)

  /**
   * The effect slot holds None or a timed effect, and the cart shows it:
   * DoubleSize doubles the base width, HalfSize halves it, Freeze keeps the
   * base width and freezes the cart, None leaves the cart at base and free.
   */
  ghost predicate Coupled(s: Session, base: int)
  {
    match s.effect
    case None => s.width == base && !s.frozen
    case DoubleSize => s.width == base * 2 && !s.frozen
    case HalfSize => s.width == Half(base) && !s.frozen
    case Freeze => s.width == base && s.frozen
    case _ => false
  }

  /** Clearing the current effect: the cart is back to base width and free, the slot is None. */
  function ResetEffect(s: Session, base: int): (r: Session)
    ensures Coupled(r, base) && r.effect == None
    ensures r.(effect := s.effect, width := s.width, frozen := s.frozen) == s
  {
    s.(width := base, frozen := false, effect := None)
  }

  /** Granting invulnerability for `ms` milliseconds from `now`. */
  function Invulnerable(s: Session, ms: int, now: int): (r: Session)
    ensures r.invulnerable && r.invulnerableEnd == now + ms
    ensures r.(invulnerable := s.invulnerable, invulnerableEnd := s.invulnerableEnd) == s
  {
    s.(invulnerable := true, invulnerableEnd := now + ms)
  }

  /**
   * Applying a caught particle's effect. The slot is cleared first whatever
   * the effect; a timed effect then takes the slot with its deadline, the
   * instantaneous ones leave it None.
   */
  function ApplyEffect(s: Session, e: ParticleEffect, base: int, now: int): (r: Session)
    ensures e != Steam ==> Coupled(r, base)
    ensures r.effect == (if IsTimed(e) || e == Steam then e else None)
    ensures r.score == s.score + (if e == BonusPoints then 5 else if e == None then 1 else 0)
    ensures r.lives == s.lives && r.gameOver == s.gameOver && r.hits == s.hits
    ensures r.effectEnd == (if e == Freeze then now + FreezeMs
                            else if e == DoubleSize || e == HalfSize then now + LongEffectMs
                            else s.effectEnd)
    ensures r.invulnerable == (s.invulnerable || e == Invulnerability)
    ensures r.invulnerableEnd == (if e == Invulnerability then now + InvulnerableMs else s.invulnerableEnd)
  {
    var cleared := ResetEffect(s, base).(effect := e);
    match e
    case DoubleSize => cleared.(width := base * 2, effectEnd := now + LongEffectMs)
    case Freeze => cleared.(frozen := true, effectEnd := now + FreezeMs)
    case HalfSize => cleared.(width := Half(base), effectEnd := now + LongEffectMs)
    case BonusPoints => cleared.(score := s.score + 5, effect := None)
    case Invulnerability => Invulnerable(cleared, InvulnerableMs, now).(effect := None)
    case None => cleared.(score := s.score + 1)
    case Steam => cleared
  }

  /** A collision costs a life: a hazard caught while not invulnerable. */
  predicate Hurts(s: Session, dangerous: bool)
  {
    dangerous && !s.invulnerable
  }

  /**
   * A caught particle: a hazard caught while not invulnerable costs a life
   * and fires the hit notification; if that leaves no lives the game is
   * over and the particle's effect is not applied. Otherwise the effect is
   * applied.
   */
  function Collide(s: Session, dangerous: bool, e: ParticleEffect, base: int, now: int): (r: Session)
    ensures r.lives == (if Hurts(s, dangerous) then s.lives - 1 else s.lives)
    ensures r.hits == (if Hurts(s, dangerous) then s.hits + 1 else s.hits)
    ensures r.gameOver == (s.gameOver || (Hurts(s, dangerous) && s.lives - 1 <= 0))
    ensures Hurts(s, dangerous) && s.lives - 1 <= 0 ==>
              r == s.(lives := s.lives - 1, hits := s.hits + 1, gameOver := true)
    ensures r.score >= s.score
    ensures !(Hurts(s, dangerous) && s.lives - 1 <= 0) ==>
              r.score - s.score == (if e == BonusPoints then 5 else if e == None then 1 else 0)
    ensures !(Hurts(s, dangerous) && s.lives - 1 <= 0) ==>
              r.(lives := s.lives, hits := s.hits) == ApplyEffect(s, e, base, now)
    ensures e != Steam && Coupled(s, base) ==> Coupled(r, base)
  {
    if Hurts(s, dangerous) then
      var hurt := s.(lives := s.lives - 1, hits := s.hits + 1);
      if hurt.lives <= 0 then hurt.(gameOver := true) else ApplyEffect(hurt, e, base, now)
    else
      ApplyEffect(s, e, base, now)
  }

  /**
   * The expiry check at the top of a tick: the timed effect is cleared
   * exactly when it is set and its deadline has come, invulnerability
   * exactly when it is on and its own deadline has come.
   */
  function Expire(s: Session, base: int, now: int): (r: Session)
    ensures (s.effect != None && now >= s.effectEnd) ==> r.effect == None && r.width == base && !r.frozen
    ensures !(s.effect != None && now >= s.effectEnd) ==>
              r.effect == s.effect && r.width == s.width && r.frozen == s.frozen
    ensures r.invulnerable == (s.invulnerable && now < s.invulnerableEnd)
    ensures r.score == s.score && r.lives == s.lives && r.gameOver == s.gameOver && r.hits == s.hits
    ensures r.effectEnd == s.effectEnd && r.invulnerableEnd == s.invulnerableEnd
    ensures Coupled(s, base) ==> Coupled(r, base)
  {
    var t := if s.effect != None && now >= s.effectEnd then ResetEffect(s, base) else s;
    if t.invulnerable && now >= t.invulnerableEnd then t.(invulnerable := false) else t
  }
}
