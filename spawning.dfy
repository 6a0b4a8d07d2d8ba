/**
 * Particle spawning: the tick counter that paces spawns, and the weighted
 * draw that picks a new particle's colour and effect from one uniform
 * integer in [0, 100).
 */
module Spawning {
  import opened DotNet
  import opened Effects

  /** A colour together with the effect it carries. */
  datatype Outcome = Outcome(color: Color, effect: ParticleEffect)

  /** The seven possible outcomes, in the order of their bands. */
  const Outcomes: seq<Outcome> := [
    Outcome(Red, None), Outcome(Purple, Invulnerability), Outcome(Green, None),
    Outcome(Yellow, DoubleSize), Outcome(Blue, Freeze), Outcome(Pink, HalfSize),
    Outcome(Turquoise, BonusPoints)]

  /**
   * The colour/effect draw: bands of 15 for red (a hazard, no effect),
   * purple (invulnerability), green (no effect), yellow (double size), blue
   * (freeze) and pink (half size), and 10 for turquoise (bonus points).
   */
  function Draw(rnd: int): (o: Outcome)
    ensures o in Outcomes
    ensures o.effect != Steam
    ensures Hazardous(o.color) <==> rnd < 15
    ensures Hazardous(o.color) ==> o.effect == None
  {
    if rnd < 15 then Outcome(Red, None)
    else if rnd < 30 then Outcome(Purple, Invulnerability)
    else if rnd < 45 then Outcome(Green, None)
    else if rnd < 60 then Outcome(Yellow, DoubleSize)
    else if rnd < 75 then Outcome(Blue, Freeze)
    else if rnd < 90 then Outcome(Pink, HalfSize)
    else Outcome(Turquoise, BonusPoints)
  }

  /** How many of the draws `lo`, ..., `hi - 1` give `o`. */
  function Count(o: Outcome, lo: int, hi: int): nat
    decreases hi - lo
  {
    if hi <= lo then 0 else Count(o, lo, hi - 1) + (if Draw(hi - 1) == o then 1 else 0)
  }

  /** Counting over a range splits at any point inside it. */
  lemma {:induction false} CountSplit(o: Outcome, lo: int, mid: int, hi: int)
    requires lo <= mid <= hi
    ensures Count(o, lo, hi) == Count(o, lo, mid) + Count(o, mid, hi)
    decreases hi - mid
  {
    if mid < hi {
      CountSplit(o, lo, mid, hi - 1);
    }
  }

  /** Over a range where every draw gives `b`, `o` occurs everywhere or nowhere. */
  lemma {:induction false} CountBand(o: Outcome, lo: int, hi: int, b: Outcome)
    requires lo <= hi
    requires forall r :: lo <= r < hi ==> Draw(r) == b
    ensures Count(o, lo, hi) == if o == b then hi - lo else 0
    decreases hi - lo
  {
    if lo < hi {
      CountBand(o, lo, hi - 1, b);
    }
  }

  /** The share of outcome `o` in a band of `width` draws that all give `b`. */
  function Share(o: Outcome, b: Outcome, width: int): int
  {
    if o == b then width else 0
  }

  /**
   * Adding one more band below a counted range: the bands from `lo`
   * upwards count their own shares.
   */
  lemma BandBelow(o: Outcome, lo: int, mid: int, hi: int, b: Outcome, rest: int)
    requires lo <= mid <= hi
    requires forall r :: lo <= r < mid ==> Draw(r) == b
    requires Count(o, mid, hi) == rest
    ensures Count(o, lo, hi) == Share(o, b, mid - lo) + rest
  {
    CountSplit(o, lo, mid, hi);
    CountBand(o, lo, mid, b);
  }

  /** The draws from 45 up: yellow, blue and pink get 15 each, turquoise 10. */
  lemma UpperBands(o: Outcome)
    ensures Count(o, 45, 100) ==
      Share(o, Outcome(Yellow, DoubleSize), 15) + Share(o, Outcome(Blue, Freeze), 15) +
      Share(o, Outcome(Pink, HalfSize), 15) + Share(o, Outcome(Turquoise, BonusPoints), 10)
  {
    var s6 := Share(o, Outcome(Turquoise, BonusPoints), 10);
    CountBand(o, 90, 100, Outcome(Turquoise, BonusPoints));
    var s5 := Share(o, Outcome(Pink, HalfSize), 15) + s6;
    BandBelow(o, 75, 90, 100, Outcome(Pink, HalfSize), s6);
    var s4 := Share(o, Outcome(Blue, Freeze), 15) + s5;
    BandBelow(o, 60, 75, 100, Outcome(Blue, Freeze), s5);
    BandBelow(o, 45, 60, 100, Outcome(Yellow, DoubleSize), s4);
  }

  /** The count over all 100 draws is the sum of the seven bands' shares. */
  lemma BandSum(o: Outcome)
    ensures Count(o, 0, 100) ==
      Share(o, Outcome(Red, None), 15) + Share(o, Outcome(Purple, Invulnerability), 15) +
      Share(o, Outcome(Green, None), 15) + Share(o, Outcome(Yellow, DoubleSize), 15) +
      Share(o, Outcome(Blue, Freeze), 15) + Share(o, Outcome(Pink, HalfSize), 15) +
      Share(o, Outcome(Turquoise, BonusPoints), 10)
  {
    UpperBands(o);
    var s3 := Share(o, Outcome(Yellow, DoubleSize), 15) + Share(o, Outcome(Blue, Freeze), 15) +
              Share(o, Outcome(Pink, HalfSize), 15) + Share(o, Outcome(Turquoise, BonusPoints), 10);
    var s2 := Share(o, Outcome(Green, None), 15) + s3;
    BandBelow(o, 30, 45, 100, Outcome(Green, None), s3);
    var s1 := Share(o, Outcome(Purple, Invulnerability), 15) + s2;
    BandBelow(o, 15, 30, 100, Outcome(Purple, Invulnerability), s2);
    BandBelow(o, 0, 15, 100, Outcome(Red, None), s1);
  }

  /**
   * Of the 100 equally likely draws, each of the first six outcomes gets
   * exactly 15 and turquoise/bonus points exactly 10; nothing else occurs.
   */
  lemma DrawShares(o: Outcome)
    ensures Count(o, 0, 100) == if o == Outcome(Turquoise, BonusPoints) then 10 else if o in Outcomes then 15 else 0
  {
    BandSum(o);
  }

  /** The spawn threshold for a spawn rate: higher rates spawn more often. */
  function Threshold(rate: int): int
  {
    100 - rate
  }

  /** Whether the tick that finds the counter at `c` spawns a particle. */
  predicate SpawnsAt(c: int, rate: int)
  {
    c + 1 >= Threshold(rate)
  }

  /**
   * The counter after one tick: incremented, and back to 0 when it reaches
   * the threshold (the tick that spawns). For a rate in [1, 99] a counter
   * that started non-negative stays below the threshold.
   */
  function NextCounter(c: int, rate: int): (n: int)
    ensures SpawnsAt(c, rate) ==> n == 0
    ensures !SpawnsAt(c, rate) ==> n == c + 1 && n < Threshold(rate)
    ensures c >= -1 && rate <= 99 ==> 0 <= n < Threshold(rate)
  {
    if c + 1 >= Threshold(rate) then 0 else c + 1
  }

  /** The counter after `n` ticks at a fixed rate. */
  function CounterAfter(c: int, rate: int, n: nat): int
  {
    if n == 0 then c else NextCounter(CounterAfter(c, rate, n - 1), rate)
  }

  /**
   * From a reset counter, at a rate in [1, 99], the counter simply counts
   * the ticks until the threshold: ticks 1 .. Threshold(rate) - 1 spawn
   * nothing and the tick after them spawns.
   */
  lemma {:induction false} QuietUntilThreshold(rate: int, n: nat)
    requires 1 <= rate <= 99 && n < Threshold(rate)
    ensures CounterAfter(0, rate, n) == n
    ensures SpawnsAt(CounterAfter(0, rate, n), rate) <==> n == Threshold(rate) - 1
  {
    if n > 0 {
      QuietUntilThreshold(rate, n - 1);
    }
  }

  /** Running `n` ticks and then `m` more is running `n + m` ticks. */
  lemma {:induction false} CounterAfterAdds(c: int, rate: int, n: nat, m: nat)
    ensures CounterAfter(c, rate, n + m) == CounterAfter(CounterAfter(c, rate, n), rate, m)
  {
    if m > 0 {
      CounterAfterAdds(c, rate, n, m - 1);
      assert n + m - 1 == n + (m - 1);
    }
  }

  /**
   * At a rate in [1, 99] the counter is periodic with period
   * Threshold(rate): together with QuietUntilThreshold, exactly one particle
   * spawns in every run of Threshold(rate) ticks from a reset counter.
   */
  lemma SpawnPeriod(rate: int, n: nat)
    requires 1 <= rate <= 99
    ensures CounterAfter(0, rate, Threshold(rate) + n) == CounterAfter(0, rate, n)
  {
    var t := Threshold(rate);
    QuietUntilThreshold(rate, t - 1);
    assert CounterAfter(0, rate, t) == NextCounter(CounterAfter(0, rate, t - 1), rate);
    CounterAfterAdds(0, rate, t, n);
  }

  /** Euclidean remainder is unique: `q * t + r` with `0 <= r < t` leaves remainder `r`. */
  lemma ModUnique(n: int, t: int, q: int, r: int)
    requires t > 0 && 0 <= r < t && n == q * t + r
    ensures n % t == r
  {
    var q', r' := n / t, n % t;
    var k := q - q';
    assert q * t == q' * t + k * t by {
      assert q * t == (q' + k) * t;
    }
    SmallMultiple(k, t);
  }

  /** Taking `t` away from `n >= t` leaves its remainder mod `t` as it is. */
  lemma ModShift(n: int, t: int)
    requires t > 0 && n >= t
    ensures n % t == (n - t) % t
  {
    var q, r := (n - t) / t, (n - t) % t;
    assert n - t == q * t + r;
    assert n == (q + 1) * t + r by {
      assert (q + 1) * t == q * t + t;
    }
    ModUnique(n, t, q + 1, r);
  }

  /** The only multiple of `t > 0` strictly between `-t` and `t` is 0. */
  lemma SmallMultiple(k: int, t: int)
    requires t > 0 && -t < k * t < t
    ensures k == 0
  {
    if k > 0 {
      MultipleAtLeast(k, t);
    } else if k < 0 {
      MultipleAtLeast(-k, t);
    }
  }

  /** A positive multiple of `t > 0` is at least `t`. */
  lemma {:induction false} MultipleAtLeast(k: int, t: int)
    requires k >= 1 && t > 0
    ensures k * t >= t
    decreases k
  {
    if k > 1 {
      MultipleAtLeast(k - 1, t);
      assert k * t == (k - 1) * t + t;
    }
  }

  /**
   * The counter in closed form: from a reset counter at a rate in [1, 99],
   * after `n` ticks it is `n mod (100 - SpawnRate)`, and the next tick
   * spawns exactly when `n` is one short of a multiple of the threshold:
   * one spawn in every `100 - SpawnRate` ticks.
   */
  lemma {:induction false} CounterClosedForm(rate: int, n: nat)
    requires 1 <= rate <= 99
    ensures CounterAfter(0, rate, n) == n % Threshold(rate)
    ensures SpawnsAt(CounterAfter(0, rate, n), rate) <==> n % Threshold(rate) == Threshold(rate) - 1
    decreases n
  {
    var t := Threshold(rate);
    if n < t {
      QuietUntilThreshold(rate, n);
      ModUnique(n, t, 0, n);
    } else {
      CounterClosedForm(rate, n - t);
      SpawnPeriod(rate, n - t);
      assert t + (n - t) == n;
      ModShift(n, t);
    }
  }
}
