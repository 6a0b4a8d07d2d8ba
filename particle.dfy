/**
 * A particle: a coloured disc with an effect tag, a collected flag and a
 * five-slot ring buffer of recent centre points for its trail.
 */
module Particles {
  import opened DotNet
  import opened Effects

  /** Number of slots in the trail ring buffer. */
  const TrailLength := 5

  /** The particle's fields as a value (everything but the trail). */
  datatype ParticleView = ParticleView(
    x: int, y: int, size: int, speed: int,
    color: Color, effect: ParticleEffect, collected: bool)
  {
    /** The square the engine tests against the cart. */
    function Box(): Rectangle
    {
      Rectangle(x, y, size, size)
    }

    /** The disc's centre, with C#'s truncating halving. */
    function Centre(): Point
    {
      Point(x + Half(size), y + Half(size))
    }
  }

  /** The trail index after one write. */
  function NextSlot(i: int): (j: int)
    ensures 0 <= j < TrailLength
    ensures 0 <= i < TrailLength ==> j == (if i == TrailLength - 1 then 0 else i + 1)
  {
    (i + 1) % TrailLength
  }

  /** The trail index after `n` writes. */
  function SlotAfter(i: int, n: nat): int
  {
    if n == 0 then i else NextSlot(SlotAfter(i, n - 1))
  }

  /** After `n` writes the index has moved `n` slots round the ring. */
  lemma {:induction false} SlotAfterWraps(i: int, n: nat)
    requires 0 <= i < TrailLength
    ensures SlotAfter(i, n) == (i + n) % TrailLength
  {
    if n > 0 {
      SlotAfterWraps(i, n - 1);
    }
  }

  /** Five writes bring the trail index back to where it started. */
  lemma FiveWritesReturn(i: int)
    requires 0 <= i < TrailLength
    ensures SlotAfter(i, TrailLength) == i
  {
    SlotAfterWraps(i, TrailLength);
  }

  class Particle {
    var X: int
    var Y: int
    var Size: int
    var Color: DotNet.Color
    var Speed: int
    var IsCollected: bool
    var Effect: ParticleEffect
    const trail: array<Point>
    var trailIndex: int

    ghost predicate Valid()
      reads this
    {
      trail.Length == TrailLength && 0 <= trailIndex < TrailLength
    }

    function View(): ParticleView
      reads this
    {
      ParticleView(X, Y, Size, Speed, Color, Effect, IsCollected)
    }

    /** Red particles are the dangerous ones. */
    predicate IsDangerous(): (r: bool)
      reads this
      ensures r <==> Color == Red
    {
      Hazardous(Color)
    }

    /** A new particle: size 10, not collected, everything else at C#'s defaults. */
    constructor ()
      ensures Valid() && fresh(trail)
      ensures View() == ParticleView(0, 0, 10, 0, Empty, None, false)
      ensures !IsDangerous()
      ensures trailIndex == 0
      ensures forall k :: 0 <= k < trail.Length ==> trail[k] == Point(0, 0)
    {
      X, Y, Size, Color, Speed := 0, 0, 10, Empty, 0;
      IsCollected, Effect := false, None;
      trail := new Point[TrailLength](_ => Point(0, 0));
      trailIndex := 0;
    }

    /**
     * A new particle with the given fields set, as an object initializer
     * sets them after the default constructor.
     */
    constructor Init(v: ParticleView)
      ensures Valid() && fresh(trail) && trailIndex == 0
      ensures View() == v
    {
      X, Y, Size, Color, Speed := v.x, v.y, v.size, v.color, v.speed;
      IsCollected, Effect := v.collected, v.effect;
      trail := new Point[TrailLength](_ => Point(0, 0));
      trailIndex := 0;
    }

    /**
     * Records the current centre in the trail slot the index points at and
     * moves the index one slot round the ring; nothing else changes.
     */
    method Update()
      requires Valid()
      modifies trail, this`trailIndex
      ensures Valid()
      ensures trail[old(trailIndex)] == View().Centre()
      ensures forall k :: 0 <= k < trail.Length && k != old(trailIndex) ==> trail[k] == old(trail[k])
      ensures trailIndex == NextSlot(old(trailIndex))
      ensures View() == old(View())
    {
      trail[trailIndex] := Point(X + Half(Size), Y + Half(Size));
      trailIndex := (trailIndex + 1) % trail.Length;
    }
  }
}
