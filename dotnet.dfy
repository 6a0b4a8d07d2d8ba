/**
 * The pieces of the .NET runtime that the engine leans on, as values:
 * System.Drawing's Color, Point and Rectangle (with IntersectsWith),
 * C#'s truncating integer halving, and the first-occurrence removal
 * that List<T>.Remove performs.
 */
module DotNet {

  /** The named colours the engine uses; Empty is C#'s default(Color). */
  datatype Color = Empty | Red | Purple | Green | Yellow | Blue | Pink | Turquoise | WhiteSmoke | OrangeRed

  datatype Point = Point(x: int, y: int)

  datatype Rectangle = Rectangle(x: int, y: int, width: int, height: int)

  /** System.Drawing.Rectangle.IntersectsWith: the two half-open boxes overlap. */
  predicate IntersectsWith(a: Rectangle, b: Rectangle)
  {
    b.x < a.x + a.width && a.x < b.x + b.width &&
    b.y < a.y + a.height && a.y < b.y + b.height
  }

  /** The point lies in the half-open box. */
  predicate Inside(p: Point, r: Rectangle)
  {
    r.x <= p.x < r.x + r.width && r.y <= p.y < r.y + r.height
  }

  /** Two non-empty boxes intersect exactly when they share a point. */
  lemma IntersectsWithSharedPoint(a: Rectangle, b: Rectangle)
    requires a.width > 0 && a.height > 0 && b.width > 0 && b.height > 0
    ensures IntersectsWith(a, b) <==> exists p :: Inside(p, a) && Inside(p, b)
  {
    if IntersectsWith(a, b) {
      var p := Point(if a.x < b.x then b.x else a.x, if a.y < b.y then b.y else a.y);
      assert Inside(p, a) && Inside(p, b);
    }
  }

  /** `n / 2` on a C# int: division that truncates toward zero. */
  function Half(n: int): (h: int)
    ensures -1 <= n - 2 * h <= 1
    ensures n >= 0 ==> 0 <= 2 * h <= n
    ensures n <= 0 ==> n <= 2 * h <= 0
  {
    if n >= 0 then n / 2 else -((-n) / 2)
  }

  /** No reference (or value) occurs twice. */
  ghost predicate Distinct<T>(s: seq<T>)
  {
    forall i, j :: 0 <= i < j < |s| ==> s[i] != s[j]
  }

  /** List<T>.Remove: drop the first occurrence of `x`, if there is one. */
  function RemoveFirst<T(==)>(s: seq<T>, x: T): (r: seq<T>)
    ensures x !in s ==> r == s
    ensures x in s ==> |r| == |s| - 1
    ensures forall y :: y in r ==> y in s
  {
    if s == [] then []
    else
      assert s == [s[0]] + s[1..];
      if s[0] == x then s[1..] else [s[0]] + RemoveFirst(s[1..], x)
  }

  /** Removing an element that occurs first right after a prefix splices it out. */
  lemma {:induction false} RemoveAfterPrefix<T>(prefix: seq<T>, x: T, rest: seq<T>)
    requires x !in prefix
    ensures RemoveFirst(prefix + [x] + rest, x) == prefix + rest
  {
    var s := prefix + [x] + rest;
    if prefix == [] {
      assert s == [x] + rest;
    } else {
      var p := prefix[0];
      assert s == [p] + (prefix[1..] + [x] + rest);
      RemoveAfterPrefix(prefix[1..], x, rest);
      assert prefix + rest == [p] + (prefix[1..] + rest);
    }
  }

  /**
   * The elements among the first `n` of `s` whose flag in `keep` is set, in
   * their order. This is what a pass that walks a snapshot and removes some
   * entries leaves behind once it has walked `n` of them.
   */
  function Select<T>(s: seq<T>, keep: seq<bool>, n: nat): (r: seq<T>)
    requires n <= |s| == |keep|
    ensures |r| <= n
  {
    if n == 0 then []
    else Select(s, keep, n - 1) + (if keep[n - 1] then [s[n - 1]] else [])
  }

  /** Membership in a selection: exactly the flagged elements survive. */
  lemma {:induction false} SelectMember<T>(s: seq<T>, keep: seq<bool>, n: nat, x: T)
    requires n <= |s| == |keep|
    ensures x in Select(s, keep, n) <==> exists i :: 0 <= i < n && keep[i] && s[i] == x
  {
    if n > 0 {
      SelectMember(s, keep, n - 1, x);
    }
  }

  /** Selecting from a list without repetitions gives a list without repetitions. */
  lemma {:induction false} SelectDistinct<T>(s: seq<T>, keep: seq<bool>, n: nat)
    requires n <= |s| == |keep|
    requires Distinct(s)
    ensures Distinct(Select(s, keep, n))
  {
    if n > 0 {
      SelectDistinct(s, keep, n - 1);
      if keep[n - 1] {
        SelectMember(s, keep, n - 1, s[n - 1]);
      }
    }
  }

  /**
   * One step of a pass that walks a snapshot without repetitions and removes
   * the current element when it is not kept: the list stays "the selection
   * of the walked prefix, then the rest of the snapshot".
   */
  lemma WalkStep<T>(snapshot: seq<T>, keep: seq<bool>, i: nat)
    requires Distinct(snapshot) && i < |snapshot| == |keep|
    ensures var current := Select(snapshot, keep, i) + snapshot[i..];
            (if keep[i] then current else RemoveFirst(current, snapshot[i]))
              == Select(snapshot, keep, i + 1) + snapshot[i + 1..]
  {
    var x := snapshot[i];
    var done := Select(snapshot, keep, i);
    assert snapshot[i..] == [x] + snapshot[i + 1..];
    assert done + snapshot[i..] == done + [x] + snapshot[i + 1..];
    if keep[i] {
      assert Select(snapshot, keep, i + 1) == done + [x];
    } else {
      assert Select(snapshot, keep, i + 1) == done;
      NotSelectedTwice(snapshot, keep, i);
      RemoveAfterPrefix(done, x, snapshot[i + 1..]);
    }
  }

  /** In a snapshot without repetitions, the element at `i` is not among those selected before it. */
  lemma NotSelectedTwice<T>(snapshot: seq<T>, keep: seq<bool>, i: nat)
    requires Distinct(snapshot) && i < |snapshot| == |keep|
    ensures snapshot[i] !in Select(snapshot, keep, i)
  {
    SelectMember(snapshot, keep, i, snapshot[i]);
  }
}
