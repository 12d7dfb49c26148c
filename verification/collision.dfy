/**
  The collision resolver: pickups touched by either square are consumed and
  tint the field, then two overlapping squares swap velocities and shrink
  according to the tint.
 */
module Collision {
  import opened Entities
  import opened Geometry

  /** A pickup is consumed when either square overlaps it. */
  predicate Eaten(s1: Square, s2: Square, p: Pickup) {
    OverlapsSquareCircle(s1, p) || OverlapsSquareCircle(s2, p)
  }

  /** a can be obtained from b by deleting elements, keeping the rest in order. */
  ghost predicate IsSubsequence<T>(a: seq<T>, b: seq<T>)
    decreases |b|
  {
    if |a| == 0 then true
    else if |b| == 0 then false
    else (a[|a| - 1] == b[|b| - 1] && IsSubsequence(a[..|a| - 1], b[..|b| - 1]))
         || IsSubsequence(a, b[..|b| - 1])
  }

  /**
    The pickups that are not consumed, in their original order: a pickup
    survives iff the consumption test rejects it. The test is a parameter so
    that the list reasoning does not depend on the overlap arithmetic.
   */
  function Survivors(eaten: Pickup -> bool, ps: seq<Pickup>): (r: seq<Pickup>)
    ensures forall p :: p in r <==> p in ps && !eaten(p)
    ensures IsSubsequence(r, ps)
    ensures |r| <= |ps|
  {
    if |ps| == 0 then []
    else
      var last := ps[|ps| - 1];
      var init := Survivors(eaten, ps[..|ps| - 1]);
      assert ps == ps[..|ps| - 1] + [last];
      if eaten(last) then init else init + [last]
  }

  /** Survivors distributes over concatenation, so consumption never reorders. */
  lemma {:induction false} SurvivorsAppend(eaten: Pickup -> bool, a: seq<Pickup>, b: seq<Pickup>)
    ensures Survivors(eaten, a + b) == Survivors(eaten, a) + Survivors(eaten, b)
    decreases |b|
  {
    if |b| == 0 {
      assert a + b == a;
    } else {
      var b' := b[..|b| - 1];
      assert (a + b)[..|a + b| - 1] == a + b';
      assert (a + b)[|a + b| - 1] == b[|b| - 1];
      SurvivorsAppend(eaten, a, b');
    }
  }

  /** When nothing is eaten the survivor list is the whole list. */
  lemma {:induction false} NothingEatenKeepsAll(eaten: Pickup -> bool, ps: seq<Pickup>)
    ensures (forall i :: 0 <= i < |ps| ==> !eaten(ps[i])) ==> Survivors(eaten, ps) == ps
    decreases |ps|
  {
    if |ps| > 0 && forall i :: 0 <= i < |ps| ==> !eaten(ps[i]) {
      var init := ps[..|ps| - 1];
      assert forall i :: 0 <= i < |init| ==> init[i] == ps[i];
      NothingEatenKeepsAll(eaten, init);
      assert ps == init + [ps[|ps| - 1]];
    }
  }

  /**
    The tint after consumption: that of the last consumed pickup in list
    order, or the old tint when nothing is consumed.
   */
  function LastEatenTint(eaten: Pickup -> bool, ps: seq<Pickup>, tint: Tint): (r: Tint)
    ensures (forall i :: 0 <= i < |ps| ==> !eaten(ps[i])) ==> r == tint
    ensures (exists i :: 0 <= i < |ps| && eaten(ps[i])) ==>
              exists i :: 0 <= i < |ps| && eaten(ps[i]) && r == TintFor(ps[i].col)
                          && forall j :: i < j < |ps| ==> !eaten(ps[j])
  {
    if |ps| == 0 then tint
    else
      var last := ps[|ps| - 1];
      if eaten(last) then TintFor(last.col)
      else
        var init := ps[..|ps| - 1];
        var r := LastEatenTint(eaten, init, tint);
        LastEatenExtends(eaten, init, last, tint, r);
        assert ps == init + [last];
        r
  }

  /**
    Appending a pickup that is not eaten keeps both cases of the
    last-eaten characterisation.
   */
  lemma LastEatenExtends(eaten: Pickup -> bool, init: seq<Pickup>, last: Pickup, tint: Tint, r: Tint)
    requires !eaten(last)
    requires (forall i :: 0 <= i < |init| ==> !eaten(init[i])) ==> r == tint
    requires (exists i :: 0 <= i < |init| && eaten(init[i])) ==>
               exists i :: 0 <= i < |init| && eaten(init[i]) && r == TintFor(init[i].col)
                           && forall j :: i < j < |init| ==> !eaten(init[j])
    ensures var ps := init + [last];
            && ((forall i :: 0 <= i < |ps| ==> !eaten(ps[i])) ==> r == tint)
            && ((exists i :: 0 <= i < |ps| && eaten(ps[i])) ==>
                  exists i :: 0 <= i < |ps| && eaten(ps[i]) && r == TintFor(ps[i].col)
                              && forall j :: i < j < |ps| ==> !eaten(ps[j]))
  {
    var ps := init + [last];
    assert forall i :: 0 <= i < |init| ==> ps[i] == init[i];
    if exists i :: 0 <= i < |ps| && eaten(ps[i]) {
      var k :| 0 <= k < |ps| && eaten(ps[k]);
      assert k < |init| && eaten(init[k]);
      var i :| 0 <= i < |init| && eaten(init[i]) && r == TintFor(init[i].col)
                && forall j :: i < j < |init| ==> !eaten(init[j]);
      assert eaten(ps[i]) && r == TintFor(ps[i].col);
    }
  }

  /**
    The consumption loop as the source writes it: walk the pickups in order,
    retint the field on each one either square touches and collect the rest.
   */
  method ConsumePickups(s1: Square, s2: Square, ps: seq<Pickup>, tint: Tint)
    returns (remaining: seq<Pickup>, tint': Tint)
    ensures remaining == Survivors(p => Eaten(s1, s2, p), ps)
    ensures tint' == LastEatenTint(p => Eaten(s1, s2, p), ps, tint)
  {
    var eaten := p => Eaten(s1, s2, p);
    remaining, tint' := [], tint;
    for i := 0 to |ps|
      invariant remaining == Survivors(eaten, ps[..i])
      invariant tint' == LastEatenTint(eaten, ps[..i], tint)
    {
      var p := ps[i];
      assert ps[..i + 1][..i] == ps[..i];
      if Eaten(s1, s2, p) {
        tint' := TintFor(p.col);
        continue;
      }
      remaining := remaining + [p];
    }
    assert ps[..|ps|] == ps;
  }

  /**
    A square is vulnerable when its colour differs from the tint's canonical
    colour, that is, unless the tint is the one its own colour's pickups leave.
   */
  predicate Vulnerable(s: Square, t: Tint): (r: bool)
    ensures r <==> t != TintFor(s.col)
  {
    s.col != Canonical(t)
  }

  /** One shrink step: lose a fifth of the initial size. */
  function Shrink(s: Square): (r: Square)
    ensures r.w == s.w - Step(s)
    ensures 0.0 <= s.initW ==> r.w <= s.w
    ensures r.(w := s.w) == s
  {
    s.(w := s.w - s.initW * ShrunkRatio)
  }

  /**
    Square-square response. Without overlap nothing changes. With overlap
    the velocities are swapped, positions are kept, and the vulnerable square
    shrinks; when both or neither are vulnerable, both shrink.
   */
  function ResolveSquares(a: Square, b: Square, t: Tint): (r: (Square, Square))
    ensures !AabbOverlap(a, b) ==> r == (a, b)
    ensures AabbOverlap(a, b) ==>
              r.0.vx == b.vx && r.0.vy == b.vy && r.1.vx == a.vx && r.1.vy == a.vy
    ensures r.0.x == a.x && r.0.y == a.y && r.1.x == b.x && r.1.y == b.y
    ensures r.0.initW == a.initW && r.0.col == a.col && r.0.name == a.name
    ensures r.1.initW == b.initW && r.1.col == b.col && r.1.name == b.name
    ensures AabbOverlap(a, b) && Vulnerable(a, t) != Vulnerable(b, t) ==>
              (r.0.w == if Vulnerable(a, t) then a.w - Step(a) else a.w)
              && (r.1.w == if Vulnerable(b, t) then b.w - Step(b) else b.w)
    ensures AabbOverlap(a, b) && Vulnerable(a, t) == Vulnerable(b, t) ==>
              r.0.w == a.w - Step(a) && r.1.w == b.w - Step(b)
    ensures r.0.w == a.w || r.0.w == a.w - Step(a)
    ensures r.1.w == b.w || r.1.w == b.w - Step(b)
    ensures 0.0 <= a.initW ==> r.0.w <= a.w
    ensures 0.0 <= b.initW ==> r.1.w <= b.w
  {
    if !AabbOverlap(a, b) then (a, b)
    else
      var a1 := a.(vx := b.vx, vy := b.vy);
      var b1 := b.(vx := a.vx, vy := a.vy);
      var v1 := Vulnerable(a, t);
      var v2 := Vulnerable(b, t);
      if v1 && !v2 then (Shrink(a1), b1)
      else if v2 && !v1 then (a1, Shrink(b1))
      else (Shrink(a1), Shrink(b1))
  }

  /**
    The shrink law for the Red and Green pair, tint by tint: on Gray both
    shrink, on LightRed only Green shrinks, on LightGreen only Red shrinks.
   */
  lemma ShrinkLaw(a: Square, b: Square, t: Tint)
    requires a.col == Red && b.col == Green && AabbOverlap(a, b)
    ensures var r := ResolveSquares(a, b, t);
            match t
            case TGray => r.0.w == a.w - Step(a) && r.1.w == b.w - Step(b)
            case LightRed => r.0.w == a.w && r.1.w == b.w - Step(b)
            case LightGreen => r.0.w == a.w - Step(a) && r.1.w == b.w
  {
  }

  lemma SwapPairs(x: real, y: real, z: real, w: real)
    ensures multiset{z, w, x, y} == multiset{x, y, z, w}
  {
  }

  /** The response only permutes the four velocity components. */
  lemma SwapKeepsVelocities(a: Square, b: Square, t: Tint)
    ensures var r := ResolveSquares(a, b, t);
            multiset{r.0.vx, r.0.vy, r.1.vx, r.1.vy} == multiset{a.vx, a.vy, b.vx, b.vy}
  {
    if AabbOverlap(a, b) {
      SwapPairs(a.vx, a.vy, b.vx, b.vy);
    }
  }

  /** Speeds are conserved: the multiset of velocity magnitudes is unchanged. */
  lemma SwapKeepsSpeeds(a: Square, b: Square, t: Tint)
    ensures var r := ResolveSquares(a, b, t);
            multiset{Abs(r.0.vx), Abs(r.0.vy), Abs(r.1.vx), Abs(r.1.vy)}
            == multiset{Abs(a.vx), Abs(a.vy), Abs(b.vx), Abs(b.vy)}
  {
    var r := ResolveSquares(a, b, t);
    if AabbOverlap(a, b) {
      assert r.0.vx == b.vx && r.0.vy == b.vy && r.1.vx == a.vx && r.1.vy == a.vy;
      SwapPairs(Abs(a.vx), Abs(a.vy), Abs(b.vx), Abs(b.vy));
    }
  }
}
