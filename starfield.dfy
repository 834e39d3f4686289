/**
 * The starfield effect: a fixed pool of stars at normalised positions in
 * [-1, 1] and depths in (0, 2]. Each frame every star moves 0.02 closer and a
 * star that reaches depth 0 is recycled at depth 2 with a fresh position. The
 * speed, brightness and dot size derived from the depth are modelled; the
 * projection onto the window and the trails are not.
 */
module Stars {
  import opened Numeric

  /** Number of stars in the pool. */
  const StarCount: nat := 500

  /** Depth at which a recycled star starts again. */
  const MaxDepth: real := 2.0

  /** Depth lost by every star in each frame. */
  const DepthStep: real := 0.02

  datatype Star = Star(x: real, y: real, z: real)

  /** A freshly drawn position for a recycled star. */
  datatype Position = Position(x: real, y: real)

  predicate InUnit(v: real) {
    -1.0 <= v <= 1.0
  }

  predicate PositionOk(p: Position) {
    InUnit(p.x) && InUnit(p.y)
  }

  /** The ranges of a star drawn when the pool is created. */
  predicate SpawnOk(s: Star) {
    InUnit(s.x) && InUnit(s.y) && 0.1 <= s.z <= MaxDepth
  }

  /** What holds of every star whenever it is projected. */
  predicate StarOk(s: Star) {
    InUnit(s.x) && InUnit(s.y) && 0.0 < s.z <= MaxDepth
  }

  /** The depth of a star one frame later, recycling counted. */
  function NextDepth(z: real): (r: real)
    ensures 0.0 < z <= MaxDepth ==> 0.0 < r <= MaxDepth
    ensures r == MaxDepth <==> z <= DepthStep || z == MaxDepth + DepthStep
  {
    if z - DepthStep <= 0.0 then MaxDepth else z - DepthStep
  }

  /**
   * One frame for one star: move closer; once at or past depth 0, come back
   * at the far depth with the fresh position `p`.
   */
  function StarStep(s: Star, p: Position): (r: Star)
    ensures r.z == NextDepth(s.z)
    ensures s.z <= DepthStep ==> r == Star(p.x, p.y, MaxDepth)
    ensures DepthStep < s.z ==> r.x == s.x && r.y == s.y
    ensures StarOk(s) && PositionOk(p) ==> StarOk(r)
  {
    var z := s.z - DepthStep;
    if z <= 0.0 then Star(p.x, p.y, MaxDepth) else s.(z := z)
  }

  /** Closeness of a star: 0 at the far depth, approaching 1 as it nears the viewer. */
  function Speed(z: real): (v: real)
    ensures 0.0 < z <= MaxDepth ==> 0.0 <= v < 1.0
    ensures v == 0.0 <==> z == MaxDepth
  {
    1.0 - z / 2.0
  }

  /** The grey level of a star's dot. */
  function Brightness(z: real): (b: int)
    ensures 0.0 < z <= MaxDepth ==> 0 <= b <= 254
  {
    Trunc(255.0 * Speed(z))
  }

  /** The radius of a star's dot. */
  function DotSize(z: real): (n: int)
    ensures 0.0 < z <= MaxDepth ==> 1 <= n <= 3
  {
    Trunc(3.0 * Speed(z)) + 1
  }

  /** Nearer stars are never dimmer nor smaller. */
  lemma NearerIsBrighter(near: real, far: real)
    requires near <= far
    ensures Brightness(far) <= Brightness(near)
    ensures DotSize(far) <= DotSize(near)
  {
    TruncMonotone(255.0 * Speed(far), 255.0 * Speed(near));
    TruncMonotone(3.0 * Speed(far), 3.0 * Speed(near));
  }

  /** The depth after `n` frames. */
  function DepthAfter(z: real, n: nat): real
    decreases n
  {
    if n == 0 then z else DepthAfter(NextDepth(z), n - 1)
  }

  /** Until it is recycled, a star's depth falls by exactly 0.02 per frame. */
  lemma {:induction false} DepthFalls(z: real, n: nat)
    requires DepthStep * n as real < z
    ensures DepthAfter(z, n) == z - DepthStep * n as real
    decreases n
  {
    if n > 0 {
      assert NextDepth(z) == z - DepthStep;
      DepthFalls(z - DepthStep, n - 1);
    }
  }

  /**
   * A star at depth z is recycled within any n frames with z <= 0.02 n; in
   * particular every star of the pool is recycled within 100 frames.
   */
  lemma {:induction false} RecycledWithin(z: real, n: nat)
    requires 0.0 < z <= DepthStep * n as real
    ensures exists k :: 1 <= k <= n && DepthAfter(z, k) == MaxDepth
    decreases n
  {
    if z <= DepthStep {
      assert DepthAfter(z, 1) == DepthAfter(MaxDepth, 0);
    } else {
      RecycledWithin(z - DepthStep, n - 1);
      var k :| 1 <= k <= n - 1 && DepthAfter(z - DepthStep, k) == MaxDepth;
      assert DepthAfter(z, k + 1) == DepthAfter(z - DepthStep, k);
    }
  }

  /** Every star of the pool comes back to the far depth within 100 frames. */
  lemma PoolStarRecycled(s: Star)
    requires StarOk(s)
    ensures exists k :: 1 <= k <= 100 && DepthAfter(s.z, k) == MaxDepth
  {
    RecycledWithin(s.z, 100);
  }

  /** The starfield effect's state: the pool of stars. */
  class Starfield {
    var stars: seq<Star>

    /** The pool keeps its size and every star keeps a positive depth. */
    ghost predicate Valid()
      reads this
    {
      |stars| == StarCount && forall i :: 0 <= i < |stars| ==> StarOk(stars[i])
    }

    /** Fills the pool with the drawn stars, depths in [0.1, 2]. */
    constructor (draws: seq<Star>)
      requires |draws| == StarCount
      requires forall i :: 0 <= i < |draws| ==> SpawnOk(draws[i])
      ensures Valid() && stars == draws
    {
      var pool := [];
      var i := 0;
      while i < StarCount
        invariant 0 <= i <= StarCount
        invariant pool == draws[..i]
      {
        pool := pool + [draws[i]];
        i := i + 1;
      }
      stars := pool;
      assert pool == draws;
    }

    /** One frame: every star takes one StarStep with its own fresh position. */
    method Update(spawns: seq<Position>)
      requires Valid()
      requires |spawns| == |stars|
      requires forall i :: 0 <= i < |spawns| ==> PositionOk(spawns[i])
      modifies this
      ensures Valid()
      ensures forall i :: 0 <= i < |stars| ==> stars[i] == StarStep(old(stars)[i], spawns[i])
    {
      var i := 0;
      while i < |stars|
        invariant 0 <= i <= |stars| == |old(stars)|
        invariant Valid()
        invariant forall k :: 0 <= k < i ==> stars[k] == StarStep(old(stars)[k], spawns[k])
        invariant forall k :: i <= k < |stars| ==> stars[k] == old(stars)[k]
      {
        var star := stars[i];
        star := star.(z := star.z - DepthStep);
        if star.z <= 0.0 {
          star := Star(spawns[i].x, spawns[i].y, MaxDepth);
        }
        stars := stars[i := star];
        i := i + 1;
      }
    }
  }
}
