/**
 * The fire effect: a heat grid at a quarter of the window's resolution with
 * two extra rows below the visible ones. Row `height` is the seed row,
 * reseeded every frame; row `height + 1` is never written. Each visible cell
 * becomes the cooled average of the three cells below it and the cell two rows
 * below. The colour ramp that turns heat into a colour is modelled; scaling
 * the cells onto the window is not.
 */
module FireSim {
  import opened Numeric

  /** The grid is this many times coarser than the window in each dimension. */
  const Reduction: nat := 4

  /** Heat is treated as a byte value by the colour ramp. */
  const MaxHeat: real := 255.0

  /** A grid of `height + 2` rows of `width` cells. */
  predicate Shaped(g: seq<seq<real>>, width: nat, height: nat) {
    |g| == height + 2 && forall y :: 0 <= y < |g| ==> |g[y]| == width
  }

  /** One random cooling amount in [1, 3] for every visible cell. */
  predicate CoolingOk(cooling: seq<seq<int>>, width: nat, height: nat) {
    |cooling| == height
    && forall y :: 0 <= y < |cooling| ==>
         |cooling[y]| == width && forall x :: 0 <= x < width ==> 1 <= cooling[y][x] <= 3
  }

  /** One random seed in [200, 255] for every cell of the seed row. */
  predicate SeedsOk(seeds: seq<int>, width: nat) {
    |seeds| == width && forall x :: 0 <= x < |seeds| ==> 200 <= seeds[x] <= 255
  }

  /** Every cell of the row is cold. */
  predicate Cold(row: seq<real>) {
    forall x :: 0 <= x < |row| ==> row[x] == 0.0
  }

  /** Every cell holds a byte-range heat and the row below the seed row is cold. */
  predicate HeatInvariant(g: seq<seq<real>>, width: nat, height: nat) {
    Shaped(g, width, height)
    && (forall y, x :: 0 <= y < height + 2 && 0 <= x < width ==> 0.0 <= g[y][x] <= MaxHeat)
    && Cold(g[height + 1])
  }

  /** The left neighbour's column, clamped at the left edge. */
  function LeftOf(x: int): (l: int)
    ensures 0 <= x ==> 0 <= l <= x && (l == x - 1 || x == 0)
  {
    if x - 1 > 0 then x - 1 else 0
  }

  /** The right neighbour's column, clamped at the right edge. */
  function RightOf(x: int, width: nat): (r: int)
    ensures x < width ==> x <= r < width && (r == x + 1 || x == width - 1)
  {
    if width - 1 < x + 1 then width - 1 else x + 1
  }

  /** The hottest of four heats. */
  function Max4(a: real, b: real, c: real, d: real): (m: real)
    ensures a <= m && b <= m && c <= m && d <= m
    ensures m == a || m == b || m == c || m == d
  {
    var ab := if a >= b then a else b;
    var cd := if c >= d then c else d;
    if ab >= cd then ab else cd
  }

  /**
   * The new heat of a cell from the three cells below it (left, centre,
   * right), the cell two rows below and a cooling amount: never negative,
   * never hotter than the hottest of the four when cooling is not negative,
   * never below their average less the cooling, and, when positive, exactly
   * that average less the cooling.
   */
  function Cooled(below_left: real, below: real, below_right: real, two_below: real, cooling: int): (h: real)
    ensures 0.0 <= h
    ensures 0 <= cooling ==> h <= Max4(below_left, below, below_right, two_below) || h == 0.0
    ensures 0.0 < h ==> h == (below_left + below + below_right + two_below) / 4.0 - cooling as real
    ensures (below_left + below + below_right + two_below) / 4.0 - cooling as real <= h
  {
    var heat := (below_left + below + below_right + two_below) / 4.0;
    if 0.0 < heat - cooling as real then heat - cooling as real else 0.0
  }

  /** The grid with its seed row replaced by the drawn seeds. */
  function Seeded(g: seq<seq<real>>, width: nat, height: nat, seeds: seq<int>): (s: seq<seq<real>>)
    requires Shaped(g, width, height) && |seeds| == width
    ensures Shaped(s, width, height)
    ensures forall x :: 0 <= x < width ==> s[height][x] == seeds[x] as real
    ensures forall y :: 0 <= y < height + 2 && y != height ==> s[y] == g[y]
  {
    g[height := seq(width, x requires 0 <= x < width => seeds[x] as real)]
  }

  /** The new heat of visible cell (y, x) of the seeded grid `s`. */
  function CellHeat(s: seq<seq<real>>, width: nat, height: nat, y: nat, x: nat, cooling: int): real
    requires Shaped(s, width, height) && y < height && x < width
  {
    Cooled(s[y + 1][LeftOf(x)], s[y + 1][x], s[y + 1][RightOf(x, width)], s[y + 2][x], cooling)
  }

  /**
   * One frame of the fire on the heat grid `g`: reseed the seed row, then
   * rewrite every visible row from the rows below it. Because the rows are
   * rewritten top to bottom and each reads only rows further down, every
   * visible cell sees the old values of the rows below (and the new seeds).
   */
  function StepGrid(g: seq<seq<real>>, width: nat, height: nat, seeds: seq<int>, cooling: seq<seq<int>>): (r: seq<seq<real>>)
    requires Shaped(g, width, height) && |seeds| == width && CoolingOk(cooling, width, height)
    ensures Shaped(r, width, height)
  {
    var s := Seeded(g, width, height, seeds);
    seq(height + 2, y requires 0 <= y < height + 2 =>
      if y < height
      then seq(width, x requires 0 <= x < width => CellHeat(s, width, height, y, x, cooling[y][x]))
      else s[y])
  }

  /**
   * After a step the seed row holds exactly the seeds, so lies in [200, 255],
   * and the row below it is untouched. Each visible cell is computed through
   * clamped columns from the rows below it as they were BEFORE the step,
   * except that wherever it reads the seed row it sees the NEW seeds.
   */
  lemma StepRows(g: seq<seq<real>>, width: nat, height: nat, seeds: seq<int>, cooling: seq<seq<int>>)
    requires Shaped(g, width, height) && SeedsOk(seeds, width) && CoolingOk(cooling, width, height)
    ensures forall x :: 0 <= x < width ==>
              StepGrid(g, width, height, seeds, cooling)[height][x] == seeds[x] as real
              && 200.0 <= StepGrid(g, width, height, seeds, cooling)[height][x] <= MaxHeat
    ensures StepGrid(g, width, height, seeds, cooling)[height + 1] == g[height + 1]
    ensures forall y, x :: 0 <= y < height - 2 && 0 <= x < width ==>
              StepGrid(g, width, height, seeds, cooling)[y][x]
              == Cooled(g[y + 1][LeftOf(x)], g[y + 1][x], g[y + 1][RightOf(x, width)], g[y + 2][x], cooling[y][x])
    ensures 2 <= height ==> forall x :: 0 <= x < width ==>
              StepGrid(g, width, height, seeds, cooling)[height - 2][x]
              == Cooled(g[height - 1][LeftOf(x)], g[height - 1][x], g[height - 1][RightOf(x, width)],
                        seeds[x] as real, cooling[height - 2][x])
    ensures 1 <= height ==> forall x :: 0 <= x < width ==>
              StepGrid(g, width, height, seeds, cooling)[height - 1][x]
              == Cooled(seeds[LeftOf(x)] as real, seeds[x] as real, seeds[RightOf(x, width)] as real,
                        g[height + 1][x], cooling[height - 1][x])
  {
    var s := Seeded(g, width, height, seeds);
    forall y, x | 0 <= y < height - 2 && 0 <= x < width
      ensures StepGrid(g, width, height, seeds, cooling)[y][x]
              == Cooled(g[y + 1][LeftOf(x)], g[y + 1][x], g[y + 1][RightOf(x, width)], g[y + 2][x], cooling[y][x])
    {
      assert s[y + 1] == g[y + 1] && s[y + 2] == g[y + 2];
    }
    if 2 <= height {
      assert s[height - 1] == g[height - 1];
    }
  }

  /**
   * The heat invariant survives a step: the seed row is in [200, 255], the
   * visible rows stay in [0, 255] and the bottom row stays cold.
   */
  lemma StepKeepsInvariant(g: seq<seq<real>>, width: nat, height: nat, seeds: seq<int>, cooling: seq<seq<int>>)
    requires HeatInvariant(g, width, height) && SeedsOk(seeds, width) && CoolingOk(cooling, width, height)
    ensures HeatInvariant(StepGrid(g, width, height, seeds, cooling), width, height)
  {
    var s := Seeded(g, width, height, seeds);
    var r := StepGrid(g, width, height, seeds, cooling);
    assert forall y, x :: 0 <= y < height + 2 && 0 <= x < width ==> 0.0 <= s[y][x] <= MaxHeat;
    forall y, x | 0 <= y < height && 0 <= x < width
      ensures 0.0 <= r[y][x] <= MaxHeat
    {
      var l, rt := LeftOf(x), RightOf(x, width);
      assert r[y][x] == CellHeat(s, width, height, y, x, cooling[y][x]);
      assert 0.0 <= s[y + 1][l] <= MaxHeat && 0.0 <= s[y + 1][rt] <= MaxHeat;
    }
  }

  /** The random values of one frame of fire. */
  datatype FrameDraw = FrameDraw(seeds: seq<int>, cooling: seq<seq<int>>)

  predicate FrameDrawOk(f: FrameDraw, width: nat, height: nat) {
    SeedsOk(f.seeds, width) && CoolingOk(f.cooling, width, height)
  }

  /** The grid after running the given frames one after another. */
  function Run(g: seq<seq<real>>, width: nat, height: nat, frames: seq<FrameDraw>): (r: seq<seq<real>>)
    requires Shaped(g, width, height)
    requires forall k :: 0 <= k < |frames| ==> FrameDrawOk(frames[k], width, height)
    ensures Shaped(r, width, height)
  {
    if frames == [] then g
    else
      var last := frames[|frames| - 1];
      assert FrameDrawOk(frames[|frames| - 1], width, height);
      StepGrid(Run(g, width, height, frames[..|frames| - 1]), width, height, last.seeds, last.cooling)
  }

  /** However many frames run, no heat ever leaves [0, 255]. */
  lemma {:induction false} RunKeepsInvariant(g: seq<seq<real>>, width: nat, height: nat, frames: seq<FrameDraw>)
    requires HeatInvariant(g, width, height)
    requires forall k :: 0 <= k < |frames| ==> FrameDrawOk(frames[k], width, height)
    ensures HeatInvariant(Run(g, width, height, frames), width, height)
  {
    if frames != [] {
      var init, last := frames[..|frames| - 1], frames[|frames| - 1];
      RunKeepsInvariant(g, width, height, init);
      StepKeepsInvariant(Run(g, width, height, init), width, height, last.seeds, last.cooling);
    }
  }

  const WhiteHot := Colour(255, 255, 200)
  const Yellow := Colour(255, 255, 0)

  /**
   * The colour ramp: white-hot above 200, yellow above 150, orange above 100,
   * red above 50, and below that a dark red equal to the truncated heat.
   */
  function FireColour(heat: real): (c: Colour)
    ensures 0.0 <= heat <= MaxHeat ==> ValidColour(c)
    ensures c.b != 0 <==> heat > 200.0
    ensures c.g == 0 <==> heat <= 100.0
    ensures c.r == 255 <==> heat > 100.0
    ensures c == WhiteHot <==> heat > 200.0
    ensures c == Yellow <==> 150.0 < heat <= 200.0
    ensures 100.0 < heat <= 150.0 ==> c == Colour(255, Trunc(heat * 1.5), 0)
    ensures 50.0 < heat <= 100.0 ==> c == Colour(Trunc(heat * 2.0), 0, 0)
    ensures heat <= 50.0 ==> c == Colour(Trunc(heat), 0, 0)
  {
    if heat > 200.0 then WhiteHot
    else if heat > 150.0 then Yellow
    else if heat > 100.0 then Colour(255, Trunc(heat * 1.5), 0)
    else if heat > 50.0 then Colour(Trunc(heat * 2.0), 0, 0)
    else Colour(Trunc(heat), 0, 0)
  }

  /** Hotter cells are never darker in any channel. */
  lemma FireColourMonotone(h1: real, h2: real)
    requires h1 <= h2
    ensures FireColour(h1).r <= FireColour(h2).r
    ensures FireColour(h1).g <= FireColour(h2).g
    ensures FireColour(h1).b <= FireColour(h2).b
  {
    if h2 <= 50.0 {
      TruncMonotone(h1, h2);
    } else if h2 <= 100.0 {
      if h1 > 50.0 { TruncMonotone(h1 * 2.0, h2 * 2.0); }
    } else if h2 <= 150.0 {
      if h1 > 100.0 { TruncMonotone(h1 * 1.5, h2 * 1.5); }
    }
  }

  /** The fire effect's state: a fixed-size heat grid. */
  class Fire {
    const width: nat
    const height: nat
    const fire: array2<real>
    /** The grid's contents, row by row. */
    ghost var Heat: seq<seq<real>>

    ghost predicate Valid()
      reads this, fire
    {
      fire.Length0 == height + 2 && fire.Length1 == width
      && HeatInvariant(Heat, width, height)
      && forall y, x :: 0 <= y < height + 2 && 0 <= x < width ==> fire[y, x] == Heat[y][x]
    }

    /** A cold grid sized once from the window at start-up; it is never resized. */
    constructor (windowWidth: nat, windowHeight: nat)
      ensures Valid() && fresh(fire)
      ensures width == windowWidth / Reduction && height == windowHeight / Reduction
      ensures forall y, x :: 0 <= y < height + 2 && 0 <= x < width ==> Heat[y][x] == 0.0
    {
      var w, h := windowWidth / Reduction, windowHeight / Reduction;
      width, height := w, h;
      fire := new real[h + 2, w]((y, x) => 0.0);
      Heat := seq(h + 2, y => seq(w, x => 0.0));
    }

    /** One frame: the grid becomes StepGrid of the old grid and the drawn values. */
    method Update(seeds: seq<int>, cooling: seq<seq<int>>)
      requires Valid()
      requires SeedsOk(seeds, width) && CoolingOk(cooling, width, height)
      modifies this`Heat, fire
      ensures Valid()
      ensures Heat == StepGrid(old(Heat), width, height, seeds, cooling)
    {
      ghost var s := Seeded(Heat, width, height, seeds);
      ghost var next := StepGrid(Heat, width, height, seeds, cooling);

      // Add heat at the bottom.
      var x := 0;
      while x < width
        modifies fire
        invariant 0 <= x <= width
        invariant forall r, c :: 0 <= r < height + 2 && 0 <= c < width ==>
                    fire[r, c] == if r == height && c < x then s[r][c] else Heat[r][c]
      {
        fire[height, x] := seeds[x] as real;
        x := x + 1;
      }

      // Propagate the fire upward, one visible row at a time.
      var y := 0;
      while y < height
        modifies fire
        invariant 0 <= y <= height
        invariant forall r, c :: 0 <= r < height + 2 && 0 <= c < width ==>
                    fire[r, c] == if r < y then next[r][c] else s[r][c]
      {
        x := 0;
        while x < width
          modifies fire
          invariant 0 <= x <= width
          invariant forall r, c :: 0 <= r < height + 2 && 0 <= c < width ==>
                      fire[r, c] == if r < y || (r == y && c < x) then next[r][c] else s[r][c]
        {
          var left := LeftOf(x);
          var right := RightOf(x, width);
          var heat := (fire[y + 1, left] + fire[y + 1, x] + fire[y + 1, right] + fire[y + 2, x]) / 4.0;
          var cooled := heat - cooling[y][x] as real;
          fire[y, x] := if 0.0 < cooled then cooled else 0.0;
          x := x + 1;
        }
        y := y + 1;
      }

      StepKeepsInvariant(Heat, width, height, seeds, cooling);
      Heat := next;
    }
  }
}
