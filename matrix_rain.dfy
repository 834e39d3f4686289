/**
 * The digital-rain effect: one falling drop per 20-pixel column, each with a
 * speed, a font size and a bounded history of the glyphs it has emitted.
 * Only the drop bookkeeping and the colour chosen for each glyph are modelled;
 * painting the glyphs is not.
 */
module Rain {
  import opened Numeric
  import opened GlyphQueues

  /** Width in pixels of one rain column. */
  const ColumnWidth: nat := 20

  /** A drop whose advanced y passes this far below the window is respawned above it. */
  const BottomMargin: nat := 100

  /** One column's drop: `y` is its head's position and may lie outside the window. */
  datatype Drop = Drop(x: int, y: real, speed: real, chars: GlyphQueue, fontSize: int)

  /** The random values drawn for one column when the drops are rebuilt. */
  datatype ColumnDraw = ColumnDraw(y: int, speed: real, maxlen: int, fontSize: int)

  /**
   * The random values one drop may consume in a frame: a respawn position and
   * speed (used only if the drop falls off the bottom), the roll that decides
   * whether a glyph is emitted, and the glyph itself.
   */
  datatype FrameDraw = FrameDraw(respawnY: int, respawnSpeed: real, roll: real, glyph: char)

  /** The ranges of the values drawn on a rebuild. */
  predicate ColumnDrawOk(d: ColumnDraw) {
    -500 <= d.y <= 0 && 3.0 <= d.speed <= 8.0 && 15 <= d.maxlen <= 30 && 16 <= d.fontSize <= 24
  }

  /** The ranges of the values drawn in a frame. */
  predicate FrameDrawOk(f: FrameDraw) {
    -200 <= f.respawnY <= -50 && 3.0 <= f.respawnSpeed <= 8.0 && 0.0 <= f.roll < 1.0
  }

  /** What holds of every drop at all times. */
  predicate DropOk(d: Drop) {
    -500.0 <= d.y && 3.0 <= d.speed <= 8.0 && 15 <= d.chars.maxlen <= 30 && Bounded(d.chars)
    && 16 <= d.fontSize <= 24
  }

  /** The drop built for column `i` from the values drawn for it. */
  function NewDrop(i: nat, d: ColumnDraw): (r: Drop)
    requires ColumnDrawOk(d)
    ensures DropOk(r) && r.x == i * ColumnWidth && r.chars.items == []
    ensures -500.0 <= r.y <= 0.0 && r.chars.maxlen == d.maxlen
  {
    Drop(i * ColumnWidth, d.y as real, d.speed, Empty(d.maxlen as nat), d.fontSize)
  }

  /** A glyph is emitted when the uniform roll exceeds 0.3 (probability 0.7). */
  predicate Emits(f: FrameDraw) {
    f.roll > 0.3
  }

  /** The advanced drop has passed the bottom margin and must start again above the window. */
  predicate FallsOff(d: Drop, windowHeight: nat) {
    d.y + d.speed > (windowHeight + BottomMargin) as real
  }

  /**
   * One frame for one drop: advance by its speed; past the bottom margin,
   * respawn above the window with a fresh speed and an empty history; then
   * possibly emit a glyph.
   */
  function DropStep(d: Drop, windowHeight: nat, f: FrameDraw): (r: Drop)
    requires Bounded(d.chars)
    ensures r.x == d.x && r.fontSize == d.fontSize && r.chars.maxlen == d.chars.maxlen
    ensures Bounded(r.chars)
    ensures FallsOff(d, windowHeight) ==>
              r.y == f.respawnY as real && r.speed == f.respawnSpeed
              && r.chars.items == (if Emits(f) && 0 < d.chars.maxlen then [f.glyph] else [])
    ensures !FallsOff(d, windowHeight) ==>
              r.y == d.y + d.speed && r.speed == d.speed
              && r.chars == (if Emits(f) then Append(d.chars, f.glyph) else d.chars)
    ensures FrameDrawOk(f) ==> r.y <= (windowHeight + BottomMargin) as real
    ensures DropOk(d) && FrameDrawOk(f) ==> DropOk(r)
  {
    var moved := d.(y := d.y + d.speed);
    var placed :=
      if moved.y > (windowHeight + BottomMargin) as real
      then moved.(y := f.respawnY as real, speed := f.respawnSpeed, chars := Clear(moved.chars))
      else moved;
    if Emits(f) then placed.(chars := Append(placed.chars, f.glyph)) else placed
  }

  /** The intensity of glyph `i` of `n`: 1 for glyph 0, falling to 1/n for the last glyph. */
  function Intensity(i: nat, n: nat): (v: real)
    requires i < n
    ensures 0.0 < v <= 1.0
    ensures v == 1.0 <==> i == 0
  {
    (n - i) as real / n as real
  }

  const White := Colour(255, 255, 255)
  const BrightGreen := Colour(150, 255, 150)
  const Green := Colour(0, 255, 0)
  const DimGreen := Colour(0, 150, 0)

  /**
   * The colour of glyph `i` of a history of `n`: glyph 0 (the one drawn at the
   * drop's head) is white, the others are bright green, green or dim green by
   * their intensity.
   */
  function GlyphColour(i: nat, n: nat): (c: Colour)
    requires i < n
    ensures ValidColour(c)
    ensures c == White <==> i == 0
    ensures 0 < i ==> (c == BrightGreen <==> Intensity(i, n) > 0.7)
    ensures 0 < i ==> (c == Green <==> 0.4 < Intensity(i, n) <= 0.7)
    ensures 0 < i ==> (c == DimGreen <==> Intensity(i, n) <= 0.4)
  {
    var intensity := Intensity(i, n);
    if i == 0 then White
    else if intensity > 0.7 then BrightGreen
    else if intensity > 0.4 then Green
    else DimGreen
  }

  /** Intensity falls as the index grows. */
  lemma IntensityAntitone(i: nat, j: nat, n: nat)
    requires i <= j < n
    ensures Intensity(j, n) <= Intensity(i, n)
  {
    var d := n as real;
    assert (n - j) as real <= (n - i) as real;
    assert (n - i) as real / d - (n - j) as real / d == (j - i) as real / d;
  }

  /** Past the white glyph, every channel of the ramp fades along the history. */
  lemma GlyphColourFades(i: nat, j: nat, n: nat)
    requires 0 < i <= j < n
    ensures GlyphColour(j, n).r <= GlyphColour(i, n).r
    ensures GlyphColour(j, n).g <= GlyphColour(i, n).g
    ensures GlyphColour(j, n).b <= GlyphColour(i, n).b
  {
    IntensityAntitone(i, j, n);
  }

  /** The rain effect's state: one drop per column. */
  class MatrixRain {
    var drops: seq<Drop>

    /** Every drop keeps its ranges, and drop `i` sits in column `i`. */
    ghost predicate Valid()
      reads this
    {
      forall i :: 0 <= i < |drops| ==> DropOk(drops[i]) && drops[i].x == i * ColumnWidth
    }

    /** Builds the drops for the start-up window width. */
    constructor (windowWidth: nat, draws: seq<ColumnDraw>)
      requires |draws| == windowWidth / ColumnWidth
      requires forall i :: 0 <= i < |draws| ==> ColumnDrawOk(draws[i])
      ensures Valid()
      ensures |drops| == windowWidth / ColumnWidth
      ensures forall i :: 0 <= i < |drops| ==> drops[i] == NewDrop(i, draws[i])
    {
      new;
      ResetDrops(windowWidth, draws);
    }

    /**
     * Rebuilds one drop per column of the current window width: drop `i` is at
     * x = 20 i, starts at a drawn y in [-500, 0] with a drawn speed in [3, 8],
     * font size in [16, 24] and an empty history of maximum length in [15, 30].
     */
    method ResetDrops(windowWidth: nat, draws: seq<ColumnDraw>)
      requires |draws| == windowWidth / ColumnWidth
      requires forall i :: 0 <= i < |draws| ==> ColumnDrawOk(draws[i])
      modifies this
      ensures Valid()
      ensures |drops| == windowWidth / ColumnWidth
      ensures forall i :: 0 <= i < |drops| ==> drops[i] == NewDrop(i, draws[i])
      ensures forall i :: 0 <= i < |drops| ==>
                drops[i].x == i * ColumnWidth && -500.0 <= drops[i].y <= 0.0
                && 3.0 <= drops[i].speed <= 8.0 && 16 <= drops[i].fontSize <= 24
                && drops[i].chars.items == [] && 15 <= drops[i].chars.maxlen <= 30
    {
      drops := [];
      var numColumns := windowWidth / ColumnWidth;
      var i := 0;
      while i < numColumns
        invariant 0 <= i <= numColumns
        invariant |drops| == i
        invariant forall k :: 0 <= k < i ==> drops[k] == NewDrop(k, draws[k])
      {
        var d := draws[i];
        drops := drops + [Drop(i * ColumnWidth, d.y as real, d.speed, Empty(d.maxlen as nat), d.fontSize)];
        i := i + 1;
      }
    }

    /**
     * One frame of the rain for a window of the given height: every drop takes
     * one DropStep, and afterwards no drop lies beyond the bottom margin.
     */
    method Update(windowHeight: nat, frame: seq<FrameDraw>)
      requires Valid()
      requires |frame| == |drops|
      requires forall i :: 0 <= i < |frame| ==> FrameDrawOk(frame[i])
      modifies this
      ensures Valid()
      ensures |drops| == |old(drops)|
      ensures forall i :: 0 <= i < |drops| ==> drops[i] == DropStep(old(drops)[i], windowHeight, frame[i])
      ensures forall i :: 0 <= i < |drops| ==> drops[i].y <= (windowHeight + BottomMargin) as real
    {
      var i := 0;
      while i < |drops|
        invariant 0 <= i <= |drops| == |old(drops)|
        invariant Valid()
        invariant forall k :: 0 <= k < i ==> drops[k] == DropStep(old(drops)[k], windowHeight, frame[k])
        invariant forall k :: i <= k < |drops| ==> drops[k] == old(drops)[k]
      {
        var drop := drops[i];
        drop := drop.(y := drop.y + drop.speed);
        if drop.y > (windowHeight + BottomMargin) as real {
          drop := drop.(y := frame[i].respawnY as real, speed := frame[i].respawnSpeed, chars := Clear(drop.chars));
        }
        if frame[i].roll > 0.3 {
          drop := drop.(chars := Append(drop.chars, frame[i].glyph));
        }
        drops := drops[i := drop];
        i := i + 1;
      }
    }
  }
}
