/**
 * Turning a decoded RGB image into the seed of the Life engine: sample the
 * pixels on a stride, keep the pure white ones as live cells, and optionally
 * shift the result so that it starts at (0, 0).
 */
module Seeding {
  import opened Grid

  /** One 8-bit colour channel. */
  newtype Byte = x: int | 0 <= x < 256

  datatype Rgb = Rgb(r: Byte, g: Byte, b: Byte)

  /** The only colour that seeds a live cell; every other colour, near-white included, is dead. */
  const White: Rgb := Rgb(255, 255, 255)

  /**
   * Cell c of the seed is alive: the stride is positive, the pixel (c.0 * step, c.1 * step)
   * lies in the image, and it is pure white. Pixels are addressed as px[x, y], with
   * width px.Length0 and height px.Length1.
   */
  ghost predicate Sampled(px: array2<Rgb>, step: int, c: Cell)
    reads px
  {
    step > 0 && 0 <= c.0 && 0 <= c.1 &&
    c.0 * step < px.Length0 && c.1 * step < px.Length1 &&
    px[c.0 * step, c.1 * step] == White
  }

  /** i <= i * step for a positive stride. */
  lemma ScaledAtLeast(i: int, step: int)
    requires 0 <= i && 0 < step
    ensures i <= i * step
  {
    assert i * step == i + i * (step - 1);
  }

  /** The seed an image yields with a given stride, as a set. */
  ghost function SampledCells(px: array2<Rgb>, step: int): (cells: set<Cell>)
    reads px
    ensures forall c :: c in cells <==> Sampled(px, step, c)
  {
    var cells := set i, j | 0 <= i < px.Length0 && 0 <= j < px.Length1 && Sampled(px, step, (i, j)) :: (i, j);
    assert forall c :: Sampled(px, step, c) ==> c in cells by {
      forall c | Sampled(px, step, c)
        ensures c in cells
      {
        ScaledAtLeast(c.0, step);
        ScaledAtLeast(c.1, step);
      }
    }
    cells
  }

  /** Scaling by a positive stride is monotone. */
  lemma ScaledMonotone(i: int, k: int, step: int)
    requires i <= k && 0 < step
    ensures i * step <= k * step
  {
    assert k * step == i * step + (k - i) * step;
  }

  /** Floor division undoes scaling by a positive stride. */
  lemma ScaledDivides(i: int, step: int)
    requires 0 < step
    ensures (i * step) / step == i
  {
    var q, r := (i * step) / step, (i * step) % step;
    assert i * step == q * step + r && 0 <= r < step;
    assert (i - q) * step == r;
    if i - q >= 1 {
      ScaledMonotone(1, i - q, step);
    } else if i - q <= -1 {
      ScaledMonotone(i - q, -1, step);
    }
  }

  /**
   * The visit of pixel (i * step, j * step) inside the image decides cell (i, j),
   * which floor division recovers from the pixel coordinates.
   */
  lemma VisitPixel(px: array2<Rgb>, step: int, i: int, j: int)
    requires 0 < step && 0 <= i && 0 <= j
    requires i * step < px.Length0 && j * step < px.Length1
    ensures (i * step) / step == i && (j * step) / step == j
    ensures (i + 1) * step == i * step + step
    ensures Sampled(px, step, (i, j)) <==> px[i * step, j * step] == White
  {
    ScaledDivides(i, step);
    ScaledDivides(j, step);
  }

  /**
   * The sampling loops of the image loader: visit x = 0, step, 2 * step, ... below the
   * width in each row y = 0, step, 2 * step, ... below the height, and record the cell
   * (x / step, y / step) of every pure white pixel. A negative stride visits nothing.
   */
  method SampleImage(px: array2<Rgb>, sampleStep: int) returns (alive: set<Cell>)
    requires sampleStep != 0
    ensures alive == SampledCells(px, sampleStep)
  {
    alive := {};
    if sampleStep < 0 {
      // a range with a negative step that starts at 0 and stops at a bound >= 0 is empty
      return;
    }
    var w, h := px.Length0, px.Length1;
    var y := 0;
    ghost var j := 0;
    while y < h
      invariant 0 <= j && y == j * sampleStep
      invariant forall c :: c in alive <==> Sampled(px, sampleStep, c) && c.1 < j
      decreases h - y
    {
      var x := 0;
      ghost var i := 0;
      while x < w
        invariant 0 <= i && x == i * sampleStep
        invariant forall c :: c in alive <==> Sampled(px, sampleStep, c) && (c.1 < j || (c.1 == j && c.0 < i))
        decreases w - x
      {
        VisitPixel(px, sampleStep, i, j);
        if px[x, y] == White {
          alive := alive + {(x / sampleStep, y / sampleStep)};
        }
        x, i := x + sampleStep, i + 1;
      }
      forall c: Cell | c.1 == j && c.0 >= i
        ensures !Sampled(px, sampleStep, c)
      {
        ScaledMonotone(i, c.0, sampleStep);
      }
      y, j := y + sampleStep, j + 1;
    }
    forall c: Cell | c.1 >= j
      ensures !Sampled(px, sampleStep, c)
    {
      ScaledMonotone(j, c.1, sampleStep);
    }
  }

  /**
   * Cropping a non-empty seed to its content: every cell moves by the same offset,
   * minus the smallest x and minus the smallest y of the seed. No two cells merge.
   */
  ghost function Crop(s: set<Cell>): (r: set<Cell>)
    requires s != {}
    ensures |r| == |s|
  {
    TranslateCardinality(s, -MinOf(Xs(s)), -MinOf(Ys(s)));
    Translate(s, -MinOf(Xs(s)), -MinOf(Ys(s)))
  }

  /** A cell is in the cropped seed exactly when it came from the seed cell offset by (min x, min y). */
  lemma CropShifts(s: set<Cell>, c: Cell)
    requires s != {}
    ensures c in Crop(s) <==> (c.0 + MinOf(Xs(s)), c.1 + MinOf(Ys(s))) in s
  {
    var minX, minY := MinOf(Xs(s)), MinOf(Ys(s));
    TranslateMember(s, -minX, -minY, c);
    assert (c.0 - -minX, c.1 - -minY) == (c.0 + minX, c.1 + minY);
  }

  /** No cropped cell has a negative coordinate. */
  lemma CropNonNegative(s: set<Cell>, c: Cell)
    requires s != {} && c in Crop(s)
    ensures 0 <= c.0 && 0 <= c.1
  {
    var minX, minY := MinOf(Xs(s)), MinOf(Ys(s));
    CropShifts(s, c);
    var a := (c.0 + minX, c.1 + minY);
    assert a.0 in Xs(s) && a.1 in Ys(s);
  }

  /** After cropping, some cell has x coordinate 0 and some cell has y coordinate 0. */
  lemma CropTouchesAxes(s: set<Cell>)
    requires s != {}
    ensures exists c :: c in Crop(s) && c.0 == 0
    ensures exists c :: c in Crop(s) && c.1 == 0
  {
    var minX, minY := MinOf(Xs(s)), MinOf(Ys(s));
    XsWitness(s, minX);
    var left :| left in s && left.0 == minX;
    var c := (0, left.1 - minY);
    assert (c.0 + minX, c.1 + minY) == left;
    CropShifts(s, c);
    assert c in Crop(s);
    YsWitness(s, minY);
    var top :| top in s && top.1 == minY;
    var d := (top.0 - minX, 0);
    assert (d.0 + minX, d.1 + minY) == top;
    CropShifts(s, d);
    assert d in Crop(s);
  }

  /** Only pixels on the stride grid are ever looked at: an unaligned pixel is never sampled. */
  lemma UnalignedPixelIgnored(px: array2<Rgb>, step: int, x: int, y: int, c: Cell)
    requires step > 0 && (x % step != 0 || y % step != 0)
    requires Sampled(px, step, c)
    ensures (c.0 * step, c.1 * step) != (x, y)
  {
    ScaledDivides(c.0, step);
    ScaledDivides(c.1, step);
  }

  /**
   * An image whose only pure white pixel is (x, y) seeds exactly the cell (x, y) with
   * stride 1, and exactly (0, 0) once cropped.
   */
  lemma SingleWhitePixel(px: array2<Rgb>, x: int, y: int)
    requires 0 <= x < px.Length0 && 0 <= y < px.Length1
    requires forall i, j :: 0 <= i < px.Length0 && 0 <= j < px.Length1 ==> (px[i, j] == White <==> i == x && j == y)
    ensures SampledCells(px, 1) == {(x, y)}
    ensures Crop(SampledCells(px, 1)) == {(0, 0)}
  {
    var seed := SampledCells(px, 1);
    assert seed == {(x, y)} by {
      forall c
        ensures c in seed <==> c == (x, y)
      {
      }
    }
    assert Xs(seed) == {x};
    assert Ys(seed) == {y};
    forall c
      ensures c in Crop(seed) <==> c == (0, 0)
    {
      CropShifts(seed, c);
    }
  }

  /** Shifting by the least x and the least y found by a pass over s is the crop of s. */
  lemma CropByLeast(s: set<Cell>, minX: int, minY: int)
    requires s != {}
    requires (exists c :: c in s && c.0 == minX) && forall c :: c in s ==> minX <= c.0
    requires (exists c :: c in s && c.1 == minY) && forall c :: c in s ==> minY <= c.1
    ensures Translate(s, -minX, -minY) == Crop(s)
  {
    LeastXIsMin(s, minX);
    LeastYIsMin(s, minY);
    assert Crop(s) == Translate(s, -MinOf(Xs(s)), -MinOf(Ys(s)));
  }

  /** An x that some cell has and that no cell undercuts is the least x of s. */
  lemma LeastXIsMin(s: set<Cell>, minX: int)
    requires (exists c :: c in s && c.0 == minX) && forall c :: c in s ==> minX <= c.0
    ensures Xs(s) != {} && MinOf(Xs(s)) == minX
  {
    var xs := Xs(s);
    assert minX in xs && forall x :: x in xs ==> minX <= x;
    MinOfUnique(xs, minX);
  }

  /** A y that some cell has and that no cell undercuts is the least y of s. */
  lemma LeastYIsMin(s: set<Cell>, minY: int)
    requires (exists c :: c in s && c.1 == minY) && forall c :: c in s ==> minY <= c.1
    ensures Ys(s) != {} && MinOf(Ys(s)) == minY
  {
    var ys := Ys(s);
    assert minY in ys && forall y :: y in ys ==> minY <= y;
    MinOfUnique(ys, minY);
  }

  /** The smallest x coordinate of a non-empty set of cells, found by one pass over it. */
  method LeastX(s: set<Cell>) returns (m: int)
    requires s != {}
    ensures exists c :: c in s && c.0 == m
    ensures forall c :: c in s ==> m <= c.0
  {
    SomeCell(s);
    var a :| a in s;
    m := a.0;
    var todo := s - {a};
    while todo != {}
      invariant todo <= s
      invariant exists c :: c in s && c.0 == m
      invariant forall c :: c in s && c !in todo ==> m <= c.0
      decreases todo
    {
      SomeCell(todo);
      var c :| c in todo;
      if c.0 < m {
        m := c.0;
      }
      todo := todo - {c};
    }
  }

  /** The smallest y coordinate of a non-empty set of cells, found by one pass over it. */
  method LeastY(s: set<Cell>) returns (m: int)
    requires s != {}
    ensures exists c :: c in s && c.1 == m
    ensures forall c :: c in s ==> m <= c.1
  {
    SomeCell(s);
    var a :| a in s;
    m := a.1;
    var todo := s - {a};
    while todo != {}
      invariant todo <= s
      invariant exists c :: c in s && c.1 == m
      invariant forall c :: c in s && c !in todo ==> m <= c.1
      decreases todo
    {
      SomeCell(todo);
      var c :| c in todo;
      if c.1 < m {
        m := c.1;
      }
      todo := todo - {c};
    }
  }
}
