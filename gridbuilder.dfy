/** The geometry of `buildGrid`: a grid of dots `gap` apart, centred in the container, in
    row-major order (rows top to bottom, each row left to right). */
module GridBuilder {
  import opened JsNumbers

  /** A dot as `buildGrid` creates it: base centre `(cx, cy)`, the offsets the tweens animate,
      and the `animating` flag, which nothing reads. */
  datatype Dot = Dot(cx: real, cy: real, xOffset: real, yOffset: real, animating: bool)

  /** Where `draw` puts a dot: its base position plus its offset. */
  function RenderX(d: Dot): real
  {
    d.cx + d.xOffset
  }

  function RenderY(d: Dot): real
  {
    d.cy + d.yOffset
  }

  /** `Math.floor(size / gap)`: the number of whole gaps along one side. */
  function Cells(size: real, gap: real): int
    requires gap != 0.0
  {
    (size / gap).Floor
  }

  /** `(size - cells * gap) / 2`: the margin before the first dot. */
  function Start(size: real, gap: real): real
    requires gap != 0.0
  {
    (size - Cells(size, gap) as real * gap) / 2.0
  }

  /** The number of dots along one side: `cells + 1` (the loops run from 0 to `cells` inclusive). */
  function Count(size: real, gap: real): nat
    requires gap != 0.0
  {
    Max0(Cells(size, gap) + 1)
  }

  /** The dot in column `x` and row `y`. */
  function DotAt(width: real, height: real, gap: real, x: int, y: int): Dot
    requires gap != 0.0
  {
    Dot(Start(width, gap) + x as real * gap, Start(height, gap) + y as real * gap, 0.0, 0.0, false)
  }

  function Row(width: real, height: real, gap: real, y: int): seq<Dot>
    requires gap != 0.0
  {
    seq(Count(width, gap), x => DotAt(width, height, gap, x, y))
  }

  /** The first `k` rows, one after the other. */
  function Rows(width: real, height: real, gap: real, k: nat): seq<Dot>
    requires gap != 0.0
  {
    if k == 0 then [] else Rows(width, height, gap, k - 1) + Row(width, height, gap, k - 1)
  }

  /** The dots `buildGrid` stores for a container of the given size. */
  function Grid(width: real, height: real, gap: real): (g: seq<Dot>)
    requires gap != 0.0
    ensures |g| == Count(height, gap) * Count(width, gap)
  {
    RowsLength(width, height, gap, Count(height, gap));
    Rows(width, height, gap, Count(height, gap))
  }

  lemma {:induction false} RowsLength(width: real, height: real, gap: real, k: nat)
    requires gap != 0.0
    ensures |Rows(width, height, gap, k)| == k * Count(width, gap)
  {
    if k > 0 {
      RowsLength(width, height, gap, k - 1);
      assert (k - 1) * Count(width, gap) + Count(width, gap) == k * Count(width, gap);
    }
  }

  /** The row-major position of column `x` of row `y` in rows of `cols` dots. */
  function Index(cols: nat, x: nat, y: nat): nat
  {
    y * cols + x
  }

  /** The dot in column `x` of row `y` is at index `y * cols + x`. */
  lemma {:induction false} RowsAt(width: real, height: real, gap: real, k: nat, y: nat, x: nat)
    requires gap != 0.0
    requires y < k && x < Count(width, gap)
    ensures Index(Count(width, gap), x, y) < |Rows(width, height, gap, k)|
    ensures Rows(width, height, gap, k)[Index(Count(width, gap), x, y)] == DotAt(width, height, gap, x, y)
  {
    var n := Count(width, gap);
    RowsLength(width, height, gap, k);
    RowsLength(width, height, gap, k - 1);
    var prev := Rows(width, height, gap, k - 1);
    if y < k - 1 {
      RowsAt(width, height, gap, k - 1, y, x);
    } else {
      assert y * n == |prev|;
    }
  }

  /** The grid has `(floor(w/gap) + 1) * (floor(h/gap) + 1)` dots (none when a side has no
      column or row); the dot in column `x` and row `y` is at index `y * cols + x`; and every
      dot starts at rest. */
  lemma GridShape(width: real, height: real, gap: real)
    requires gap != 0.0
    ensures var g, nc := Grid(width, height, gap), Count(width, gap);
      && |g| == nc * Count(height, gap)
      && (forall y: nat, x: nat :: y < Count(height, gap) && x < nc ==>
            Index(nc, x, y) < |g| && g[Index(nc, x, y)] == DotAt(width, height, gap, x, y))
      && (forall i :: 0 <= i < |g| ==> AtRest(g[i]))
  {
    var nr, nc := Count(height, gap), Count(width, gap);
    var g := Grid(width, height, gap);
    RowsLength(width, height, gap, nr);
    forall y: nat, x: nat | y < nr && x < nc
      ensures Index(nc, x, y) < |g| && g[Index(nc, x, y)] == DotAt(width, height, gap, x, y)
    {
      RowsAt(width, height, gap, nr, y, x);
    }
    RowsAtRest(width, height, gap, nr);
  }

  /** A dot that has not been moved and is not being animated. */
  predicate AtRest(d: Dot)
  {
    d.xOffset == 0.0 && d.yOffset == 0.0 && !d.animating
  }

  lemma {:induction false} RowsAtRest(width: real, height: real, gap: real, k: nat)
    requires gap != 0.0
    ensures forall i :: 0 <= i < |Rows(width, height, gap, k)| ==> AtRest(Rows(width, height, gap, k)[i])
  {
    if k > 0 {
      RowsAtRest(width, height, gap, k - 1);
      var prev := Rows(width, height, gap, k - 1);
      var row := Row(width, height, gap, k - 1);
      assert Rows(width, height, gap, k) == prev + row;
      forall i | 0 <= i < |prev + row|
        ensures AtRest((prev + row)[i])
      {
        if i < |prev| {
          assert (prev + row)[i] == prev[i];
        } else {
          assert (prev + row)[i] == row[i - |prev|];
        }
      }
    }
  }

  /** `floor(size / gap) * gap` is at most `size`. */
  lemma FloorBelow(size: real, gap: real)
    requires gap > 0.0
    ensures (size / gap).Floor as real * gap <= size
  {
    var c := (size / gap).Floor as real;
    var q := size / gap;
    calc {
      c * gap;
    <= { MulSign(q - c, gap); MulDistributes(q, c, gap); }
      q * gap;
    ==
      size;
    }
  }

  /** `size` is less than one gap past `floor(size / gap) * gap`. */
  lemma FloorAbove(size: real, gap: real)
    requires gap > 0.0
    ensures size - (size / gap).Floor as real * gap < gap
  {
    var c := (size / gap).Floor as real;
    var q := size / gap;
    calc {
      size;
    ==
      q * gap;
    < { MulSign(c + 1.0 - q, gap); MulDistributes(c + 1.0, q, gap); }
      (c + 1.0) * gap;
    == { MulDistributes(c + 1.0, 1.0, gap); }
      c * gap + gap;
    }
  }

  /** The grid is centred: the margin before the first dot equals the margin after the last,
      and (for a positive gap) lies in [0, gap / 2). */
  lemma Centred(size: real, gap: real)
    requires gap > 0.0
    ensures 0.0 <= Start(size, gap) < gap / 2.0
    ensures size - (Start(size, gap) + Cells(size, gap) as real * gap) == Start(size, gap)
  {
    FloorBelow(size, gap);
    FloorAbove(size, gap);
  }

  /** A container of size 0 still gets one dot, at its corner. */
  lemma ZeroSize(gap: real)
    requires gap != 0.0
    ensures Grid(0.0, 0.0, gap) == [Dot(0.0, 0.0, 0.0, 0.0, false)]
  {
    assert Cells(0.0, gap) == 0;
    assert Rows(0.0, 0.0, gap, 1) == Rows(0.0, 0.0, gap, 0) + Row(0.0, 0.0, gap, 0);
  }

  /** Width, height and gap 1 give a 2-by-2 grid with no margin. */
  lemma UnitSquare()
    ensures Grid(1.0, 1.0, 1.0) ==
      [Dot(0.0, 0.0, 0.0, 0.0, false), Dot(1.0, 0.0, 0.0, 0.0, false),
       Dot(0.0, 1.0, 0.0, 0.0, false), Dot(1.0, 1.0, 0.0, 0.0, false)]
  {
    assert Cells(1.0, 1.0) == 1;
    assert Start(1.0, 1.0) == 0.0;
    assert Rows(1.0, 1.0, 1.0, 2) == Rows(1.0, 1.0, 1.0, 1) + Row(1.0, 1.0, 1.0, 1);
    assert Rows(1.0, 1.0, 1.0, 1) == Rows(1.0, 1.0, 1.0, 0) + Row(1.0, 1.0, 1.0, 0);
  }
}
