/** The hotspot window of main_v8.cpp: a 30x30 rectangle whose top-left
    corner is placed 15 pixels up and left of the box filter's maximum
    (the filter's anchor is the window centre) and then pushed back inside
    the frame, and the sums of the raw temperature samples under it in a
    row-major grid. The box filter and the search for its maximum are not
    part of this model: the maximum's location is an input. */
module Hotspot {
  import opened Common

  const RegionSize: int := 30
  const HalfRegion: int := 15

  /** Top-left corner (rectX, rectY) of the window. */
  datatype Region = Region(x: int, y: int)

  function Max(a: int, b: int): int {
    if a >= b then a else b
  }

  /** One axis of the clamp: `max(0, m - 15)`, replaced by `size - 30` when
      the window would reach past the frame's edge. */
  function ClampAxis(m: int, size: int): (r: int)
    ensures r + RegionSize <= size
    ensures size >= RegionSize ==> 0 <= r
    ensures r < 0 ==> r == size - RegionSize
    ensures HalfRegion <= m <= size - HalfRegion ==> r == m - HalfRegion
    ensures m < HalfRegion && size >= RegionSize ==> r == 0
    ensures m > size - HalfRegion ==> r == size - RegionSize
  {
    var r := Max(0, m - HalfRegion);
    if r + RegionSize > size then size - RegionSize else r
  }

  /** The window lies inside a w x h frame. */
  predicate InFrame(rect: Region, w: int, h: int) {
    0 <= rect.x && rect.x + RegionSize <= w && 0 <= rect.y && rect.y + RegionSize <= h
  }

  /** The clamp: on a frame at least as large as the window, the window
      lies inside it whatever the maximum's location; a maximum far enough
      from the edges is the window's centre. */
  function HotspotOrigin(maxX: int, maxY: int, w: int, h: int): (rect: Region)
    ensures w >= RegionSize && h >= RegionSize ==> InFrame(rect, w, h)
    ensures rect.x + RegionSize <= w && rect.y + RegionSize <= h
    ensures HalfRegion <= maxX <= w - HalfRegion && HalfRegion <= maxY <= h - HalfRegion ==>
      rect == Region(maxX - HalfRegion, maxY - HalfRegion)
  {
    Region(ClampAxis(maxX, w), ClampAxis(maxY, h))
  }

  /** Row `row` of a w-wide row-major grid of w*h samples lies inside it. */
  lemma RowInFrame(w: int, h: int, row: int)
    requires 0 <= w && 0 <= row < h
    ensures 0 <= row * w && row * w + w <= w * h
  {
    assert row * w + w == (row + 1) * w;
    assert (row + 1) * w <= h * w by {
      var d := h - (row + 1);
      assert h * w == (row + 1) * w + d * w;
    }
  }

  /** The sum of `len` consecutive samples of g from index `start` on.
      (Here and in RowsFit and RegionSum the `decreases` clause also names an
      argument that is never a constant, so that the solver does not unroll
      every call whose count is the constant 30 down to 0.) */
  function RowSum(g: seq<UInt16>, start: int, len: nat): (r: int)
    requires 0 <= start && start + len <= |g|
    ensures 0 <= r <= len * 0xFFFF
    decreases len, |g|
  {
    if len == 0 then 0 else RowSum(g, start, len - 1) + g[start + len - 1]
  }

  /** The flat index `rectY * W + rectX` of the window's first sample. */
  function WindowBase(w: int, rect: Region): int {
    rect.y * w + rect.x
  }

  /** The summing loop reads `ty * W + tx` for 30 rows and 30 columns; on a
      frame of positive width these indices run from the window's base to
      29 rows and 29 columns further on, so they all lie in a grid of
      `size` samples exactly when these two ends do. A window the clamp
      pushed left of column 0 wraps into the row above and can still lie
      in the grid. */
  predicate WindowInGrid(size: int, w: int, rect: Region) {
    0 < w && 0 <= WindowBase(w, rect) &&
    WindowBase(w, rect) + 29 * w + RegionSize <= size
  }

  /** The index the summing loop reads at row ty, column tx. */
  function LoopIndex(w: int, ty: int, tx: int): int {
    ty * w + tx
  }

  /** WindowInGrid says exactly that every index the loop reads is in the grid. */
  lemma WindowInGridIndices(size: int, w: int, rect: Region)
    requires 0 < w
    ensures WindowInGrid(size, w, rect) <==>
      forall ty, tx :: rect.y <= ty < rect.y + RegionSize && rect.x <= tx < rect.x + RegionSize ==>
        0 <= LoopIndex(w, ty, tx) < size
  {
    if WindowInGrid(size, w, rect) {
      forall ty, tx | rect.y <= ty < rect.y + RegionSize && rect.x <= tx < rect.x + RegionSize
        ensures 0 <= LoopIndex(w, ty, tx) < size
      {
        var r := ty - rect.y;
        assert ty * w == rect.y * w + r * w;
        assert 0 <= r * w <= 29 * w by {
          assert 29 * w - r * w == (29 - r) * w;
        }
      }
    } else {
      var last := rect.y + RegionSize - 1;
      assert last * w == rect.y * w + 29 * w;
      assert LoopIndex(w, rect.y, rect.x) < 0 ||
        LoopIndex(w, last, rect.x + RegionSize - 1) >= size;
    }
  }

  /** On a frame at least as large as the window, the clamped window is
      always in the grid. */
  lemma ClampedWindowInGrid(w: int, h: int, maxX: int, maxY: int)
    requires w >= RegionSize && h >= RegionSize
    ensures WindowInGrid(w * h, w, HotspotOrigin(maxX, maxY, w, h))
  {
    var rect := HotspotOrigin(maxX, maxY, w, h);
    var last := rect.y + RegionSize - 1;
    RowInFrame(w, h, last);
    assert 0 <= rect.y * w;
    assert last * w == rect.y * w + 29 * w;
  }

  /** `rows` window rows, the first starting at flat index `start` and each
      next one `w` samples further on, all lie in a grid of `size` samples. */
  predicate RowsFit(size: int, w: int, start: int, rows: nat)
    decreases rows, start
  {
    rows == 0 || (0 <= start && start + RegionSize <= size && RowsFit(size, w, start + w, rows - 1))
  }

  /** Rows that start in the grid and whose last row ends in it all fit. */
  lemma {:induction false} RowsFitWhenEndsFit(size: int, w: int, start: int, rows: nat)
    requires 0 <= w && 0 <= start
    requires rows == 0 || start + (rows - 1) * w + RegionSize <= size
    ensures RowsFit(size, w, start, rows)
    decreases rows
  {
    if rows > 1 {
      assert (rows - 1) * w == w + (rows - 2) * w;
      assert 0 <= (rows - 2) * w;
      RowsFitWhenEndsFit(size, w, start + w, rows - 1);
    }
  }

  /** Row `ty + 1` of a grid of width `w` starts `w` samples after row `ty`. */
  lemma NextRow(ty: int, w: int)
    ensures (ty + 1) * w == ty * w + w
  {
  }

  /** The 30 rows of a window in the grid fit, row by row. */
  lemma WindowRowsFit(size: int, w: int, rect: Region)
    requires WindowInGrid(size, w, rect)
    ensures RowsFit(size, w, WindowBase(w, rect), RegionSize)
  {
    RowsFitWhenEndsFit(size, w, WindowBase(w, rect), RegionSize);
  }

  /** The sum over `rows` window rows of 30 samples each, the first starting
      at flat index `start` in a grid of width `w` and each next one a grid
      row further on; `rows * 30` samples, each below 65536. */
  function RegionSum(g: seq<UInt16>, w: int, start: int, rows: nat): (r: int)
    requires RowsFit(|g|, w, start, rows)
    ensures 0 <= r <= rows * (30 * 0xFFFF)
    decreases rows, |g|
  {
    if rows == 0 then 0
    else RowSum(g, start, RegionSize) + RegionSum(g, w, start + w, rows - 1)
  }

  /** The first of `rows` fitting rows lies in the grid; the rest fit and
      add up to the region sum without it. */
  lemma RegionSumFirst(g: seq<UInt16>, w: int, start: int, rows: nat)
    requires RowsFit(|g|, w, start, rows) && 0 < rows
    ensures 0 <= start && start + RegionSize <= |g| && RowsFit(|g|, w, start + w, rows - 1)
    ensures RegionSum(g, w, start, rows) == RowSum(g, start, RegionSize) + RegionSum(g, w, start + w, rows - 1)
  {
  }

  /** `(double)sumTemp / count`: the mean of `count` samples that add up
      to `sum` is itself within the range of a sample. */
  function Mean(sum: int, count: int): (m: real)
    requires 0 < count && 0 <= sum <= count * 0xFFFF
    ensures 0.0 <= m <= 65535.0
    ensures m * count as real == sum as real
  {
    sum as real / count as real
  }

  /** The mean raw sample under the window: its sum over its 900 samples. */
  function WindowMean(g: seq<UInt16>, w: int, rect: Region): (m: real)
    requires WindowInGrid(|g|, w, rect)
    ensures 0.0 <= m <= 65535.0
  {
    WindowRowsFit(|g|, w, rect);
    Mean(RegionSum(g, w, WindowBase(w, rect), RegionSize), RegionSize * RegionSize)
  }

  lemma {:induction false} UniformRowSum(g: seq<UInt16>, start: int, len: nat, c: UInt16)
    requires 0 <= start && start + len <= |g|
    requires forall k :: 0 <= k < |g| ==> g[k] == c
    ensures RowSum(g, start, len) == len * c
  {
    if len > 0 {
      UniformRowSum(g, start, len - 1, c);
    }
  }

  /** On a grid of equal samples every run of 30 has the same sum. */
  lemma UniformRows(g: seq<UInt16>, c: UInt16)
    requires forall k :: 0 <= k < |g| ==> g[k] == c
    ensures forall s :: 0 <= s && s + RegionSize <= |g| ==> RowSum(g, s, RegionSize) == RegionSize * c
  {
    forall s | 0 <= s && s + RegionSize <= |g|
      ensures RowSum(g, s, RegionSize) == RegionSize * c
    {
      UniformRowSum(g, s, RegionSize, c);
    }
  }

  lemma {:induction false} UniformRegionSum(g: seq<UInt16>, w: int, start: int, rows: nat, c: UInt16)
    requires RowsFit(|g|, w, start, rows)
    requires forall s :: 0 <= s && s + RegionSize <= |g| ==> RowSum(g, s, RegionSize) == RegionSize * c
    ensures RegionSum(g, w, start, rows) == rows * (RegionSize * c)
    decreases rows
  {
    if rows > 0 {
      UniformRegionSum(g, w, start + w, rows - 1, c);
      var rowTotal := RegionSize * c;
      assert (rows - 1) * rowTotal + rowTotal == rows * rowTotal;
    }
  }

  /** On a grid of equal samples the window's mean is that sample. */
  lemma UniformWindowMean(g: seq<UInt16>, w: int, rect: Region, c: UInt16)
    requires WindowInGrid(|g|, w, rect)
    requires forall k :: 0 <= k < |g| ==> g[k] == c
    ensures WindowMean(g, w, rect) == c as real
  {
    UniformRows(g, c);
    WindowRowsFit(|g|, w, rect);
    UniformRegionSum(g, w, WindowBase(w, rect), RegionSize, c);
  }
}
