/** The temperature path of main_v8.cpp: tempCallBack decodes the
    bit-interleaved raw buffer into the sample vector `g_tempBuf`, and the
    render loop averages the 900 samples under the hotspot window and
    converts the mean to Celsius. */
module Temperature {
  import opened Common
  import opened Hotspot
  import opened Calibration

  /** `(uint16_t)((hi << 8) + lo)`: the two bytes are recoverable from the
      sample, so the cast never truncates. */
  function DecodeSample(hi: UInt8, lo: UInt8): (r: UInt16)
    ensures r / 256 == hi && r % 256 == lo
  {
    hi * 256 + lo
  }

  /** The samples written by the first `m` iterations of the decoding loop
      on a buffer of `n` pixels: the high bytes come from the first half of
      the buffer, the low bytes from the second half with the two bytes of
      each pixel pair swapped. */
  function DecodedPairs(raw: seq<UInt8>, n: nat, m: nat): (r: seq<UInt16>)
    requires 2 * m <= n && 2 * n <= |raw|
    ensures |r| == 2 * m
    decreases m
  {
    if m == 0 then []
    else
      var ii := m - 1;
      DecodedPairs(raw, n, ii) +
        [DecodeSample(raw[2 * ii], raw[n + 2 * ii + 1]),
         DecodeSample(raw[2 * ii + 1], raw[n + 2 * ii])]
  }

  /** The per-sample equations of the decoding loop. */
  lemma {:induction false} DecodedPairsAt(raw: seq<UInt8>, n: nat, m: nat, ii: nat)
    requires 2 * m <= n && 2 * n <= |raw| && ii < m
    ensures DecodedPairs(raw, n, m)[2 * ii] == raw[2 * ii] as int * 256 + raw[n + 2 * ii + 1] as int
    ensures DecodedPairs(raw, n, m)[2 * ii + 1] == raw[2 * ii + 1] as int * 256 + raw[n + 2 * ii] as int
  {
    if ii < m - 1 {
      DecodedPairsAt(raw, n, m - 1, ii);
    }
  }

  /** The sample vector after an accepted tempCallBack: resized to
      n = |raw| / 2 samples, then the first 2 * (n / 2) of them decoded.
      When n is odd the last sample keeps what the resize left there. */
  function TempGrid(prev: seq<UInt16>, raw: seq<UInt8>): (g: seq<UInt16>)
    ensures |g| == |raw| / 2
  {
    var n := |raw| / 2;
    DecodedPairs(raw, n, n / 2) + Resize(prev, n, 0)[2 * (n / 2)..]
  }

  /** What tempCallBack leaves in the sample vector, sample by sample. */
  lemma TempGridSamples(prev: seq<UInt16>, raw: seq<UInt8>)
    ensures var n := |raw| / 2; var g := TempGrid(prev, raw);
      |g| == n &&
      (forall ii :: 0 <= ii < n / 2 ==>
        g[2 * ii] == raw[2 * ii] as int * 256 + raw[n + 2 * ii + 1] as int &&
        g[2 * ii + 1] == raw[2 * ii + 1] as int * 256 + raw[n + 2 * ii] as int) &&
      (n % 2 == 1 ==> g[n - 1] == if n - 1 < |prev| then prev[n - 1] else 0)
  {
    var n := |raw| / 2;
    var g := TempGrid(prev, raw);
    forall ii | 0 <= ii < n / 2
      ensures g[2 * ii] == raw[2 * ii] as int * 256 + raw[n + 2 * ii + 1] as int
      ensures g[2 * ii + 1] == raw[2 * ii + 1] as int * 256 + raw[n + 2 * ii] as int
    {
      DecodedPairsAt(raw, n, n / 2, ii);
    }
  }

  /** Every index the decoding loop reads lies in [0, BufferLen); the bytes
      of pixel pair ii sit at 2ii and 2ii+1 of the first half and at the
      same offsets of the second half, and when BufferLen is odd its last
      byte is never read. */
  lemma DecodeReadsInsideBuffer(bufferLen: int, ii: int)
    requires bufferLen > 0 && 0 <= ii < (bufferLen / 2) / 2
    ensures var n := bufferLen / 2;
      2 * ii + 1 < n && n + 2 * ii + 1 < 2 * n <= bufferLen &&
      (bufferLen % 2 == 1 ==> n + 2 * ii + 1 < bufferLen - 1)
  {
  }

  /** The worked example: the pixel pair (0x12, 0x34 | 0x56, 0x78) decodes
      to 0x1278 and 0x3456. */
  lemma DecodeExample(prev: seq<UInt16>)
    ensures TempGrid(prev, [0x12, 0x34, 0x56, 0x78]) == [0x1278, 0x3456]
  {
    var raw: seq<UInt8> := [0x12, 0x34, 0x56, 0x78];
    assert DecodedPairs(raw, 2, 1) == DecodedPairs(raw, 2, 0) + [0x1278, 0x3456];
  }

  /** The reading the render loop shows: `isTempValid` and `celsius`. */
  datatype Reading = Reading(celsius: real, isTempValid: bool)

  /** The guard as the source writes it: the sample vector is non-empty and
      has one sample per video pixel. */
  predicate GuardAsWritten(size: int, w: int, h: int) {
    size != 0 && size == w * h
  }

  /** The guard this model uses: as written, and every index the summing
      loop reads for the clamped window lies in the sample vector. */
  predicate CanAverage(size: int, w: int, h: int, rect: Region) {
    GuardAsWritten(size, w, h) && WindowInGrid(size, w, rect)
  }

  /** As written, the guard lets a frame lower than the window through (or
      a narrower one whose window the clamp puts in the top rows), and the
      summing loop's first index `rectY * W + rectX` is then negative. */
  lemma AsWrittenGuardAdmitsOutOfBounds(w: int, h: int, maxX: int, maxY: int)
    requires 0 < w && 0 < h && (h < RegionSize || (w < RegionSize && maxY <= HalfRegion))
    ensures var rect := HotspotOrigin(maxX, maxY, w, h);
      GuardAsWritten(w * h, w, h) && LoopIndex(w, rect.y, rect.x) < 0 &&
      !CanAverage(w * h, w, h, rect)
  {
    var rect := HotspotOrigin(maxX, maxY, w, h);
    assert rect.x <= w - RegionSize;
    if h < RegionSize {
      RowAboveGrid(rect.y, w);
    } else {
      assert rect.y == 0;
    }
    assert WindowBase(w, rect) == LoopIndex(w, rect.y, rect.x);
  }

  /** A row above row 0 starts at least a full row before index 0. */
  lemma RowAboveGrid(y: int, w: int)
    requires y < 0 && 0 < w
    ensures y * w <= -w
  {
    var k := -1 - y;
    assert y * w == -w - k * w;
    assert 0 <= k * w;
  }

  /** The concrete case: a 20x20 frame with 400 samples and the box
      filter's maximum at (0, 0) puts the window at (-10, -10), and the
      loop would first read index -210. */
  lemma OutOfBoundsExample()
    ensures GuardAsWritten(400, 20, 20)
    ensures HotspotOrigin(0, 0, 20, 20) == Region(-10, -10)
    ensures LoopIndex(20, -10, -10) == -210
    ensures !CanAverage(400, 20, 20, Region(-10, -10))
  {
  }

  /** A narrow frame whose window wraps into the row above but stays in
      the grid: 20x40 with 800 samples and the maximum at (5, 39) puts the
      window at (-10, 10); the loop reads indices 190 to 799, and the
      reading is valid, as in the source. */
  lemma NarrowFrameExample()
    ensures GuardAsWritten(800, 20, 40)
    ensures HotspotOrigin(5, 39, 20, 40) == Region(-10, 10)
    ensures CanAverage(800, 20, 40, Region(-10, 10))
  {
  }

  /** The corrected guard differs from the written one exactly on the
      inputs for which the loop would read outside the vector. */
  lemma CorrectedGuardAgreesWhereDefined(size: int, w: int, h: int, rect: Region)
    requires 0 < w
    ensures CanAverage(size, w, h, rect) <==>
      GuardAsWritten(size, w, h) &&
      forall ty, tx :: rect.y <= ty < rect.y + RegionSize && rect.x <= tx < rect.x + RegionSize ==>
        0 <= LoopIndex(w, ty, tx) < size
  {
    WindowInGridIndices(size, w, rect);
  }

  /** On frames at least as large as the window the two guards agree. */
  lemma LargeFramesKeepWrittenGuard(size: int, w: int, h: int, maxX: int, maxY: int)
    requires w >= RegionSize && h >= RegionSize
    ensures CanAverage(size, w, h, HotspotOrigin(maxX, maxY, w, h)) <==> GuardAsWritten(size, w, h)
  {
    ClampedWindowInGrid(w, h, maxX, maxY);
  }

  /** With the corrected guard every index the summing loop reads lies in
      the sample vector. */
  lemma CorrectedGuardKeepsIndicesInFrame(size: int, w: int, h: int, rect: Region, ty: int, tx: int)
    requires CanAverage(size, w, h, rect)
    requires rect.y <= ty < rect.y + RegionSize && rect.x <= tx < rect.x + RegionSize
    ensures 0 <= LoopIndex(w, ty, tx) < size
  {
    WindowInGridIndices(size, w, rect);
  }

  /** The decoding loop of tempCallBack over a vector of `n` samples: one
      pixel pair per iteration, the high bytes from the first half of the
      buffer and the low bytes from the second; when n is odd the last
      sample is left as it was. */
  method DecodeInto(grid: array<UInt16>, raw: seq<UInt8>, n: nat)
    requires grid.Length == n && 2 * n <= |raw|
    modifies grid
    ensures grid[..] == DecodedPairs(raw, n, n / 2) + old(grid[..])[2 * (n / 2)..]
  {
    ghost var before := grid[..];
    var ii := 0;
    while ii < n / 2
      invariant 0 <= ii <= n / 2
      invariant grid[..2 * ii] == DecodedPairs(raw, n, ii)
      invariant grid[2 * ii..] == before[2 * ii..]
    {
      ghost var done := grid[..2 * ii];
      ghost var rest := grid[2 * ii + 2..];
      grid[ii * 2] := DecodeSample(raw[ii * 2], raw[ii * 2 + 1 + n]);
      grid[ii * 2 + 1] := DecodeSample(raw[ii * 2 + 1], raw[ii * 2 + n]);
      assert grid[..2 * ii] == done && grid[2 * ii + 2..] == rest;
      assert grid[..2 * ii + 2] == done + [grid[2 * ii], grid[2 * ii + 1]];
      ii := ii + 1;
    }
    assert grid[..] == grid[..2 * ii] + grid[2 * ii..];
  }

  /** `g_tempBuf` as a class: a vector of samples, here an array that a
      resize replaces. */
  class TempBuffer {
    var buf: array<UInt16>

    constructor ()
      ensures fresh(buf) && buf.Length == 0
    {
      buf := new UInt16[0];
    }

    /** tempCallBack: a null or non-positive-length delivery changes
        nothing; otherwise the vector is resized to BufferLen / 2 samples
        only if its size differs, and the loop decodes one pixel pair per
        iteration. */
    method TempCallBack(pBuffer: Option<seq<UInt8>>, bufferLen: int)
      requires pBuffer.Some? ==> |pBuffer.value| == bufferLen
      modifies this, buf
      ensures pBuffer.None? || bufferLen <= 0 ==> buf == old(buf) && buf[..] == old(buf[..])
      ensures pBuffer.Some? && bufferLen > 0 ==>
        buf[..] == TempGrid(old(buf[..]), pBuffer.value) && (buf == old(buf) || fresh(buf))
    {
      if pBuffer.None? || bufferLen <= 0 {
        return;
      }
      var numPixels := bufferLen / 2;
      if buf.Length != numPixels {
        var resized := Resize(buf[..], numPixels, 0);
        buf := new UInt16[numPixels](k requires 0 <= k < numPixels => resized[k]);
      }
      ghost var sized := buf[..];
      assert sized == Resize(old(buf[..]), numPixels, 0);
      DecodeInto(buf, pBuffer.value, numPixels);
    }

    /** The inner loop of the window sum: the 30 samples of one window row,
        read at `rowBase + tx` for `tx` from `x0` up to `x0 + 30`. */
    method RowTotal(rowBase: int, x0: int) returns (rowSum: int)
      requires 0 <= rowBase + x0 && rowBase + x0 + RegionSize <= buf.Length
      ensures rowSum == RowSum(buf[..], rowBase + x0, RegionSize)
    {
      rowSum := 0;
      var tx := x0;
      while tx < x0 + RegionSize
        invariant x0 <= tx <= x0 + RegionSize
        invariant rowSum == RowSum(buf[..], rowBase + x0, tx - x0)
      {
        rowSum := rowSum + buf[rowBase + tx];
        tx := tx + 1;
      }
    }

    /** The nested loops of the render step: every row of the 30x30 window,
        from `rect.y` down, each read from its flat offset `ty * W` on, when
        all 30 rows lie in the vector; the count of samples read is 900. */
    method WindowSum(localW: int, rect: Region) returns (sumTemp: int, count: int)
      requires RowsFit(buf.Length, localW, WindowBase(localW, rect), RegionSize)
      ensures sumTemp == RegionSum(buf[..], localW, WindowBase(localW, rect), RegionSize)
      ensures count == RegionSize * RegionSize
    {
      ghost var g := buf[..];
      sumTemp, count := 0, 0;
      var ty := rect.y;
      ghost var start := WindowBase(localW, rect);
      while ty < rect.y + RegionSize
        invariant rect.y <= ty <= rect.y + RegionSize
        invariant start == ty * localW + rect.x
        invariant RowsFit(|g|, localW, start, rect.y + RegionSize - ty)
        invariant sumTemp + RegionSum(g, localW, start, rect.y + RegionSize - ty) ==
          RegionSum(g, localW, WindowBase(localW, rect), RegionSize)
        invariant count == (ty - rect.y) * 30
      {
        var rowBase := ty * localW;
        RegionSumFirst(g, localW, start, rect.y + RegionSize - ty);
        var rowSum := RowTotal(rowBase, rect.x);
        sumTemp := sumTemp + rowSum;
        count := count + RegionSize;
        NextRow(ty, localW);
        start := start + localW;
        ty := ty + 1;
      }
    }

    /** The render loop from the clamp to the Celsius value: the window is
        placed by the clamp; when the guard holds (as written, with every
        index the loop reads inside the vector), the nested loops add up
        the 900 samples under it and the mean goes through the piecewise
        formula; otherwise the reading is invalid with Celsius 0. */
    method HotspotReading(localW: int, localH: int, maxX: int, maxY: int) returns (rect: Region, reading: Reading)
      ensures rect == HotspotOrigin(maxX, maxY, localW, localH)
      ensures reading.isTempValid <==> CanAverage(buf.Length, localW, localH, rect)
      ensures reading.isTempValid ==>
        reading.celsius == Celsius(WindowMean(buf[..], localW, rect))
      ensures !reading.isTempValid ==> reading.celsius == 0.0
    {
      rect := HotspotOrigin(maxX, maxY, localW, localH);
      reading := Reading(0.0, false);
      if !CanAverage(buf.Length, localW, localH, rect) {
        return;
      }
      WindowRowsFit(buf.Length, localW, rect);
      var sumTemp, count := WindowSum(localW, rect);
      var avgRawTemp := Mean(sumTemp, count);
      reading := Reading(Celsius(avgRawTemp), true);
    }
  }
}
