/** The two pixel buffers the library builds without tracing: a blank white screen and a
    two-channel gradient. A buffer holds `width * height` packed pixels, row after row. */
module Screen {
  import opened Vec

  const White: u32 := 0xff_ffff

  /** The buffer position of pixel `(x, y)`: row `y`, column `x`. */
  function RowMajor(width: nat, height: nat, x: nat, y: nat): (i: nat)
    requires x < width && y < height
    ensures i < width * height
  {
    RowMajorBound(width, height, x, y);
    y * width + x
  }

  lemma RowMajorBound(width: nat, height: nat, x: nat, y: nat)
    requires x < width && y < height
    ensures y * width + x < width * height
  {
    assert y * width + x < y * width + width == (y + 1) * width;
    assert (y + 1) * width <= height * width;
  }

  /** Every position of the buffer is the position of exactly one pixel: the one in column
      `i % width` of row `i / width`. */
  lemma RowMajorCovers(width: nat, height: nat, i: nat)
    requires i < width * height
    ensures 0 < width && i % width < width && i / width < height
    ensures RowMajor(width, height, i % width, i / width) == i
  {
    var x, y := i % width, i / width;
    assert i == y * width + x;
  }

  /** Distinct pixels have distinct positions. */
  lemma RowMajorInjective(width: nat, height: nat, x1: nat, y1: nat, x2: nat, y2: nat)
    requires x1 < width && y1 < height && x2 < width && y2 < height
    requires RowMajor(width, height, x1, y1) == RowMajor(width, height, x2, y2)
    ensures x1 == x2 && y1 == y2
  {
    RowMajorSplit(width, height, x1, y1);
    RowMajorSplit(width, height, x2, y2);
  }

  lemma RowMajorSplit(width: nat, height: nat, x: nat, y: nat)
    requires x < width && y < height
    ensures RowMajor(width, height, x, y) % width == x && RowMajor(width, height, x, y) / width == y
  {
    DivModUnique(y * width + x, width, y, x);
  }

  /** `blank_screen`: a `width * height` buffer with every pixel white. */
  method BlankScreen(width: nat, height: nat) returns (buffer: seq<u32>)
    ensures |buffer| == width * height
    ensures forall i :: 0 <= i < |buffer| ==> buffer[i] == White
  {
    var a := new u32[width * height](_ => 0);
    for i := 0 to a.Length
      invariant forall k :: 0 <= k < i ==> a[k] == White
    {
      a[i] := White;
    }
    buffer := a[..];
  }

  /** White is full brightness on every channel. */
  lemma WhiteIsFullBrightness()
    ensures White == ToHex(Vec3i(255, 255, 255))
    ensures HexRed(White) == 255 && HexGreen(White) == 255 && HexBlue(White) == 0xff
  {
    WhiteQuantisesToWhite();
    ToHexRoundTrip(Vec3i(255, 255, 255));
  }

  /** The colour of pixel `(x, y)`: red grows down the rows, green across the columns. */
  function GradientColor(width: nat, height: nat, x: nat, y: nat): Vec3f
    requires 0 < width && 0 < height
  {
    Vec3f(y as real / height as real, x as real / width as real, 0.0)
  }

  function GradientPixel(width: nat, height: nat, x: nat, y: nat): u32
    requires 0 < width && 0 < height
  {
    ToHex(NewFromF64(GradientColor(width, height, x, y)))
  }

  /** `gradient`: pixel `(x, y)` of the buffer is the gradient colour at `(x, y)`. */
  method Gradient(width: nat, height: nat) returns (buffer: seq<u32>)
    ensures |buffer| == width * height
    ensures forall x, y :: 0 <= x < width && 0 <= y < height ==>
              buffer[RowMajor(width, height, x, y)] == GradientPixel(width, height, x, y)
  {
    var a := new u32[width * height](_ => 0);
    for y := 0 to height
      invariant Filled(a[..], width, height, y * width)
    {
      for x := 0 to width
        invariant Filled(a[..], width, height, y * width + x)
      {
        var i := RowMajor(width, height, x, y);
        RowMajorSplit(width, height, x, y);
        ghost var before := a[..];
        a[i] := GradientPixel(width, height, x, y);
        assert a[..] == before[i := a[i]];
        FilledExtend(before, width, height, i, a[i]);
      }
      assert y * width + width == (y + 1) * width;
    }
    buffer := a[..];
    forall x, y | 0 <= x < width && 0 <= y < height
      ensures buffer[RowMajor(width, height, x, y)] == GradientPixel(width, height, x, y)
    {
      RowMajorSplit(width, height, x, y);
      assert PixelAt(buffer, width, height, RowMajor(width, height, x, y));
    }
  }

  /** The first `n` positions of `buffer` hold their gradient colours. */
  ghost predicate Filled(buffer: seq<u32>, width: nat, height: nat, n: nat) {
    n <= |buffer| && forall i :: 0 <= i < n ==> PixelAt(buffer, width, height, i)
  }

  lemma FilledExtend(buffer: seq<u32>, width: nat, height: nat, n: nat, v: u32)
    requires Filled(buffer, width, height, n) && n < |buffer| && 0 < width && 0 < height
    requires v == GradientPixel(width, height, n % width, n / width)
    ensures Filled(buffer[n := v], width, height, n + 1)
  {
    var updated := buffer[n := v];
    forall i | 0 <= i < n + 1
      ensures PixelAt(updated, width, height, i)
    {
      assert i < n ==> PixelAt(buffer, width, height, i);
    }
  }

  /** Position `i` of `buffer` holds the gradient colour of the pixel stored there. */
  ghost predicate PixelAt(buffer: seq<u32>, width: nat, height: nat, i: nat) {
    0 < width && 0 < height && i < |buffer| && buffer[i] == GradientPixel(width, height, i % width, i / width)
  }

  /** A gradient pixel is the red channel `y / height` and the green channel `x / width`, each
      truncated to an integer below 255, with blue zero. */
  lemma GradientChannels(width: nat, height: nat, x: nat, y: nat)
    requires x < width && y < height
    ensures HexRed(GradientPixel(width, height, x, y)) == SaturatingCast(y as real / height as real * 255.0) as int
    ensures HexGreen(GradientPixel(width, height, x, y)) == SaturatingCast(x as real / width as real * 255.0) as int
    ensures HexBlue(GradientPixel(width, height, x, y)) == 0
    ensures HexRed(GradientPixel(width, height, x, y)) <= 254 && HexGreen(GradientPixel(width, height, x, y)) <= 254
  {
    var v := NewFromF64(GradientColor(width, height, x, y));
    ChannelBelowFull(y, height);
    ChannelBelowFull(x, width);
    ToHexRoundTrip(v);
  }

  /** For `n < d`, the channel `n / d` scales to less than 255 and truncates to at most 254. */
  lemma ChannelBelowFull(n: nat, d: nat)
    requires n < d
    ensures 0.0 <= n as real / d as real < 1.0
    ensures SaturatingCast(n as real / d as real * 255.0) <= 254
  {
    var q := n as real / d as real;
    assert q * d as real == n as real;
  }

  /** Moving down a column never darkens the red channel and leaves green unchanged. */
  lemma GradientDownColumn(width: nat, height: nat, x: nat, y1: nat, y2: nat)
    requires x < width && y1 <= y2 < height
    ensures HexRed(GradientPixel(width, height, x, y1)) <= HexRed(GradientPixel(width, height, x, y2))
    ensures HexGreen(GradientPixel(width, height, x, y1)) == HexGreen(GradientPixel(width, height, x, y2))
  {
    GradientChannels(width, height, x, y1);
    GradientChannels(width, height, x, y2);
    DivMonotone(y1, y2, height);
    SaturatingCastMonotone(y1 as real / height as real * 255.0, y2 as real / height as real * 255.0);
  }

  /** Moving along a row never darkens the green channel and leaves red unchanged. */
  lemma GradientAlongRow(width: nat, height: nat, x1: nat, x2: nat, y: nat)
    requires x1 <= x2 < width && y < height
    ensures HexGreen(GradientPixel(width, height, x1, y)) <= HexGreen(GradientPixel(width, height, x2, y))
    ensures HexRed(GradientPixel(width, height, x1, y)) == HexRed(GradientPixel(width, height, x2, y))
  {
    GradientChannels(width, height, x1, y);
    GradientChannels(width, height, x2, y);
    DivMonotone(x1, x2, width);
    SaturatingCastMonotone(x1 as real / width as real * 255.0, x2 as real / width as real * 255.0);
  }

  lemma DivMonotone(n1: nat, n2: nat, d: nat)
    requires n1 <= n2 && 0 < d
    ensures n1 as real / d as real <= n2 as real / d as real
  {
    var q1, q2 := n1 as real / d as real, n2 as real / d as real;
    assert q1 * d as real == n1 as real && q2 * d as real == n2 as real;
  }

  /** The top-left pixel is black. */
  lemma GradientCornerBlack(width: nat, height: nat)
    requires 0 < width && 0 < height
    ensures GradientPixel(width, height, 0, 0) == 0
  {
    assert GradientColor(width, height, 0, 0) == Vec3f(0.0, 0.0, 0.0);
    ToHexPacksBytes(Vec3i(0, 0, 0));
  }
}
