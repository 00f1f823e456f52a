/** Floating-point and integer three-component vectors, and the colour
    quantisation that turns a floating-point colour into a packed 24-bit pixel.
    Every `f64` is a `real`; every `u32` is the range-restricted `u32` below. */
module Vec {

  newtype u32 = x: int | 0 <= x < 0x1_0000_0000

  const U32_MAX: int := 0xFFFF_FFFF
  const U32_MODULUS: int := 0x1_0000_0000

  /** A point, a direction or a colour; `r`, `g`, `b` name the same slots as `x`, `y`, `z`. */
  datatype Vec3f = Vec3f(x: real, y: real, z: real) {
    function R(): real { x }
    function G(): real { y }
    function B(): real { z }
  }

  const Zero: Vec3f := Vec3f(0.0, 0.0, 0.0)

  // Componentwise arithmetic assumed for the operators the vector type provides.
  function Add(u: Vec3f, v: Vec3f): Vec3f { Vec3f(u.x + v.x, u.y + v.y, u.z + v.z) }
  function Sub(u: Vec3f, v: Vec3f): Vec3f { Vec3f(u.x - v.x, u.y - v.y, u.z - v.z) }
  function Scale(v: Vec3f, s: real): Vec3f { Vec3f(v.x * s, v.y * s, v.z * s) }
  function Dot(u: Vec3f, v: Vec3f): real { u.x * v.x + u.y * v.y + u.z * v.z }

  /** The colour accessors read the same components as the coordinate accessors. */
  lemma ColorChannelsAreCoordinates(v: Vec3f)
    ensures v.R() == v.x && v.G() == v.y && v.B() == v.z
  {
  }

  /** `v . v` is zero or negative only for the zero vector. */
  lemma DotSelfZero(v: Vec3f)
    requires Dot(v, v) <= 0.0
    ensures v == Zero
  {
    var x, y, z := v.x, v.y, v.z;
    assert x * x + y * y + z * z <= 0.0;
    SumOfSquaresZero(x, y, z);
    assert v == Vec3f(x, y, z);
  }

  /** A sum of three squares that is not positive has every term zero. */
  lemma SumOfSquaresZero(x: real, y: real, z: real)
    requires x * x + y * y + z * z <= 0.0
    ensures x == 0.0 && y == 0.0 && z == 0.0
  {
    SquareNonneg(x);
    SquareNonneg(y);
    SquareNonneg(z);
    SquareZero(x);
    SquareZero(y);
    SquareZero(z);
  }

  lemma SquareNonneg(a: real)
    ensures a * a >= 0.0
  {
    if a < 0.0 {
      var b := -a;
      assert a * a == b * b;
    }
  }

  lemma SquareZero(a: real)
    requires a * a == 0.0
    ensures a == 0.0
  {
    ProductZero(a, a);
  }

  lemma ProductZero(p: real, q: real)
    requires p * q == 0.0
    ensures p == 0.0 || q == 0.0
  {
  }

  /** An integer colour triple; `Vec3i(x, y, z)` is `Vec3i::new`. */
  datatype Vec3i = Vec3i(x: u32, y: u32, z: u32)

  /** Rust's `as u32` on a float: truncation toward zero, saturating at both ends. */
  function SaturatingCast(c: real): (n: u32)
    ensures c <= 0.0 ==> n == 0
    ensures c >= U32_MAX as real ==> n as int == U32_MAX
    ensures 0.0 <= c < U32_MAX as real ==> n as real <= c < n as real + 1.0
  {
    if c <= 0.0 then 0
    else if c >= U32_MAX as real then U32_MAX as u32
    else c.Floor as u32
  }

  /** Truncation is monotone: a larger float never gives a smaller integer. */
  lemma SaturatingCastMonotone(c: real, d: real)
    requires c <= d
    ensures SaturatingCast(c) <= SaturatingCast(d)
  {
    var n, m := SaturatingCast(c), SaturatingCast(d);
    if 0.0 < c && d < U32_MAX as real {
      assert n as real <= c <= d < m as real + 1.0;
    }
  }

  /** A float colour scaled to [0, 255] per channel and cast. */
  function NewFromF64(o: Vec3f): (v: Vec3i)
    ensures o.R() <= 0.0 ==> v.x == 0
    ensures o.G() <= 0.0 ==> v.y == 0
    ensures o.B() <= 0.0 ==> v.z == 0
    ensures 0.0 <= o.R() <= 1.0 ==> v.x <= 255
    ensures 0.0 <= o.G() <= 1.0 ==> v.y <= 255
    ensures 0.0 <= o.B() <= 1.0 ==> v.z <= 255
  {
    Vec3i(SaturatingCast(o.R() * 255.0), SaturatingCast(o.G() * 255.0), SaturatingCast(o.B() * 255.0))
  }

  /** Each channel of the quantised colour depends only on, and grows with, the same float channel. */
  lemma NewFromF64Monotone(o1: Vec3f, o2: Vec3f)
    ensures o1.R() <= o2.R() ==> NewFromF64(o1).x <= NewFromF64(o2).x
    ensures o1.G() <= o2.G() ==> NewFromF64(o1).y <= NewFromF64(o2).y
    ensures o1.B() <= o2.B() ==> NewFromF64(o1).z <= NewFromF64(o2).z
  {
    if o1.R() <= o2.R() { SaturatingCastMonotone(o1.R() * 255.0, o2.R() * 255.0); }
    if o1.G() <= o2.G() { SaturatingCastMonotone(o1.G() * 255.0, o2.G() * 255.0); }
    if o1.B() <= o2.B() { SaturatingCastMonotone(o1.B() * 255.0, o2.B() * 255.0); }
  }

  function Pow2(k: nat): nat {
    if k == 0 then 1 else 2 * Pow2(k - 1)
  }

  /** `x << k` on a u32: the bits shifted past bit 31 are lost. */
  function Shl(x: u32, k: nat): u32
    requires k < 32
  {
    ((x as int * Pow2(k)) % U32_MODULUS) as u32
  }

  /** `a + b` on u32 as a release build computes it (wrap-around). */
  function WrappingAdd(a: u32, b: u32): u32 {
    ((a as int + b as int) % U32_MODULUS) as u32
  }

  /** The packed pixel `(r << 16) + (g << 8) + b`. */
  function ToHex(v: Vec3i): (h: u32)
    ensures h as int == (v.x as int * 65536 + v.y as int * 256 + v.z as int) % U32_MODULUS
  {
    PackWraps(v.x as int, v.y as int, v.z as int);
    WrappingAdd(WrappingAdd(Shl(v.x, 16), Shl(v.y, 8)), v.z)
  }

  /** Reducing each shifted term and each partial sum modulo 2^32 reduces the whole sum once. */
  lemma PackWraps(x: int, y: int, z: int)
    ensures Pow2(8) == 256 && Pow2(16) == 65536
    ensures (((x * 65536) % U32_MODULUS + (y * 256) % U32_MODULUS) % U32_MODULUS + z) % U32_MODULUS
         == (x * 65536 + y * 256 + z) % U32_MODULUS
  {
    assert Pow2(8) == 256;
    assert Pow2(16) == 65536;
    var m := U32_MODULUS;
    ModSum(x * 65536, y * 256, m);
    ModSum(x * 65536 + y * 256, z, m);
    var s := (x * 65536) % m + (y * 256) % m;
    ModSum(s, z, m);
  }

  /** `h >> 16`, `(h >> 8) & 0xff` and `h & 0xff`: the three bytes a packed pixel is read back as. */
  function HexRed(h: u32): int { h as int / 65536 }
  function HexGreen(h: u32): int { (h as int / 256) % 256 }
  function HexBlue(h: u32): int { h as int % 256 }

  lemma ModSum(a: int, b: int, m: int)
    requires m > 0
    ensures (a % m + b % m) % m == (a + b) % m
    ensures (a % m + b) % m == (a + b) % m
  {
    var qa, qb := a / m, b / m;
    assert a == qa * m + a % m;
    assert b == qb * m + b % m;
    DivModUnique(a + b, m, qa + qb + (a % m + b % m) / m, (a % m + b % m) % m);
    DivModUnique(a + b, m, qa + (a % m + b) / m, (a % m + b) % m);
  }

  lemma DivModUnique(n: int, d: int, q: int, r: int)
    requires d > 0 && 0 <= r < d && n == q * d + r
    ensures n / d == q && n % d == r
  {
    var q', r' := n / d, n % d;
    assert n == q' * d + r';
    assert (q - q') * d == r' - r by {
      assert q * d - q' * d == (q - q') * d;
    }
    if q > q' {
      MulAtLeast(q - q', d);
    } else if q < q' {
      MulAtLeast(q' - q, d);
    }
  }

  lemma MulAtLeast(k: int, d: int)
    requires k >= 1 && d > 0
    ensures k * d >= d
  {
    assert k * d - d == (k - 1) * d;
    assert (k - 1) * d >= 0;
  }

  /** With 8-bit channels nothing wraps: the packed value is `r * 65536 + g * 256 + b`, below 2^24. */
  lemma ToHexPacksBytes(v: Vec3i)
    requires v.x <= 255 && v.y <= 255 && v.z <= 255
    ensures ToHex(v) as int == v.x as int * 65536 + v.y as int * 256 + v.z as int
    ensures ToHex(v) < 0x100_0000
  {
    var n := v.x as int * 65536 + v.y as int * 256 + v.z as int;
    DivModUnique(n, U32_MODULUS, 0, n);
  }

  /** Unpacking a packed pixel with 8-bit channels gives the channels back. */
  lemma ToHexRoundTrip(v: Vec3i)
    requires v.x <= 255 && v.y <= 255 && v.z <= 255
    ensures HexRed(ToHex(v)) == v.x as int
    ensures HexGreen(ToHex(v)) == v.y as int
    ensures HexBlue(ToHex(v)) == v.z as int
  {
    ToHexPacksBytes(v);
    var r, g, b := v.x as int, v.y as int, v.z as int;
    var h := r * 65536 + g * 256 + b;
    DivModUnique(h, 65536, r, g * 256 + b);
    DivModUnique(h, 256, r * 256 + g, b);
    DivModUnique(r * 256 + g, 256, r, g);
  }

  /** Full brightness on every channel quantises to 255 and packs to white, 0xff_ffff. */
  lemma WhiteQuantisesToWhite()
    ensures NewFromF64(Vec3f(1.0, 1.0, 1.0)) == Vec3i(255, 255, 255)
    ensures ToHex(NewFromF64(Vec3f(1.0, 1.0, 1.0))) == 0xff_ffff
  {
    var c := SaturatingCast(255.0);
    assert c == 255;
    ToHexPacksBytes(Vec3i(255, 255, 255));
  }
}
