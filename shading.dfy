/** Depth shading of the rasterizer: the linear interpolation of depth along a
    line, its normalisation into the frame's depth range and the mapping of the
    normalised depth onto the fixed 12-character ramp. */
module Shading {

  /** The character ramp, lightest first: index 0 is '.', index 11 is '@'. */
  const Ramp: seq<char> := ".,-~:;=*!#$@"

  /** The largest ramp index. */
  const MaxIndex: int := 11

  function Min(a: int, b: int): int { if a < b then a else b }
  function Max(a: int, b: int): int { if a < b then b else a }

  /** The C++ conversion of a floating value to int: truncation toward zero. */
  function Trunc(v: real): (r: int)
    ensures 0.0 <= v ==> 0 <= r && r as real <= v < r as real + 1.0
    ensures v < 0.0 ==> r <= 0 && r as real - 1.0 < v <= r as real
  {
    if v >= 0.0 then v.Floor else -((-v).Floor)
  }

  /** `std::max(lo, std::min(hi, n))`. */
  function Clamp(n: int, lo: int, hi: int): (r: int)
    requires lo <= hi
    ensures lo <= r <= hi
    ensures lo <= n <= hi ==> r == n
    ensures n < lo ==> r == lo
    ensures hi < n ==> r == hi
  {
    Max(lo, Min(hi, n))
  }

  /** Where `z` lies in the depth range: 0 at `minZ`, 1 at `maxZ`. */
  function Normalize(z: real, minZ: real, maxZ: real): real
    requires minZ != maxZ
  {
    (z - minZ) / (maxZ - minZ)
  }

  /** The ramp index of depth `z`: the normalised depth scaled to 0..11,
      rounded by adding one half and truncating, then clamped. */
  function ShadeIndex(z: real, minZ: real, maxZ: real): (r: int)
    requires minZ != maxZ
    ensures 0 <= r <= MaxIndex && r < |Ramp|
  {
    Clamp(Trunc(Normalize(z, minZ, maxZ) * 11.0 + 0.5), 0, MaxIndex)
  }

  /** The character drawn for depth `z`. */
  function ShadeChar(z: real, minZ: real, maxZ: real): (c: char)
    requires minZ != maxZ
    ensures c in Ramp
    ensures c == Ramp[ShadeIndex(z, minZ, maxZ)]
  {
    Ramp[ShadeIndex(z, minZ, maxZ)]
  }

  /** The interpolation fraction `t` after `step` of `total` steps; a line of
      zero steps stays at its start. */
  function Fraction(step: nat, total: nat): (t: real)
    requires step <= total
    ensures 0.0 <= t <= 1.0
    ensures step == 0 ==> t == 0.0
    ensures 0 < total && step == total ==> t == 1.0
  {
    if total == 0 then 0.0 else step as real / total as real
  }

  /** The depth at fraction `t` of the way from `z1` to `z2`. */
  function Depth(z1: real, z2: real, t: real): real
  {
    z1 + t * (z2 - z1)
  }

  /** The normalised depth is the offset from `minZ` in units of the range:
      0 at `minZ` and 1 at `maxZ`. */
  lemma NormalizeScales(z: real, minZ: real, maxZ: real)
    requires minZ != maxZ
    ensures Normalize(z, minZ, maxZ) * (maxZ - minZ) == z - minZ
    ensures Normalize(minZ, minZ, maxZ) == 0.0 && Normalize(maxZ, minZ, maxZ) == 1.0
  {
    var d := maxZ - minZ;
    assert d / d == 1.0;
  }

  /** The interpolation starts at `z1` and ends at `z2`. */
  lemma DepthAtEnds(z1: real, z2: real)
    ensures Depth(z1, z2, 0.0) == z1 && Depth(z1, z2, 1.0) == z2
  {
  }

  /** The cast truncates toward zero where the floor would round down, but
      once the result is clamped to 0..11 the two agree. */
  lemma ClampedTruncIsClampedFloor(v: real)
    ensures Clamp(Trunc(v), 0, MaxIndex) == Clamp(v.Floor, 0, MaxIndex)
  {
    if v < 0.0 {
      assert Trunc(v) <= 0;
      assert v.Floor < 0;
    }
  }

  /** Truncation toward zero never decreases as its argument grows. */
  lemma TruncMonotone(a: real, b: real)
    requires a <= b
    ensures Trunc(a) <= Trunc(b)
  {
    if 0.0 <= a {
      assert a.Floor <= b.Floor;
    } else if b < 0.0 {
      assert (-b).Floor <= (-a).Floor;
    }
  }

  /** A deeper point never gets a lighter character, provided the range is
      the right way round. */
  lemma ShadeIndexMonotone(z1: real, z2: real, minZ: real, maxZ: real)
    requires z1 <= z2 && minZ < maxZ
    ensures ShadeIndex(z1, minZ, maxZ) <= ShadeIndex(z2, minZ, maxZ)
  {
    var d := maxZ - minZ;
    assert Normalize(z2, minZ, maxZ) - Normalize(z1, minZ, maxZ) == (z2 - z1) / d;
    TruncMonotone(Normalize(z1, minZ, maxZ) * 11.0 + 0.5, Normalize(z2, minZ, maxZ) * 11.0 + 0.5);
  }

  /** The nearest end of the range gets the lightest character '.'. */
  lemma ShadeAtMinIsLightest(minZ: real, maxZ: real)
    requires minZ != maxZ
    ensures ShadeIndex(minZ, minZ, maxZ) == 0 && ShadeChar(minZ, minZ, maxZ) == '.'
  {
  }

  /** The far end of the range gets the densest character '@'. */
  lemma ShadeAtMaxIsDensest(minZ: real, maxZ: real)
    requires minZ != maxZ
    ensures ShadeIndex(maxZ, minZ, maxZ) == MaxIndex && ShadeChar(maxZ, minZ, maxZ) == '@'
  {
    var d := maxZ - minZ;
    assert d / d == 1.0;
    assert Normalize(maxZ, minZ, maxZ) == 1.0;
    assert Trunc(11.5) == 11;
  }

  /** Interpolated depth lies between the two endpoint depths. */
  lemma DepthBetweenEnds(z1: real, z2: real, t: real)
    requires 0.0 <= t <= 1.0
    ensures z1 <= z2 ==> z1 <= Depth(z1, z2, t) <= z2
    ensures z2 <= z1 ==> z2 <= Depth(z1, z2, t) <= z1
  {
    ScaleWithin(t, z2 - z1, t * (z2 - z1));
  }

  /** A fraction `s = t * d` of a difference `d` lies between 0 and `d`. */
  lemma ScaleWithin(t: real, d: real, s: real)
    requires 0.0 <= t <= 1.0 && s == t * d
    ensures 0.0 <= d ==> 0.0 <= s <= d
    ensures d <= 0.0 ==> d <= s <= 0.0
  {
    var u := 1.0 - t;
    Distribute(u, t, d);
    if 0.0 <= d {
      ProductNonNegative(t, d);
      ProductNonNegative(u, d);
    } else {
      ProductNonNegative(t, -d);
      ProductNonNegative(u, -d);
    }
  }

  lemma ProductNonNegative(a: real, b: real)
    requires 0.0 <= a && 0.0 <= b
    ensures 0.0 <= a * b
  {
  }

  lemma Distribute(u: real, t: real, d: real)
    requires u + t == 1.0
    ensures u * d + t * d == d && t * -d == -(t * d) && u * -d == -(u * d)
  {
  }

  /** Depth grows with the fraction when the line recedes. */
  lemma DepthMonotone(z1: real, z2: real, t1: real, t2: real)
    requires z1 <= z2 && t1 <= t2
    ensures Depth(z1, z2, t1) <= Depth(z1, z2, t2)
  {
    assert Depth(z1, z2, t2) - Depth(z1, z2, t1) == (t2 - t1) * (z2 - z1);
    ProductNonNegative(t2 - t1, z2 - z1);
  }

  /** The fraction grows with the step counter. */
  lemma FractionMonotone(s1: nat, s2: nat, total: nat)
    requires s1 <= s2 <= total
    ensures Fraction(s1, total) <= Fraction(s2, total)
  {
    if total > 0 {
      assert Fraction(s2, total) - Fraction(s1, total) == (s2 - s1) as real / total as real;
    }
  }
}
