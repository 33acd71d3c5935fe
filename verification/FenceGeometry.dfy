/** Point-in-polygon over fixed-point micro-degrees: ring validation and the
    integer even-odd ray cast, compared with the exact rational rule. */
module FenceGeometry {

  type int32 = x: int | -0x8000_0000 <= x <= 0x7FFF_FFFF

  datatype Point = Point(lat: int32, lon: int32)

  // ---- Ring validation ----

  datatype RingCheck =
    | RingOk
    | TooFewVertices
    | LatitudeOutOfRange(index: nat)
    | LongitudeOutOfRange(index: nat)
    | NotClosed

  predicate LatOk(v: Point) { -90_000_000 <= v.lat <= 90_000_000 }
  predicate LonOk(v: Point) { -180_000_000 <= v.lon <= 180_000_000 }

  ghost predicate ValidRing(ring: seq<Point>) {
    && |ring| >= 4
    && (forall i :: 0 <= i < |ring| ==> LatOk(ring[i]) && LonOk(ring[i]))
    && ring[0] == ring[|ring| - 1]
  }

  method ValidateGeometry(ring: seq<Point>) returns (r: RingCheck)
    ensures r == RingOk <==> ValidRing(ring)
    ensures r == TooFewVertices <==> |ring| < 4
    ensures r.LatitudeOutOfRange? || r.LongitudeOutOfRange? ==>
              && r.index < |ring|
              && (r.LatitudeOutOfRange? <==> !LatOk(ring[r.index]))
              && (r.LongitudeOutOfRange? ==> !LonOk(ring[r.index]))
              && forall i :: 0 <= i < r.index ==> LatOk(ring[i]) && LonOk(ring[i])
    ensures r == NotClosed ==> |ring| >= 4 && ring[0] != ring[|ring| - 1]
  {
    if |ring| < 4 {
      return TooFewVertices;
    }
    for i := 0 to |ring|
      invariant forall k :: 0 <= k < i ==> LatOk(ring[k]) && LonOk(ring[k])
    {
      if !LatOk(ring[i]) {
        return LatitudeOutOfRange(i);
      }
      if !LonOk(ring[i]) {
        return LongitudeOutOfRange(i);
      }
    }
    if ring[0] != ring[|ring| - 1] {
      return NotClosed;
    }
    return RingOk;
  }

  // ---- Machine arithmetic ----

  /** Two's-complement wrap-around of an int32 / int64 result. */
  function Wrap32(x: int): int { (x + 0x8000_0000) % 0x1_0000_0000 - 0x8000_0000 }
  function Wrap64(x: int): int {
    (x + 0x8000_0000_0000_0000) % 0x1_0000_0000_0000_0000 - 0x8000_0000_0000_0000
  }

  /** Go's `/`: truncation toward zero. */
  function Quo(n: int, d: int): int
    requires d != 0
  {
    if n >= 0 then n / d else -((-n) / d)
  }

  function Min(a: int, b: int): int { if a < b then a else b }
  function Max(a: int, b: int): int { if a > b then a else b }

  predicate InBox(a: Point, b: Point, p: Point) {
    && Min(a.lon, b.lon) <= p.lon <= Max(a.lon, b.lon)
    && Min(a.lat, b.lat) <= p.lat <= Max(a.lat, b.lat)
  }

  /** `onSegment` as the machine computes it: int32 differences, int64 products. */
  predicate OnSegmentMachine(a: Point, b: Point, p: Point) {
    var cross := Wrap64(Wrap64(Wrap32(b.lon - a.lon) * Wrap32(p.lat - a.lat)) -
                        Wrap64(Wrap32(b.lat - a.lat) * Wrap32(p.lon - a.lon)));
    cross == 0 && InBox(a, b, p)
  }

  predicate Straddles(vi: Point, vj: Point, p: Point) {
    (vi.lat > p.lat) != (vj.lat > p.lat)
  }

  /** The numerator of the crossing, as the machine computes it. */
  function RunMachine(vi: Point, vj: Point, p: Point): int {
    Wrap64(Wrap32(p.lat - vi.lat) * Wrap32(vj.lon - vi.lon))
  }

  function Run(vi: Point, vj: Point, p: Point): int { (p.lat - vi.lat) * (vj.lon - vi.lon) }

  /** Does the edge toggle `inside`, as the machine computes it? */
  predicate TogglesMachine(vi: Point, vj: Point, p: Point) {
    Straddles(vi, vj, p) &&
    var num := RunMachine(vi, vj, p);
    var den := Wrap32(vj.lat - vi.lat);
    den != 0 &&
    var x := if den > 0 then Wrap64(vi.lon + Wrap64(Quo(Wrap64(num + Quo(den, 2)), den)))
             else Wrap64(vi.lon + Wrap64(Quo(Wrap64(num - Quo(den, 2)), den)));
    p.lon < x
  }

  /** The vertex before `ring[i]` in the cyclic walk of the loop. */
  function Prev(ring: seq<Point>, i: nat): Point
    requires i < |ring|
  {
    if i == 0 then ring[|ring| - 1] else ring[i - 1]
  }

  /** The toggles of the first n edges, starting from `false`. */
  predicate ParityMachine(ring: seq<Point>, p: Point, n: nat)
    requires n <= |ring|
  {
    n > 0 && (ParityMachine(ring, p, n - 1) != TogglesMachine(ring[n - 1], Prev(ring, n - 1), p))
  }

  predicate BoundaryMachine(ring: seq<Point>, p: Point) {
    exists i :: 0 <= i < |ring| && OnSegmentMachine(Prev(ring, i), ring[i], p)
  }

  /** The value `Contains` returns. */
  predicate Inside(ring: seq<Point>, p: Point) {
    |ring| >= 4 && (BoundaryMachine(ring, p) || ParityMachine(ring, p, |ring|))
  }

  method Contains(ring: seq<Point>, p: Point) returns (r: bool)
    ensures r == Inside(ring, p)
  {
    hide OnSegmentMachine, TogglesMachine;
    var n := |ring|;
    if n < 4 {
      return false;
    }
    var inside := false;
    var i, j := 0, n - 1;
    while i < n
      invariant 0 <= i <= n && j == (if i == 0 then n - 1 else i - 1)
      invariant forall k :: 0 <= k < i ==> !OnSegmentMachine(Prev(ring, k), ring[k], p)
      invariant inside == ParityMachine(ring, p, i)
    {
      var vi, vj := ring[i], ring[j];
      if OnSegmentMachine(vj, vi, p) {
        return true;
      }
      if TogglesMachine(vi, vj, p) {
        inside := !inside;
      }
      j, i := i, i + 1;
    }
    return inside;
  }

  // ---- The same decisions over unbounded integers ----

  predicate OnSegment(a: Point, b: Point, p: Point) {
    (b.lon - a.lon) * (p.lat - a.lat) == (b.lat - a.lat) * (p.lon - a.lon) && InBox(a, b, p)
  }

  /** The rounded crossing longitude of a straddling edge. */
  function RoundedCrossing(vi: Point, vj: Point, p: Point): int
    requires Straddles(vi, vj, p)
  {
    var num := Run(vi, vj, p);
    var den := vj.lat - vi.lat;
    if den > 0 then vi.lon + Quo(num + den / 2, den) else vi.lon + Quo(num + (-den) / 2, den)
  }

  predicate Toggles(vi: Point, vj: Point, p: Point) {
    Straddles(vi, vj, p) && p.lon < RoundedCrossing(vi, vj, p)
  }

  lemma MulMonotone(u: int, m: int, v: int)
    requires u <= m && 0 <= v
    ensures u * v <= m * v
  {
    assert (m - u) * v >= 0;
  }

  lemma MulBound(a: int, b: int, m: int, n: int)
    requires -m <= a <= m && -n <= b <= n
    ensures -(m * n) <= a * b <= m * n
  {
    var v := if b < 0 then -b else b;
    MulMonotone(a, m, v);
    MulMonotone(-m, a, v);
    MulMonotone(v, n, m);
  }

  /** Truncated division: the remainder takes the sign of the dividend. */
  lemma QuoRem(n: int, d: int) returns (r: int)
    requires d != 0
    ensures n == d * Quo(n, d) + r
    ensures n >= 0 ==> 0 <= r < Max(d, -d)
    ensures n < 0 ==> Min(d, -d) < r <= 0
  {
    if n >= 0 {
      r := n % d;
    } else {
      r := -((-n) % d);
      assert -n == d * ((-n) / d) + (-n) % d;
      assert d * (-((-n) / d)) == -(d * ((-n) / d));
    }
  }

  lemma QuoBound(n: int, d: int)
    requires d != 0
    ensures Min(n, -n) <= Quo(n, d) <= Max(n, -n)
  {
    if n >= 0 { DivBound(n, d); } else { DivBound(-n, d); }
  }

  lemma DivBound(n: int, d: int)
    requires d != 0 && n >= 0
    ensures -n <= n / d <= n
  {
    var q, r := n / d, n % d;
    assert n == d * q + r;
    if d > 0 {
      QuotientBound(n, d, q, r);
    } else {
      assert (-d) * (-q) == d * q;
      QuotientBound(n, -d, -q, r);
    }
  }

  lemma QuotientBound(n: nat, d: int, q: int, r: int)
    requires d > 0 && n == d * q + r && 0 <= r < d
    ensures 0 <= q <= n
  {
    CancelLess(d, -1, q);
    MulMonotone(1, d, q);
  }

  lemma Wrap32Identity(x: int)
    requires -0x8000_0000 <= x < 0x8000_0000
    ensures Wrap32(x) == x
  {}

  lemma Wrap64Identity(x: int)
    requires -0x8000_0000_0000_0000 <= x < 0x8000_0000_0000_0000
    ensures Wrap64(x) == x
  {}

  lemma HalfIsTruncated(d: int)
    ensures Quo(d, 2) == if d > 0 then d / 2 else -((-d) / 2)
  {}

  /** No int32 or int64 wrap-around affects the boundary test: where a
      difference can wrap, the box test already decides. */
  lemma BoundaryHasNoOverflow(a: Point, b: Point, p: Point)
    requires LatOk(a) && LonOk(a) && LatOk(b) && LonOk(b)
    ensures OnSegmentMachine(a, b, p) == OnSegment(a, b, p)
  {
    hide Wrap32, Wrap64;
    if InBox(a, b, p) {
      var s, t := (b.lon - a.lon) * (p.lat - a.lat), (b.lat - a.lat) * (p.lon - a.lon);
      MulBound(b.lon - a.lon, p.lat - a.lat, 360_000_000, 180_000_000);
      MulBound(b.lat - a.lat, p.lon - a.lon, 180_000_000, 360_000_000);
      Wrap32Identity(b.lon - a.lon);
      Wrap32Identity(b.lat - a.lat);
      Wrap32Identity(p.lon - a.lon);
      Wrap32Identity(p.lat - a.lat);
      Wrap64Identity(s);
      Wrap64Identity(t);
      Wrap64Identity(s - t);
    }
  }

  lemma RunFits(vi: Point, vj: Point, p: Point)
    requires LatOk(vi) && LonOk(vi) && LatOk(vj) && LonOk(vj) && Straddles(vi, vj, p)
    ensures RunMachine(vi, vj, p) == Run(vi, vj, p)
    ensures -64_800_000_000_000_000 <= Run(vi, vj, p) <= 64_800_000_000_000_000
  {
    hide Wrap32, Wrap64;
    var u, v := p.lat - vi.lat, vj.lon - vi.lon;
    MulBound(u, v, 180_000_000, 360_000_000);
    Wrap32Identity(u);
    Wrap32Identity(v);
    Wrap64Identity(u * v);
  }

  lemma QuotientFits(x: int32, m: int, den: int)
    requires den != 0 && -64_900_000_000_000_000 <= m <= 64_900_000_000_000_000
    ensures Wrap64(x + Wrap64(Quo(Wrap64(m), den))) == x + Quo(m, den)
  {
    hide Wrap64, Quo;
    QuoBound(m, den);
    Wrap64Identity(m);
    Wrap64Identity(Quo(m, den));
    Wrap64Identity(x + Quo(m, den));
  }

  /** Nor does it affect the ray test: a straddled edge bounds p's latitude. */
  lemma ToggleHasNoOverflow(vi: Point, vj: Point, p: Point)
    requires LatOk(vi) && LonOk(vi) && LatOk(vj) && LonOk(vj)
    ensures TogglesMachine(vi, vj, p) == Toggles(vi, vj, p)
  {
    hide Wrap32, Wrap64, Quo, Run, RunMachine;
    if Straddles(vi, vj, p) {
      var num, den := Run(vi, vj, p), vj.lat - vi.lat;
      RunFits(vi, vj, p);
      Wrap32Identity(den);
      HalfIsTruncated(den);
      QuotientFits(vi.lon, num + (if den > 0 then den / 2 else (-den) / 2), den);
    }
  }

  // ---- The exact rational rule ----

  /** p is the point of the segment a-b at parameter t. */
  ghost predicate AtParameter(a: Point, b: Point, p: Point, t: real) {
    && 0.0 <= t <= 1.0
    && p.lat as real == a.lat as real + t * (b.lat - a.lat) as real
    && p.lon as real == a.lon as real + t * (b.lon - a.lon) as real
  }

  ghost predicate OnExactBoundary(ring: seq<Point>, p: Point) {
    exists i, t :: 0 <= i < |ring| && AtParameter(Prev(ring, i), ring[i], p, t)
  }

  /** The longitude at which the edge's line crosses p's latitude. */
  ghost function ExactCrossing(vi: Point, vj: Point, p: Point): real
    requires Straddles(vi, vj, p)
  {
    vi.lon as real + ((p.lat - vi.lat) * (vj.lon - vi.lon)) as real / (vj.lat - vi.lat) as real
  }

  /** The edge crosses the ray that leaves p towards greater longitudes. */
  ghost predicate CrossesExactly(vi: Point, vj: Point, p: Point) {
    Straddles(vi, vj, p) && p.lon as real < ExactCrossing(vi, vj, p)
  }

  ghost function ExactCrossings(ring: seq<Point>, p: Point, n: nat): nat
    requires n <= |ring|
  {
    if n == 0 then 0
    else ExactCrossings(ring, p, n - 1) + if CrossesExactly(ring[n - 1], Prev(ring, n - 1), p) then 1 else 0
  }

  /** Even-odd rule with the boundary counted as inside. */
  ghost predicate EvenOdd(ring: seq<Point>, p: Point) {
    OnExactBoundary(ring, p) || ExactCrossings(ring, p, |ring|) % 2 == 1
  }

  function Abs(x: int): nat { if x < 0 then -x else x }

  /** The half step that rounding adds, as a fraction: 1/2, or less for odd heights. */
  ghost function HalfStep(height: nat): real
    requires height > 0
  {
    (height / 2) as real / height as real
  }

  /** The exact crossings for which the rounded ray test answers wrongly. The
      window differs between ascending and descending edges, and between the
      two sides of the edge's own end point. */
  ghost predicate Misjudged(vi: Point, vj: Point, p: Point) {
    Straddles(vi, vj, p) &&
    var x, q := ExactCrossing(vi, vj, p), p.lon as real;
    var g := HalfStep(Abs(vj.lat - vi.lat));
    if vj.lat > vi.lat then
      if p.lon >= vi.lon then q < x < q + 1.0 - g else q - g < x <= q
    else
      if p.lon >= vi.lon then q < x < q + 1.0 + g else q < x <= q + g
  }

  ghost function MisjudgedEdges(ring: seq<Point>, p: Point, n: nat): nat
    requires n <= |ring|
  {
    if n == 0 then 0
    else MisjudgedEdges(ring, p, n - 1) + if Misjudged(ring[n - 1], Prev(ring, n - 1), p) then 1 else 0
  }

  // ---- Boundary points ----

  lemma RealScale(a: real, b: real, d: real)
    requires d > 0.0
    ensures a < b <==> a * d < b * d
    ensures a <= b <==> a * d <= b * d
  {
    if a < b { assert (b - a) * d > 0.0; }
    if b < a { assert (a - b) * d > 0.0; }
  }

  /** The integer segment test decides exact membership of the segment. */
  lemma SegmentTestIsExact(a: Point, b: Point, p: Point)
    ensures OnSegment(a, b, p) <==> exists t :: AtParameter(a, b, p, t)
  {
    if OnSegment(a, b, p) {
      var t := SegmentParameter(a, b, p);
    }
    forall t | AtParameter(a, b, p, t)
      ensures OnSegment(a, b, p)
    {
      ParameterIsOnSegment(a, b, p, t);
    }
  }

  lemma SegmentParameter(a: Point, b: Point, p: Point) returns (t: real)
    requires OnSegment(a, b, p)
    ensures AtParameter(a, b, p, t)
  {
    t := OffsetParameter(b.lat - a.lat, p.lat - a.lat, b.lon - a.lon, p.lon - a.lon);
    hide AtParameter, OnSegment;
    FromOffsets(a, b, p, t);
  }

  lemma OffsetParameter(d: int, u: int, e: int, v: int) returns (t: real)
    requires e * u == d * v
    requires if d > 0 then 0 <= u <= d else d <= u <= 0
    requires if e > 0 then 0 <= v <= e else e <= v <= 0
    ensures 0.0 <= t <= 1.0 && u as real == t * d as real && v as real == t * e as real
  {
    if d != 0 {
      t := ParameterOf(d, u, e, v);
    } else if e != 0 {
      t := ParameterOf(e, v, 0, 0);
    } else {
      t := 0.0;
    }
  }

  lemma FromOffsets(a: Point, b: Point, p: Point, t: real)
    requires 0.0 <= t <= 1.0
    requires (p.lat - a.lat) as real == t * (b.lat - a.lat) as real
    requires (p.lon - a.lon) as real == t * (b.lon - a.lon) as real
    ensures AtParameter(a, b, p, t)
  {}

  lemma ParameterOf(d: int, u: int, e: int, v: int) returns (t: real)
    requires d != 0 && e * u == d * v
    requires if d > 0 then 0 <= u <= d else d <= u <= 0
    ensures 0.0 <= t <= 1.0 && u as real == t * d as real && v as real == t * e as real
  {
    t := u as real / d as real;
    assert t * d as real == u as real;
    assert (e * u) as real == e as real * u as real;
    assert (d * v) as real == d as real * v as real;
    assert d as real * (t * e as real - v as real) == 0.0;
    if d > 0 {
      RealScale(0.0, t, d as real);
      RealScale(t, 1.0, d as real);
    } else {
      RealScale(0.0, t, -d as real);
      RealScale(t, 1.0, -d as real);
    }
  }

  lemma NonNegativeProduct(a: real, b: real)
    requires a >= 0.0 && b >= 0.0
    ensures a * b >= 0.0
  {}

  lemma Interpolates(lo: int, d: int, t: real, x: int)
    requires 0.0 <= t <= 1.0 && x as real == lo as real + t * d as real
    ensures Min(lo, lo + d) <= x <= Max(lo, lo + d)
  {
    if d >= 0 {
      NonNegativeProduct(t, d as real);
      NonNegativeProduct(1.0 - t, d as real);
    } else {
      NonNegativeProduct(t, (-d) as real);
      NonNegativeProduct(1.0 - t, (-d) as real);
    }
  }

  lemma ParameterIsOnSegment(a: Point, b: Point, p: Point, t: real)
    requires AtParameter(a, b, p, t)
    ensures OnSegment(a, b, p)
  {
    var d, e, u, v := b.lat - a.lat, b.lon - a.lon, p.lat - a.lat, p.lon - a.lon;
    assert u as real == t * d as real && v as real == t * e as real;
    assert (e * u) as real == e as real * (t * d as real);
    assert (d * v) as real == d as real * (t * e as real);
    Interpolates(a.lat, d, t, p.lat);
    Interpolates(a.lon, e, t, p.lon);
  }

  // ---- Rounding ----

  /** A straddled edge seen from its end point vi: `height` latitudes tall, p at
      `rise` of them, the longitude changing by `width` over the whole height
      (mirrored for a descending edge). */
  function Height(vi: Point, vj: Point): nat { Abs(vj.lat - vi.lat) }
  function Rise(vi: Point, p: Point): nat { Abs(p.lat - vi.lat) }
  function Width(vi: Point, vj: Point): int {
    if vj.lat > vi.lat then vj.lon - vi.lon else vi.lon - vj.lon
  }
  function Steps(height: int, rise: int, width: int): int
    requires height > 0
  {
    Quo(rise * width + height / 2, height)
  }

  lemma RiseTimesWidth(vi: Point, vj: Point, p: Point)
    requires Straddles(vi, vj, p)
    ensures (p.lat - vi.lat) * (vj.lon - vi.lon) == Rise(vi, p) * Width(vi, vj)
  {
    var a, b := p.lat - vi.lat, vj.lon - vi.lon;
    assert a * b == (-a) * (-b);
  }

  lemma RoundedFromSteps(vi: Point, vj: Point, p: Point)
    requires Straddles(vi, vj, p)
    ensures 0 < Height(vi, vj) && Rise(vi, p) <= Height(vi, vj)
    ensures var q := Steps(Height(vi, vj), Rise(vi, p), Width(vi, vj));
            RoundedCrossing(vi, vj, p) == if vj.lat > vi.lat then vi.lon + q else vi.lon - q
  {
    hide Quo;
    var num, den := (p.lat - vi.lat) * (vj.lon - vi.lon), vj.lat - vi.lat;
    RiseTimesWidth(vi, vj, p);
    if den < 0 {
      QuoNegated(num + (-den) / 2, -den);
    }
  }

  lemma QuoNegated(n: int, d: int)
    requires d > 0
    ensures Quo(n, -d) == -Quo(n, d)
  {
    var u := if n >= 0 then n else -n;
    var a, b := u / d, u / -d;
    assert u == d * a + u % d && u == -d * b + u % -d;
    assert d * (a + b) == u % -d - u % d;
    CancelLess(d, a + b, 1);
    CancelLess(d, -1, a + b);
  }

  /** Multiplying the exact offset by the height gives the integer rise * width. */
  lemma ExactFromSteps(vi: Point, vj: Point, p: Point)
    requires Straddles(vi, vj, p)
    ensures var y := if vj.lat > vi.lat then ExactCrossing(vi, vj, p) - vi.lon as real
                     else vi.lon as real - ExactCrossing(vi, vj, p);
            y * Height(vi, vj) as real == (Rise(vi, p) * Width(vi, vj)) as real
  {
    var num, den := (p.lat - vi.lat) * (vj.lon - vi.lon), vj.lat - vi.lat;
    var z := num as real / den as real;
    assert z * den as real == num as real;
    if den < 0 {
      assert num == Rise(vi, p) * Width(vi, vj);
      assert Height(vi, vj) as real == -(den as real);
    } else {
      assert num == Rise(vi, p) * Width(vi, vj);
    }
  }

  /** Quotient and remainder of a rounded step count. */
  lemma StepsRem(height: int, rise: int, width: int) returns (r: int)
    requires height > 0
    ensures var m := rise * width + height / 2;
            && m == height * Steps(height, rise, width) + r
            && (if m >= 0 then 0 <= r < height else -height < r <= 0)
  {
    r := QuoRem(rise * width + height / 2, height);
  }

  lemma CancelLess(d: int, a: int, b: int)
    requires d > 0
    ensures d * a < d * b <==> a < b
  {
    if a < b { assert d * (b - a) > 0; }
    if b < a { assert d * (a - b) > 0; }
  }

  lemma QuotientBetween(height: int, n: int, width: int, q: int, r: int)
    requires height > 0 && n + height / 2 == height * q + r
    requires if n + height / 2 >= 0 then 0 <= r < height else -height < r <= 0
    requires if width >= 0 then 0 <= n <= height * width else height * width <= n <= 0
    ensures Min(0, width) <= q <= Max(0, width)
  {
    if width >= 0 {
      assert height * (width + 1) == height * width + height;
      CancelLess(height, q, width + 1);
      CancelLess(height, -1, q);
    } else {
      assert height * (width - 1) == height * width - height;
      CancelLess(height, width - 1, q);
      CancelLess(height, q, 1);
    }
  }

  lemma StepsStayBetween(height: int, rise: int, width: int)
    requires 0 < height && 0 <= rise <= height
    ensures Min(0, width) <= Steps(height, rise, width) <= Max(0, width)
  {
    hide Quo, Steps;
    var r := StepsRem(height, rise, width);
    var w := Max(width, -width);
    MulMonotone(rise, height, w);
    MulMonotone(0, rise, w);
    QuotientBetween(height, rise * width, width, Steps(height, rise, width), r);
  }

  /** When does the rounded count exceed k? The sign of k decides, because
      truncation rounds towards zero. */
  lemma StepsThreshold(height: int, rise: int, width: int, k: int)
    requires 0 < height
    ensures var m := rise * width + height / 2;
            Steps(height, rise, width) > k <==>
            if k >= 0 then m >= height * (k + 1) else m > height * k
  {
    hide Quo, Steps;
    var q, m := Steps(height, rise, width), rise * width + height / 2;
    var r := StepsRem(height, rise, width);
    if q > k { MulMonotone(k + 1, q, height); } else { MulMonotone(q, k, height); }
    if m < 0 {
      CancelLess(height, q, 1);
    } else if k < 0 {
      CancelLess(height, -1, q);
      MulMonotone(k, -1, height);
    }
    if k >= 0 { MulMonotone(1, k + 1, height); }
  }

  /** Comparing a scaled offset with c - g, c or c + g. */
  lemma ScaledCompare(y: real, g: real, height: int, n: int, h: int, c: int, e: int)
    requires height > 0 && y * height as real == n as real && g * height as real == h as real
    requires -1 <= e <= 1
    ensures y < c as real + e as real * g <==> n < height * c + e * h
    ensures y <= c as real + e as real * g <==> n <= height * c + e * h
  {
    var b, d, m := c as real + e as real * g, height as real, height * c + e * h;
    assert b * d == m as real by {
      Expand(c as real, e as real, g, d);
      ProductAsReal(height, c);
      ProductAsReal(e, h);
    }
    RealScale(y, b, d);
  }

  lemma Expand(c: real, e: real, g: real, d: real)
    ensures (c + e * g) * d == d * c + e * (g * d)
  {}

  lemma ProductAsReal(a: int, b: int)
    ensures (a * b) as real == a as real * b as real
  {}

  lemma HalfStepScaled(height: nat)
    requires height > 0
    ensures HalfStep(height) * height as real == (height / 2) as real
    ensures 0.0 <= HalfStep(height) <= 0.5
  {
    var g, d, half := HalfStep(height), height as real, (height / 2) as real;
    QuotientTimes(half, d);
    assert 2.0 * half <= d by { assert 2 * (height / 2) <= height; }
    RealScale(0.0, g, d);
    RealScale(g, 0.5, d);
  }

  lemma QuotientTimes(x: real, d: real)
    requires d > 0.0
    ensures x / d * d == x
  {}

  /** The window in which counting steps past k disagrees with the exact offset. */
  lemma StepWindow(y: real, g: real, height: int, n: int, k: int, counted: bool)
    requires height > 0 && y * height as real == n as real
    requires g * height as real == (height / 2) as real
    requires counted <==> if k >= 0 then n + height / 2 >= height * (k + 1) else n + height / 2 > height * k
    ensures counted != (y > k as real) <==>
            if k >= 0 then k as real < y < (k + 1) as real - g else k as real - g < y <= k as real
    ensures counted != (y >= (k + 1) as real) <==>
            if k >= 0 then (k + 1) as real - g <= y < (k + 1) as real
            else k as real - g < y < (k + 1) as real
  {
    var h := height / 2;
    ScaledCompare(y, g, height, n, h, k, 0);
    ScaledCompare(y, g, height, n, h, k, -1);
    ScaledCompare(y, g, height, n, h, k + 1, 0);
    ScaledCompare(y, g, height, n, h, k + 1, -1);
  }

  /** Where counting steps past k disagrees with the exact offset y, for an edge whose
      crossing lies y and, rounded, q steps from its end. */
  lemma EdgeWindow(vi: Point, vj: Point, p: Point, y: real, k: int)
    requires Straddles(vi, vj, p)
    requires y == if vj.lat > vi.lat then ExactCrossing(vi, vj, p) - vi.lon as real
                  else vi.lon as real - ExactCrossing(vi, vj, p)
    ensures var height := Height(vi, vj);
            var g, counted := HalfStep(height), Steps(height, Rise(vi, p), Width(vi, vj)) > k;
            && (counted != (y > k as real) <==>
                  if k >= 0 then k as real < y < (k + 1) as real - g else k as real - g < y <= k as real)
            && (counted != (y >= (k + 1) as real) <==>
                  if k >= 0 then (k + 1) as real - g <= y < (k + 1) as real else k as real - g < y < (k + 1) as real)
  {
    hide Quo, Steps, HalfStep, ExactCrossing, Rise, Width;
    ExactFromSteps(vi, vj, p);
    var height := Height(vi, vj);
    HalfStepScaled(height);
    StepsThreshold(height, Rise(vi, p), Width(vi, vj), k);
    StepWindow(y, HalfStep(height), height, Rise(vi, p) * Width(vi, vj), k, Steps(height, Rise(vi, p), Width(vi, vj)) > k);
  }

  /** The rounded ray test differs from the exact one exactly on the windows of
      `Misjudged`. */
  lemma ToggleErrsExactlyWhenMisjudged(vi: Point, vj: Point, p: Point)
    ensures Toggles(vi, vj, p) != CrossesExactly(vi, vj, p) <==> Misjudged(vi, vj, p)
  {
    if Straddles(vi, vj, p) {
      if vj.lat > vi.lat { AscendingErrs(vi, vj, p); } else { DescendingErrs(vi, vj, p); }
    }
  }

  lemma AscendingErrs(vi: Point, vj: Point, p: Point)
    requires Straddles(vi, vj, p) && vj.lat > vi.lat
    ensures Toggles(vi, vj, p) != CrossesExactly(vi, vj, p) <==> Misjudged(vi, vj, p)
  {
    hide Steps, HalfStep, RoundedCrossing, ExactCrossing, Rise, Width;
    RoundedFromSteps(vi, vj, p);
    EdgeWindow(vi, vj, p, ExactCrossing(vi, vj, p) - vi.lon as real, p.lon - vi.lon);
  }

  lemma DescendingErrs(vi: Point, vj: Point, p: Point)
    requires Straddles(vi, vj, p) && vj.lat <= vi.lat
    ensures Toggles(vi, vj, p) != CrossesExactly(vi, vj, p) <==> Misjudged(vi, vj, p)
  {
    hide Steps, HalfStep, RoundedCrossing, ExactCrossing, Rise, Width;
    RoundedFromSteps(vi, vj, p);
    EdgeWindow(vi, vj, p, vi.lon as real - ExactCrossing(vi, vj, p), vi.lon - p.lon - 1);
  }

  lemma StepError(height: int, n: int, q: int, r: int, y: real)
    requires height > 0 && y * height as real == n as real
    requires n + height / 2 == height * q + r && -height < r < height
    ensures -0.5 < q as real - y < 1.5
  {
    var d, err, z := height as real, q as real - y, height / 2 - r;
    assert err * d == z as real by {
      Expand(q as real, -1.0, y, d);
      ProductAsReal(height, q);
    }
    assert -0.5 * d < z as real < 1.5 * d by {
      assert -height < 2 * z < 3 * height;
      assert 2.0 * z as real == (2 * z) as real && 3.0 * d == (3 * height) as real;
    }
    Unscale(-0.5, err, 1.5, d, z as real);
  }

  lemma Unscale(lo: real, x: real, hi: real, d: real, scaled: real)
    requires d > 0.0 && x * d == scaled && lo * d < scaled < hi * d
    ensures lo < x < hi
  {
    RealScale(lo, x, d);
    RealScale(x, hi, d);
  }

  /** The rounding error stays below 3/2, and on one side below 1/2: above for an
      ascending edge, below for a descending one. */
  lemma RoundingError(vi: Point, vj: Point, p: Point)
    requires Straddles(vi, vj, p)
    ensures var err := RoundedCrossing(vi, vj, p) as real - ExactCrossing(vi, vj, p);
            if vj.lat > vi.lat then -0.5 < err < 1.5 else -1.5 < err < 0.5
  {
    hide Quo, Steps, RoundedCrossing, ExactCrossing;
    RoundedFromSteps(vi, vj, p);
    ExactFromSteps(vi, vj, p);
    var height, n := Height(vi, vj), Rise(vi, p) * Width(vi, vj);
    var r := StepsRem(height, Rise(vi, p), Width(vi, vj));
    var x := ExactCrossing(vi, vj, p);
    StepError(height, n, Steps(height, Rise(vi, p), Width(vi, vj)), r,
              if vj.lat > vi.lat then x - vi.lon as real else vi.lon as real - x);
  }

  lemma CrossingStaysOnEdge(vi: Point, vj: Point, p: Point)
    requires Straddles(vi, vj, p)
    ensures Min(vi.lon, vj.lon) <= RoundedCrossing(vi, vj, p) <= Max(vi.lon, vj.lon)
  {
    hide RoundedCrossing, Steps;
    RoundedFromSteps(vi, vj, p);
    StepsStayBetween(Height(vi, vj), Rise(vi, p), Width(vi, vj));
  }

  // ---- Theorems about the whole ring ----

  lemma BoundaryTestIsExact(ring: seq<Point>, p: Point)
    requires ValidRing(ring)
    ensures BoundaryMachine(ring, p) <==> OnExactBoundary(ring, p)
  {
    hide OnSegmentMachine, AtParameter, LatOk, LonOk;
    forall i | 0 <= i < |ring|
      ensures OnSegmentMachine(Prev(ring, i), ring[i], p) <==> exists t :: AtParameter(Prev(ring, i), ring[i], p, t)
    {
      BoundaryHasNoOverflow(Prev(ring, i), ring[i], p);
      SegmentTestIsExact(Prev(ring, i), ring[i], p);
    }
  }

  /** Boundary points count as inside. */
  lemma BoundaryIsInside(ring: seq<Point>, p: Point)
    requires ValidRing(ring) && OnExactBoundary(ring, p)
    ensures Inside(ring, p)
  {
    BoundaryTestIsExact(ring, p);
  }

  lemma {:induction false} ParityCounts(ring: seq<Point>, p: Point, n: nat)
    requires ValidRing(ring) && n <= |ring|
    ensures ParityMachine(ring, p, n) <==>
            (ExactCrossings(ring, p, n) + MisjudgedEdges(ring, p, n)) % 2 == 1
  {
    hide TogglesMachine, Toggles, CrossesExactly, Misjudged, LatOk, LonOk;
    if n > 0 {
      ParityCounts(ring, p, n - 1);
      ToggleHasNoOverflow(ring[n - 1], Prev(ring, n - 1), p);
      ToggleErrsExactlyWhenMisjudged(ring[n - 1], Prev(ring, n - 1), p);
    }
  }

  /** Off the boundary `Contains` answers the even-odd rule if and only if an even
      number of edges is misjudged; on the boundary it always does. */
  lemma ContainsIsEvenOddExactlyWhen(ring: seq<Point>, p: Point)
    requires ValidRing(ring)
    ensures Inside(ring, p) == EvenOdd(ring, p) <==>
            OnExactBoundary(ring, p) || MisjudgedEdges(ring, p, |ring|) % 2 == 0
  {
    hide ParityMachine, ExactCrossings, MisjudgedEdges, BoundaryMachine, OnExactBoundary, LatOk, LonOk;
    BoundaryTestIsExact(ring, p);
    ParityCounts(ring, p, |ring|);
  }

  /** No straddled edge crosses within 3/2 micro-degree of the point. */
  ghost predicate Clear(ring: seq<Point>, p: Point) {
    forall i :: 0 <= i < |ring| && Straddles(ring[i], Prev(ring, i), p) ==>
      var x := ExactCrossing(ring[i], Prev(ring, i), p);
      x <= p.lon as real - 1.5 || p.lon as real + 1.5 <= x
  }

  lemma {:induction false} ClearHasNoMisjudgedEdges(ring: seq<Point>, p: Point, n: nat)
    requires n <= |ring| && Clear(ring, p)
    ensures MisjudgedEdges(ring, p, n) == 0
  {
    hide HalfStep, ExactCrossing;
    if n > 0 {
      ClearHasNoMisjudgedEdges(ring, p, n - 1);
      var vi, vj := ring[n - 1], Prev(ring, n - 1);
      if Straddles(vi, vj, p) {
        HalfStepScaled(Abs(vj.lat - vi.lat));
      }
    }
  }

  lemma ContainsIsEvenOddWhenClear(ring: seq<Point>, p: Point)
    requires ValidRing(ring) && Clear(ring, p)
    ensures Inside(ring, p) == EvenOdd(ring, p)
  {
    ClearHasNoMisjudgedEdges(ring, p, |ring|);
    ContainsIsEvenOddExactlyWhen(ring, p);
  }

  /** The margin cannot be dropped: this point lies 2/5 of a micro-degree outside
      a triangle, and `Contains` reports it inside. */
  lemma RoundingCanMisplaceAPoint()
    ensures var ring := [Point(0, 0), Point(0, -100), Point(10, -24), Point(0, 0)];
            var p := Point(1, -2);
            ValidRing(ring) && Inside(ring, p) && !EvenOdd(ring, p)
  {
    hide OnSegmentMachine, TogglesMachine, Toggles, CrossesExactly, Misjudged, OnExactBoundary;
    var ring := [Point(0, 0), Point(0, -100), Point(10, -24), Point(0, 0)];
    var p := Point(1, -2);
    forall i | 0 <= i < 4
      ensures !OnSegmentMachine(Prev(ring, i), ring[i], p)
      ensures TogglesMachine(ring[i], Prev(ring, i), p) == (i == 3)
      ensures !CrossesExactly(ring[i], Prev(ring, i), p)
    {
      BoundaryHasNoOverflow(Prev(ring, i), ring[i], p);
      ToggleHasNoOverflow(ring[i], Prev(ring, i), p);
      TriangleEdge(i);
    }
    BoundaryTestIsExact(ring, p);
    assert !ParityMachine(ring, p, 1) && !ParityMachine(ring, p, 2);
    assert !ParityMachine(ring, p, 3) && ParityMachine(ring, p, 4);
    assert ExactCrossings(ring, p, 1) == 0 && ExactCrossings(ring, p, 2) == 0;
    assert ExactCrossings(ring, p, 3) == 0 && ExactCrossings(ring, p, 4) == 0;
  }

  lemma TriangleEdge(i: nat)
    requires i < 4
    ensures var ring := [Point(0, 0), Point(0, -100), Point(10, -24), Point(0, 0)];
            var p := Point(1, -2);
            && !OnSegment(Prev(ring, i), ring[i], p)
            && Toggles(ring[i], Prev(ring, i), p) == (i == 3)
            && !CrossesExactly(ring[i], Prev(ring, i), p)
  {
    if i == 2 {
      assert ExactCrossing(Point(10, -24), Point(0, -100), Point(1, -2)) == -92.4;
      assert RoundedCrossing(Point(10, -24), Point(0, -100), Point(1, -2)) == -92;
    } else if i == 3 {
      assert ExactCrossing(Point(0, 0), Point(10, -24), Point(1, -2)) == -2.4;
      assert RoundedCrossing(Point(0, 0), Point(10, -24), Point(1, -2)) == -1;
    }
  }

  // ---- Bounding box ----

  ghost predicate InBoundingBox(ring: seq<Point>, p: Point) {
    && (exists i :: 0 <= i < |ring| && ring[i].lat <= p.lat)
    && (exists i :: 0 <= i < |ring| && p.lat <= ring[i].lat)
    && (exists i :: 0 <= i < |ring| && ring[i].lon <= p.lon)
    && (exists i :: 0 <= i < |ring| && p.lon <= ring[i].lon)
  }

  /** How many of the first n edges straddle p's latitude. */
  ghost function StraddleCount(ring: seq<Point>, p: Point, n: nat): nat
    requires n <= |ring|
  {
    if n == 0 then 0
    else StraddleCount(ring, p, n - 1) + if Straddles(ring[n - 1], Prev(ring, n - 1), p) then 1 else 0
  }

  lemma {:induction false} StraddlesSoFar(ring: seq<Point>, p: Point, n: nat)
    requires 0 < n <= |ring|
    ensures StraddleCount(ring, p, n) % 2 == 1 <==> (ring[|ring| - 1].lat > p.lat) != (ring[n - 1].lat > p.lat)
  {
    if n > 1 {
      StraddlesSoFar(ring, p, n - 1);
    } else {
      assert StraddleCount(ring, p, 0) == 0;
    }
  }

  /** The edges of the closed walk straddle any latitude an even number of times. */
  lemma StraddleParity(ring: seq<Point>, p: Point)
    ensures StraddleCount(ring, p, |ring|) % 2 == 0
  {
    if ring != [] { StraddlesSoFar(ring, p, |ring|); }
  }

  lemma {:induction false} EveryStraddleToggles(ring: seq<Point>, p: Point, n: nat)
    requires n <= |ring|
    requires forall i :: 0 <= i < n ==> TogglesMachine(ring[i], Prev(ring, i), p) == Straddles(ring[i], Prev(ring, i), p)
    ensures ParityMachine(ring, p, n) <==> StraddleCount(ring, p, n) % 2 == 1
  {
    hide TogglesMachine, Straddles;
    if n > 0 { EveryStraddleToggles(ring, p, n - 1); }
  }

  lemma {:induction false} SomeToggle(ring: seq<Point>, p: Point, n: nat) returns (i: nat)
    requires n <= |ring| && ParityMachine(ring, p, n)
    ensures i < n && TogglesMachine(ring[i], Prev(ring, i), p)
  {
    hide TogglesMachine;
    if TogglesMachine(ring[n - 1], Prev(ring, n - 1), p) {
      i := n - 1;
    } else {
      i := SomeToggle(ring, p, n - 1);
    }
  }

  lemma PrevIsVertex(ring: seq<Point>, i: nat) returns (j: nat)
    requires i < |ring|
    ensures j < |ring| && Prev(ring, i) == ring[j]
  {
    j := if i == 0 then |ring| - 1 else i - 1;
  }

  /** Every point reported inside a valid ring lies in the ring's bounding box. */
  lemma InsideIsInBoundingBox(ring: seq<Point>, p: Point)
    requires ValidRing(ring) && Inside(ring, p)
    ensures InBoundingBox(ring, p)
  {
    hide TogglesMachine, OnSegmentMachine, LatOk, LonOk;
    if BoundaryMachine(ring, p) {
      var i :| 0 <= i < |ring| && OnSegmentMachine(Prev(ring, i), ring[i], p);
      var j := PrevIsVertex(ring, i);
      BoundaryHasNoOverflow(ring[j], ring[i], p);
      assert InBox(ring[j], ring[i], p);
    } else {
      hide BoundaryMachine;
      var i := SomeToggle(ring, p, |ring|);
      var j := PrevIsVertex(ring, i);
      ToggleHasNoOverflow(ring[i], ring[j], p);
      CrossingStaysOnEdge(ring[i], ring[j], p);
      hide RoundedCrossing;
      WestOfAllIsOutside(ring, p);
    }
  }

  /** A point west of every vertex meets every straddled edge, an even number. */
  lemma WestOfAllIsOutside(ring: seq<Point>, p: Point)
    requires ValidRing(ring)
    ensures ParityMachine(ring, p, |ring|) ==> exists k :: 0 <= k < |ring| && ring[k].lon <= p.lon
  {
    hide TogglesMachine, RoundedCrossing, LatOk, LonOk;
    if forall k :: 0 <= k < |ring| ==> p.lon < ring[k].lon {
      forall k | 0 <= k < |ring|
        ensures TogglesMachine(ring[k], Prev(ring, k), p) == Straddles(ring[k], Prev(ring, k), p)
      {
        var l := PrevIsVertex(ring, k);
        ToggleHasNoOverflow(ring[k], ring[l], p);
        if Straddles(ring[k], ring[l], p) {
          CrossingStaysOnEdge(ring[k], ring[l], p);
        }
      }
      EveryStraddleToggles(ring, p, |ring|);
      StraddleParity(ring, p);
    }
  }
}
