/** Named axis-aligned boxes ("locations") as the store keeps them, and the
    "outsideness" score the resolver ranks them by. Coordinates, extents and
    scores are modelled as reals (the source uses float). */
module Regions {

  datatype Option<T> = None | Some(value: T)

  datatype Vec3 = Vec3(x: real, y: real, z: real)

  /** A stored location: its name, its (padded) bounds and the cached extent sum. */
  datatype Region = Region(name: string, mins: Vec3, maxs: Vec3, sum: real)

  /** Vertical tolerance added below and above every box when it is stored. */
  const ZPad: real := 32.0

  function Min(a: real, b: real): real { if a > b then b else a }
  function Max(a: real, b: real): real { if a > b then a else b }

  function Abs(x: real): real { if x < 0.0 then -x else x }

  function ToVec3(v: seq<real>): Vec3
    requires |v| == 3
  {
    Vec3(v[0], v[1], v[2])
  }

  /** Sum over the first n axes of the extent |hi - lo| of the raw bounds. */
  function AxisSpread(lo: seq<real>, hi: seq<real>, n: nat): real
    requires n <= |lo| && n <= |hi|
  {
    if n == 0 then 0.0
    else AxisSpread(lo, hi, n - 1) + (Max(lo[n - 1], hi[n - 1]) - Min(lo[n - 1], hi[n - 1]))
  }

  /** What every region built by the store satisfies: each axis is ordered, the
      Z axis carries the two paddings, and `sum` is the extent of the UNPADDED box. */
  predicate WellFormed(r: Region) {
    && r.mins.x <= r.maxs.x
    && r.mins.y <= r.maxs.y
    && r.mins.z + 2.0 * ZPad <= r.maxs.z
    && r.sum == (r.maxs.x - r.mins.x) + (r.maxs.y - r.mins.y) + (r.maxs.z - r.mins.z) - 2.0 * ZPad
  }

  /** The region the store builds from raw corner values: every axis is ordered
      on its own, the sum is taken over the ordered bounds, and only then is Z
      padded by ZPad on both sides. */
  function MakeRegion(lo: Vec3, hi: Vec3, name: string): (r: Region)
    ensures WellFormed(r) && r.name == name
  {
    var a := Vec3(Min(lo.x, hi.x), Min(lo.y, hi.y), Min(lo.z, hi.z));
    var b := Vec3(Max(lo.x, hi.x), Max(lo.y, hi.y), Max(lo.z, hi.z));
    Region(name, Vec3(a.x, a.y, a.z - ZPad), Vec3(b.x, b.y, b.z + ZPad),
           (b.x - a.x) + (b.y - a.y) + (b.z - a.z))
  }

  /** The stored bounds are the raw ones, each axis either kept or swapped so
      that it is ordered; Z is further widened by ZPad on both sides; the sum is
      the extent of the raw box. */
  lemma MakeRegionBounds(lo: Vec3, hi: Vec3, name: string)
    ensures var r := MakeRegion(lo, hi, name);
      && r.mins.x <= r.maxs.x && ((r.mins.x, r.maxs.x) == (lo.x, hi.x) || (r.mins.x, r.maxs.x) == (hi.x, lo.x))
      && r.mins.y <= r.maxs.y && ((r.mins.y, r.maxs.y) == (lo.y, hi.y) || (r.mins.y, r.maxs.y) == (hi.y, lo.y))
      && var (a, b) := (r.mins.z + ZPad, r.maxs.z - ZPad);
         a <= b && ((a, b) == (lo.z, hi.z) || (a, b) == (hi.z, lo.z))
    ensures MakeRegion(lo, hi, name).sum == Abs(hi.x - lo.x) + Abs(hi.y - lo.y) + Abs(hi.z - lo.z)
  {
  }

  /** The corners (0,0,0) and (10,10,10) are stored as (0,0,-32) and
      (10,10,42) with an extent sum of 30, the padding left out of it; corners
      given inverted on X are swapped on X alone. */
  lemma StoredBoxExamples()
    ensures MakeRegion(Vec3(0.0, 0.0, 0.0), Vec3(10.0, 10.0, 10.0), "Base")
         == Region("Base", Vec3(0.0, 0.0, -32.0), Vec3(10.0, 10.0, 42.0), 30.0)
    ensures MakeRegion(Vec3(10.0, 0.0, 0.0), Vec3(0.0, 10.0, 10.0), "X")
         == Region("X", Vec3(0.0, 0.0, -32.0), Vec3(10.0, 10.0, 42.0), 30.0)
  {
  }

  /** The resolver's distance: for each axis |min - p| + |max - p|, summed, minus
      the cached extent sum. */
  function Score(r: Region, p: Vec3): (d: real)
    ensures WellFormed(r) ==> d >= 2.0 * ZPad
  {
    Abs(r.mins.x - p.x) + Abs(r.maxs.x - p.x)
    + Abs(r.mins.y - p.y) + Abs(r.maxs.y - p.y)
    + Abs(r.mins.z - p.z) + Abs(r.maxs.z - p.z)
    - r.sum
  }

  /** How far q lies outside the interval [a, b]. */
  function Gap(a: real, b: real, q: real): real {
    if q < a then a - q else if q > b then q - b else 0.0
  }

  /** L1 distance from p to the stored (padded) box. */
  function BoxDistance(r: Region, p: Vec3): real {
    Gap(r.mins.x, r.maxs.x, p.x) + Gap(r.mins.y, r.maxs.y, p.y) + Gap(r.mins.z, r.maxs.z, p.z)
  }

  predicate Contains(r: Region, p: Vec3) {
    && r.mins.x <= p.x <= r.maxs.x
    && r.mins.y <= p.y <= r.maxs.y
    && r.mins.z <= p.z <= r.maxs.z
  }

  /** Over one axis: |a - q| + |b - q| is the extent plus twice the gap. */
  lemma AxisScore(a: real, b: real, q: real)
    requires a <= b
    ensures Abs(a - q) + Abs(b - q) == (b - a) + 2.0 * Gap(a, b, q)
    ensures Gap(a, b, q) >= 0.0 && (Gap(a, b, q) == 0.0 <==> a <= q <= b)
  {
  }

  /** Because `sum` leaves out the 2 * ZPad of vertical padding, the score of a
      stored region is 64 plus twice the L1 distance from the point to the
      padded box: it is never below 64, and exactly 64 inside the box. */
  lemma ScoreIsBoxDistance(r: Region, p: Vec3)
    requires WellFormed(r)
    ensures Score(r, p) == 2.0 * ZPad + 2.0 * BoxDistance(r, p)
    ensures BoxDistance(r, p) >= 0.0
    ensures BoxDistance(r, p) == 0.0 <==> Contains(r, p)
    ensures Score(r, p) >= 64.0
  {
    AxisScore(r.mins.x, r.maxs.x, p.x);
    AxisScore(r.mins.y, r.maxs.y, p.y);
    AxisScore(r.mins.z, r.maxs.z, p.z);
  }
}
