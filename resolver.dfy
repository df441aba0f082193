/** Resolving a point to a location name: a linear scan of the store that
    returns at once on a region scoring below Near, and otherwise keeps the
    first region with the smallest score below Far. */
module Resolver {
  import opened Regions
  import opened Store

  /** A score below this counts as containment and ends the scan. */
  const Near: real := 0.01
  /** Starting value of the best distance: regions scoring at least this are never chosen. */
  const Far: real := 999999.0
  /** The name returned when no region is chosen. */
  const Fallback: string := "somewhere"

  /** k is the first region, in list order, whose score is below Near. */
  ghost predicate FirstNear(rs: seq<Region>, p: Vec3, k: int) {
    && 0 <= k < |rs|
    && Score(rs[k], p) < Near
    && forall j | 0 <= j < k :: Score(rs[j], p) >= Near
  }

  /** k scores below Far, no region scores less, and every earlier region scores more. */
  ghost predicate FirstMin(rs: seq<Region>, p: Vec3, k: int) {
    && 0 <= k < |rs|
    && Score(rs[k], p) < Far
    && (forall j | 0 <= j < |rs| :: Score(rs[k], p) <= Score(rs[j], p))
    && (forall j | 0 <= j < k :: Score(rs[k], p) < Score(rs[j], p))
  }

  ghost predicate AllAtLeast(rs: seq<Region>, p: Vec3, bound: real) {
    forall j | 0 <= j < |rs| :: Score(rs[j], p) >= bound
  }

  /** The name for point p: the first near region if there is one; otherwise
      the first region of least score below Far; otherwise "somewhere".
      The store is only read. */
  method GetLocation(store: LocationStore, p: Vec3) returns (name: string)
    ensures forall k :: FirstNear(store.regions, p, k) ==> name == store.regions[k].name
    ensures AllAtLeast(store.regions, p, Near) ==>
      forall k :: FirstMin(store.regions, p, k) ==> name == store.regions[k].name
    ensures AllAtLeast(store.regions, p, Far) ==> name == Fallback
  {
    var rs := store.regions;
    var bestloc: Option<nat> := None;
    var bestdist := Far;
    var i := 0;
    while i < |rs|
      invariant 0 <= i <= |rs|
      invariant forall j | 0 <= j < i :: Score(rs[j], p) >= Near
      invariant bestloc.None? ==> bestdist == Far && forall j | 0 <= j < i :: Score(rs[j], p) >= Far
      invariant bestloc.Some? ==>
        && bestloc.value < i
        && bestdist == Score(rs[bestloc.value], p) < Far
        && (forall j | 0 <= j < i :: bestdist <= Score(rs[j], p))
        && (forall j | 0 <= j < bestloc.value :: bestdist < Score(rs[j], p))
    {
      var dist := Score(rs[i], p);
      if dist < Near {
        FirstNearUnique(rs, p, i);
        return rs[i].name;
      }
      if dist < bestdist {
        bestdist := dist;
        bestloc := Some(i);
      }
      i := i + 1;
    }
    if bestloc.Some? {
      FirstMinUnique(rs, p, bestloc.value);
      return rs[bestloc.value].name;
    }
    return Fallback;
  }

  lemma FirstNearUnique(rs: seq<Region>, p: Vec3, k: int)
    requires FirstNear(rs, p, k)
    ensures forall j :: FirstNear(rs, p, j) ==> j == k
  {
  }

  lemma FirstMinUnique(rs: seq<Region>, p: Vec3, k: int)
    requires FirstMin(rs, p, k)
    ensures forall j :: FirstMin(rs, p, j) ==> j == k
  {
  }

  /** When some region scores below Far, a first minimum exists, so the three
      cases of GetLocation cover every store. */
  lemma FirstMinExists(rs: seq<Region>, p: Vec3)
    requires exists k :: 0 <= k < |rs| && Score(rs[k], p) < Far
    ensures exists k :: FirstMin(rs, p, k)
  {
    var best := -1;
    for i := 0 to |rs|
      invariant -1 <= best < i
      invariant best < 0 ==> forall j | 0 <= j < i :: Score(rs[j], p) >= Far
      invariant best >= 0 ==>
        && Score(rs[best], p) < Far
        && (forall j | 0 <= j < i :: Score(rs[best], p) <= Score(rs[j], p))
        && (forall j | 0 <= j < best :: Score(rs[best], p) < Score(rs[j], p))
    {
      if Score(rs[i], p) < (if best < 0 then Far else Score(rs[best], p)) {
        best := i;
      }
    }
    assert FirstMin(rs, p, best);
  }

  /** Every region the store builds scores at least 64 against any point, so
      the early return on a score below Near never happens on a valid store. */
  lemma NeverNear(rs: seq<Region>, p: Vec3)
    requires forall k | 0 <= k < |rs| :: WellFormed(rs[k])
    ensures AllAtLeast(rs, p, 2.0 * ZPad)
    ensures AllAtLeast(rs, p, Near)
    ensures forall k :: !FirstNear(rs, p, k)
  {
    forall j | 0 <= j < |rs|
      ensures Score(rs[j], p) >= 2.0 * ZPad
    {
      ScoreIsBoxDistance(rs[j], p);
    }
  }

  /** On a valid store the resolver picks the first region whose padded box is
      nearest to p in L1 distance, among those closer than (Far - 64) / 2. */
  lemma FirstMinIsNearestBox(rs: seq<Region>, p: Vec3, k: int)
    requires forall j | 0 <= j < |rs| :: WellFormed(rs[j])
    requires 0 <= k < |rs|
    ensures FirstMin(rs, p, k) <==>
      && 2.0 * ZPad + 2.0 * BoxDistance(rs[k], p) < Far
      && (forall j | 0 <= j < |rs| :: BoxDistance(rs[k], p) <= BoxDistance(rs[j], p))
      && (forall j | 0 <= j < k :: BoxDistance(rs[k], p) < BoxDistance(rs[j], p))
  {
    forall j | 0 <= j < |rs|
      ensures Score(rs[j], p) == 2.0 * ZPad + 2.0 * BoxDistance(rs[j], p)
    {
      ScoreIsBoxDistance(rs[j], p);
    }
  }

  /** A point inside the padded box of region k, and inside no earlier one,
      resolves to region k. */
  lemma ContainedPointResolves(rs: seq<Region>, p: Vec3, k: int)
    requires forall j | 0 <= j < |rs| :: WellFormed(rs[j])
    requires 0 <= k < |rs| && Contains(rs[k], p)
    requires forall j | 0 <= j < k :: !Contains(rs[j], p)
    ensures FirstMin(rs, p, k)
  {
    FirstMinIsNearestBox(rs, p, k);
    forall j | 0 <= j < |rs|
      ensures BoxDistance(rs[j], p) >= 0.0 && (BoxDistance(rs[j], p) == 0.0 <==> Contains(rs[j], p))
    {
      ScoreIsBoxDistance(rs[j], p);
    }
  }
}
