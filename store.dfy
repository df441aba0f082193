/** The location list: an ordered collection of regions, new ones appended at
    the tail, cleared as a whole before every load. */
module Store {
  import opened Regions

  class LocationStore {
    /** The list of locations, head first. */
    var regions: seq<Region>

    /** Every stored region was built by SetLoc. */
    ghost predicate Valid()
      reads this
    {
      forall k | 0 <= k < |regions| :: WellFormed(regions[k])
    }

    /** The store as a session starts it. */
    constructor ()
      ensures regions == [] && Valid()
    {
      regions := [];
    }

    /** Drops every region; idempotent. */
    method Clear()
      modifies this
      ensures regions == [] && Valid()
    {
      // The original walks the list deleting node after node and reads each
      // node's link after that node has been freed; the net effect intended,
      // and modelled here, is an empty list.
      regions := [];
    }

    /** Normalises the caller's corner arrays in place (per axis, the smaller
        value into `mins`), builds the region with the Z padding and the
        unpadded extent sum, and appends it at the tail. A missing name adds
        nothing and touches nothing. */
    method SetLoc(mins: array<real>, maxs: array<real>, name: Option<string>)
      requires mins.Length == 3 && maxs.Length == 3 && mins != maxs
      modifies this, mins, maxs
      ensures name.None? ==> regions == old(regions) && mins[..] == old(mins[..]) && maxs[..] == old(maxs[..])
      ensures name.Some? ==>
        regions == old(regions) + [MakeRegion(ToVec3(old(mins[..])), ToVec3(old(maxs[..])), name.value)]
      ensures name.Some? ==> forall n | 0 <= n < 3 ::
        mins[n] == Min(old(mins[n]), old(maxs[n])) && maxs[n] == Max(old(mins[n]), old(maxs[n]))
      ensures old(Valid()) ==> Valid()
    {
      if name.None? {
        return;
      }
      ghost var lo, hi := mins[..], maxs[..];
      var sum := 0.0;
      for n := 0 to 3
        invariant forall k | 0 <= k < n :: mins[k] == Min(lo[k], hi[k]) && maxs[k] == Max(lo[k], hi[k])
        invariant forall k | n <= k < 3 :: mins[k] == lo[k] && maxs[k] == hi[k]
        invariant sum == AxisSpread(lo, hi, n)
        invariant regions == old(regions)
      {
        if mins[n] > maxs[n] {
          mins[n], maxs[n] := maxs[n], mins[n];
        }
        sum := sum + (maxs[n] - mins[n]);
      }
      assert AxisSpread(lo, hi, 1) == Max(lo[0], hi[0]) - Min(lo[0], hi[0]);
      assert AxisSpread(lo, hi, 2) == AxisSpread(lo, hi, 1) + (Max(lo[1], hi[1]) - Min(lo[1], hi[1]));
      var l := Region(name.value, Vec3(mins[0], mins[1], mins[2] - ZPad), Vec3(maxs[0], maxs[1], maxs[2] + ZPad), sum);
      assert l == MakeRegion(ToVec3(lo), ToVec3(hi), name.value);
      regions := regions + [l];
    }
  }
}
