/** The running maximum and minimum elevation the sample loop keeps, and the base
    plane derived from them. */
module Elevation {

  /** `max_elevation` and `min_elevation` as the loop carries them. */
  datatype Bounds = Bounds(hi: real, lo: real)

  /** The seeds the loop starts from: `max_elevation = 0`, `min_elevation = 10000000`. */
  const Seed: Bounds := Bounds(0.0, 10000000.0)

  /** One update with a parsed elevation `z`. The second test is an `elif`: a value
      that raises the maximum is never compared with the minimum. */
  function Step(b: Bounds, z: real): (r: Bounds)
    ensures r.hi >= b.hi && r.hi >= z
    ensures r.lo <= b.lo
    ensures z > b.hi ==> r == Bounds(z, b.lo)
    ensures z <= b.hi ==> r.hi == b.hi && r.lo == (if z < b.lo then z else b.lo)
  {
    if z > b.hi then Bounds(z, b.lo)
    else if z < b.lo then Bounds(b.hi, z)
    else b
  }

  /** The updates for the parsed elevations `zs`, in reading order. */
  function Fold(b: Bounds, zs: seq<real>): (r: Bounds)
    ensures r.hi >= b.hi && r.lo <= b.lo
    ensures forall k :: 0 <= k < |zs| ==> r.hi >= zs[k]
    ensures r.hi == b.hi || exists k :: 0 <= k < |zs| && r.hi == zs[k]
    ensures r.lo == b.lo || exists k :: 0 <= k < |zs| && r.lo == zs[k]
  {
    if |zs| == 0 then b
    else
      var pre := Fold(b, zs[..|zs| - 1]);
      assert forall k :: 0 <= k < |zs| - 1 ==> zs[..|zs| - 1][k] == zs[k];
      Step(pre, zs[|zs| - 1])
  }

  /** Folding a concatenation folds the second part from where the first left off. */
  lemma {:induction false} FoldAppend(b: Bounds, xs: seq<real>, ys: seq<real>)
    ensures Fold(b, xs + ys) == Fold(Fold(b, xs), ys)
    decreases |ys|
  {
    if |ys| == 0 {
      assert xs + ys == xs;
    } else {
      var ys' := ys[..|ys| - 1];
      assert (xs + ys)[..|xs + ys| - 1] == xs + ys';
      FoldAppend(b, xs, ys');
    }
  }

  /** One more reading is one more step of the update. */
  lemma FoldSnoc(b: Bounds, zs: seq<real>, z: real)
    ensures Fold(b, zs + [z]) == Step(Fold(b, zs), z)
  {
    assert (zs + [z])[..|zs|] == zs;
  }

  /** The minimum is at most every reading that did not raise the maximum when it
      arrived: those readings reach the `elif` and are compared with the minimum. */
  lemma {:induction false} MinimumBelowNonRaisingReadings(b: Bounds, zs: seq<real>)
    ensures forall k :: 0 <= k < |zs| && zs[k] <= Fold(b, zs[..k]).hi ==> Fold(b, zs).lo <= zs[k]
    decreases |zs|
  {
    if |zs| > 0 {
      var n := |zs| - 1;
      var pre := zs[..n];
      MinimumBelowNonRaisingReadings(b, pre);
      assert zs == pre + [zs[n]];
      FoldSnoc(b, pre, zs[n]);
      var before := Fold(b, pre);
      assert Fold(b, zs).lo <= before.lo;
      forall k | 0 <= k < |zs| && zs[k] <= Fold(b, zs[..k]).hi
        ensures Fold(b, zs).lo <= zs[k]
      {
        if k < n {
          assert zs[..k] == pre[..k] && zs[k] == pre[k];
        } else {
          assert zs[..k] == pre;
        }
      }
    }
  }

  /** As written, a reading that raises the maximum leaves the minimum alone, so
      readings that keep rising above a positive first value never move the
      minimum off its seed. */
  lemma {:induction false} RisingReadingsKeepMinimumSeed(zs: seq<real>)
    requires forall k :: 0 <= k < |zs| ==> zs[k] > 0.0
    requires forall k :: 0 < k < |zs| ==> zs[k - 1] < zs[k]
    ensures Fold(Seed, zs).lo == Seed.lo
    ensures |zs| > 0 ==> Fold(Seed, zs).hi == zs[|zs| - 1]
    decreases |zs|
  {
    if |zs| > 0 {
      var pre := zs[..|zs| - 1];
      RisingReadingsKeepMinimumSeed(pre);
    }
  }

  /** The base plane of the solid: one fifth of the elevation span below the
      minimum, unless that fifth is at least the minimum, in which case zero. */
  function BaseZ(b: Bounds): (z: real)
    ensures z >= 0.0
    ensures b.lo <= b.hi && b.lo >= 0.0 ==> z <= b.lo
    ensures z > 0.0 ==> z == b.lo - (b.hi - b.lo) / 5.0
    ensures b.lo > (b.hi - b.lo) / 5.0 ==> z == b.lo - (b.hi - b.lo) / 5.0
    ensures b.lo <= (b.hi - b.lo) / 5.0 ==> z == 0.0
  {
    var range := (b.hi - b.lo) / 5.0;
    if b.lo > range then b.lo - range else 0.0
  }

  /** Readings [100, 105] in that order leave the minimum at its seed, so the base
      plane lies far above the terrain; in the order [105, 100] the base is 99. */
  lemma OrderDecidesBase()
    ensures Fold(Seed, [100.0, 105.0]) == Bounds(105.0, 10000000.0)
    ensures BaseZ(Fold(Seed, [100.0, 105.0])) == 11999979.0
    ensures Fold(Seed, [105.0, 100.0]) == Bounds(105.0, 100.0)
    ensures BaseZ(Fold(Seed, [105.0, 100.0])) == 99.0
  {
    assert [100.0, 105.0][..1] == [100.0];
    assert [105.0, 100.0][..1] == [105.0];
    assert [100.0][..0] == [];
    assert [105.0][..0] == [];
  }

  /** A grid whose readings are all zero rests on zero; a grid with no parsed
      reading at all (every token no-data) keeps the seeds, and its base plane
      lies at 12000000. */
  lemma {:induction false} FlatAndEmptyGridBases(zs: seq<real>)
    requires |zs| > 0 && forall k :: 0 <= k < |zs| ==> zs[k] == 0.0
    ensures Fold(Seed, zs) == Bounds(0.0, 0.0) && BaseZ(Fold(Seed, zs)) == 0.0
    ensures BaseZ(Fold(Seed, [])) == 12000000.0
    decreases |zs|
  {
    if |zs| > 1 {
      FlatAndEmptyGridBases(zs[..|zs| - 1]);
    }
  }
}
