/** The per-cell state store and the radiation-field tables of SKIRT's medium system
    (SKIRT/core/MediumSystem.hpp), together with the value-level definitions its doc comments give
    for the material-type queries, the scattering weights and the optical depth along a path.

    Opacities and path segments are inputs: `kext[m][h]` is the extinction opacity of medium
    component `h` in spatial cell `m`, and a path is the list of segments, each crossing one cell,
    that the spatial grid produces. Table values and opacities are reals. */
module MediumSystem {
  import opened Common

  //============= Flattened indexing =============

  /** The slot of the pair (`i`, `j`) in a table with `rows` rows of `n` entries each, stored row
      after row: state(m, h) at m * numMedia + h, and a radiation-field bin (m, ell) at
      m * numBins + ell. */
  function FlatIndex(i: nat, j: nat, rows: nat, n: nat): (k: nat)
    requires i < rows && j < n
    ensures k < rows * n
  {
    RowFits(i, j, rows, n);
    i * n + j
  }

  lemma RowFits(i: nat, j: nat, rows: nat, n: nat)
    requires i < rows && j < n
    ensures i * n + j < rows * n
  {
    calc {
      i * n + j;
    <
      i * n + n;
    ==
      (i + 1) * n;
    <=  { MultiplyMonotone(i + 1, rows, n); }
      rows * n;
    }
  }

  lemma MultiplyMonotone(a: nat, b: nat, n: nat)
    requires a <= b
    ensures a * n <= b * n
  {
  }

  /** The row and the column come back out of a slot by division and remainder. */
  lemma FlatIndexRoundTrip(i: nat, j: nat, rows: nat, n: nat)
    requires i < rows && j < n
    ensures FlatIndex(i, j, rows, n) / n == i && FlatIndex(i, j, rows, n) % n == j
  {
    var k := FlatIndex(i, j, rows, n);
    var q, r := k / n, k % n;
    assert q * n + r == i * n + j;
    assert (q - i) * n == j - r;
    if q > i {
      MultiplyMonotone(1, q - i, n);
      assert false;
    } else if q < i {
      MultiplyMonotone(1, i - q, n);
      assert false;
    }
  }

  /** Distinct pairs occupy distinct slots. */
  lemma FlatIndexInjective(i: nat, j: nat, i': nat, j': nat, rows: nat, n: nat)
    requires i < rows && j < n && i' < rows && j' < n
    requires FlatIndex(i, j, rows, n) == FlatIndex(i', j', rows, n)
    ensures i == i' && j == j'
  {
    FlatIndexRoundTrip(i, j, rows, n);
    FlatIndexRoundTrip(i', j', rows, n);
  }

  //============= Material types =============

  /** MaterialMix::MaterialType: the fundamental material type of a medium. */
  datatype MaterialType = Dust | Electrons | Gas

  /** isMaterialType(type, h) (MediumSystem.hpp:165-167); `media[h]` is the material type of medium
      component `h`. */
  predicate IsMaterialType(media: seq<MaterialType>, t: MaterialType, h: nat)
    requires h < |media|
  {
    media[h] == t
  }

  predicate IsDust(media: seq<MaterialType>, h: nat)
    requires h < |media|
  {
    IsMaterialType(media, Dust, h)
  }

  predicate IsElectrons(media: seq<MaterialType>, h: nat)
    requires h < |media|
  {
    IsMaterialType(media, Electrons, h)
  }

  predicate IsGas(media: seq<MaterialType>, h: nat)
    requires h < |media|
  {
    IsMaterialType(media, Gas, h)
  }

  /** hasMaterialType(type) (MediumSystem.hpp:149-151), looking at the media from index `h` on. */
  function HasMaterialTypeFrom(media: seq<MaterialType>, t: MaterialType, h: nat): (r: bool)
    requires h <= |media|
    ensures r <==> exists g :: h <= g < |media| && IsMaterialType(media, t, g)
    decreases |media| - h
  {
    if h == |media| then false
    else IsMaterialType(media, t, h) || HasMaterialTypeFrom(media, t, h + 1)
  }

  function HasMaterialType(media: seq<MaterialType>, t: MaterialType): (r: bool)
    ensures r <==> exists h :: 0 <= h < |media| && IsMaterialType(media, t, h)
  {
    HasMaterialTypeFrom(media, t, 0)
  }

  /** hasDust() (MediumSystem.hpp:153-155): some medium component contains dust. */
  function HasDust(media: seq<MaterialType>): (r: bool)
    ensures r <==> exists h :: 0 <= h < |media| && IsDust(media, h)
  {
    assert forall h :: 0 <= h < |media| ==> (IsDust(media, h) <==> IsMaterialType(media, Dust, h));
    HasMaterialType(media, Dust)
  }

  /** hasElectrons() (MediumSystem.hpp:157-159). */
  function HasElectrons(media: seq<MaterialType>): (r: bool)
    ensures r <==> exists h :: 0 <= h < |media| && IsElectrons(media, h)
  {
    assert forall h :: 0 <= h < |media| ==> (IsElectrons(media, h) <==> IsMaterialType(media, Electrons, h));
    HasMaterialType(media, Electrons)
  }

  /** hasGas() (MediumSystem.hpp:161-163). */
  function HasGas(media: seq<MaterialType>): (r: bool)
    ensures r <==> exists h :: 0 <= h < |media| && IsGas(media, h)
  {
    assert forall h :: 0 <= h < |media| ==> (IsGas(media, h) <==> IsMaterialType(media, Gas, h));
    HasMaterialType(media, Gas)
  }

  /** A system without media has no material of any type; a nonempty one has at least one. */
  lemma SomeMaterialType(media: seq<MaterialType>)
    ensures |media| == 0 <==> !HasDust(media) && !HasElectrons(media) && !HasGas(media)
  {
    if |media| > 0 {
      assert IsDust(media, 0) || IsElectrons(media, 0) || IsGas(media, 0);
    }
  }

  //============= Sums =============

  function Sum(xs: seq<real>): real {
    if xs == [] then 0.0 else xs[0] + Sum(xs[1..])
  }

  predicate NonNegative(xs: seq<real>) {
    forall i :: 0 <= i < |xs| ==> xs[i] >= 0.0
  }

  /** A sum of nonnegative terms is nonnegative, and it is zero only when every term is zero. */
  lemma {:induction false} SumOfNonNegative(xs: seq<real>)
    requires NonNegative(xs)
    ensures Sum(xs) >= 0.0
    ensures Sum(xs) == 0.0 <==> forall i :: 0 <= i < |xs| ==> xs[i] == 0.0
  {
    if xs != [] {
      assert NonNegative(xs[1..]);
      SumOfNonNegative(xs[1..]);
      if Sum(xs) == 0.0 {
        forall i | 0 <= i < |xs|
          ensures xs[i] == 0.0
        {
          if i > 0 {
            assert xs[1..][i - 1] == xs[i];
          }
        }
      } else {
        assert xs[0] != 0.0 || Sum(xs[1..]) != 0.0;
      }
    }
  }

  //============= Scattering weights =============

  /** Every term of `xs` divided by `s`. */
  function Scaled(xs: seq<real>, s: real): (ys: seq<real>)
    requires s != 0.0
    ensures |ys| == |xs| && forall h :: 0 <= h < |xs| ==> ys[h] * s == xs[h]
  {
    if xs == [] then [] else [xs[0] / s] + Scaled(xs[1..], s)
  }

  lemma {:induction false} SumScaled(xs: seq<real>, s: real)
    requires s != 0.0
    ensures Sum(Scaled(xs, s)) * s == Sum(xs)
  {
    if xs != [] {
      SumScaled(xs[1..], s);
      assert Scaled(xs, s)[1..] == Scaled(xs[1..], s);
      assert Sum(Scaled(xs, s)) == xs[0] / s + Sum(Scaled(xs[1..], s));
      MultiplyDistributes(xs[0] / s, Sum(Scaled(xs[1..], s)), s);
    }
  }

  lemma MultiplyDistributes(a: real, b: real, s: real)
    ensures (a + b) * s == a * s + b * s
  {
  }

  /** weightsForScattering(wv, lambda, pp) (MediumSystem.hpp:250-262) given the scattering
      opacities `ksca[h]` of the medium components in the interaction cell: whether the packet
      scatters there, and the weights, one per component. */
  function WeightsForScattering(ksca: seq<real>): (r: (bool, seq<real>))
    ensures |r.1| == |ksca|
    ensures r.0 <==> Sum(ksca) > 0.0
    ensures r.0 ==> forall h :: 0 <= h < |ksca| ==> r.1[h] * Sum(ksca) == ksca[h]
  {
    var total := Sum(ksca);
    if total > 0.0 then (true, Scaled(ksca, total)) else (false, ksca)
  }

  /** The weights are normalized to a total of unity when they exist, and they fail to exist
      exactly when every scattering opacity is zero. */
  lemma WeightsNormalized(ksca: seq<real>)
    requires NonNegative(ksca)
    ensures !WeightsForScattering(ksca).0 <==> forall h :: 0 <= h < |ksca| ==> ksca[h] == 0.0
    ensures WeightsForScattering(ksca).0 ==> Sum(WeightsForScattering(ksca).1) == 1.0
    ensures WeightsForScattering(ksca).0 ==> NonNegative(WeightsForScattering(ksca).1)
  {
    SumOfNonNegative(ksca);
    var total := Sum(ksca);
    if total > 0.0 {
      var wv := Scaled(ksca, total);
      SumScaled(ksca, total);
      Cancel(Sum(wv), 1.0, total);
      forall h | 0 <= h < |wv|
        ensures wv[h] >= 0.0
      {
        NonNegativeFactor(wv[h], total);
      }
    }
  }

  lemma Cancel(x: real, y: real, s: real)
    requires s != 0.0 && x * s == y * s
    ensures x == y
  {
  }

  lemma NonNegativeFactor(a: real, s: real)
    requires s > 0.0 && a * s >= 0.0
    ensures a >= 0.0
  {
  }

  //============= Optical depth along a path =============

  /** One segment of a path: it crosses spatial cell `m` over a distance `ds`. */
  datatype Segment = Segment(m: nat, ds: real)

  /** Every segment lies in a cell for which opacities are given. */
  predicate OnGrid(kext: seq<seq<real>>, path: seq<Segment>) {
    forall i :: 0 <= i < |path| ==> path[i].m < |kext|
  }

  /** The optical depth of one segment: its length times the extinction opacity summed over all
      medium components in its cell (the formula for tau_m at MediumSystem.hpp:326-329). */
  function SegmentDepth(kext: seq<seq<real>>, seg: Segment): real
    requires seg.m < |kext|
  {
    seg.ds * Sum(kext[seg.m])
  }

  /** The optical depth of each segment of a path, in path order. */
  function SegmentDepths(kext: seq<seq<real>>, path: seq<Segment>): seq<real>
    requires OnGrid(kext, path)
  {
    seq(|path|, i requires 0 <= i < |path| => SegmentDepth(kext, path[i]))
  }

  /** The length of each segment of a path, in path order. */
  function Lengths(path: seq<Segment>): seq<real> {
    seq(|path|, i requires 0 <= i < |path| => path[i].ds)
  }

  /** The optical depth along a path counting all medium components (MediumSystem.hpp:323-329):
      the sum of the optical depths of its segments. */
  function OpticalDepth(kext: seq<seq<real>>, path: seq<Segment>): real
    requires OnGrid(kext, path)
  {
    Sum(SegmentDepths(kext, path))
  }

  /** The distance covered by a path. */
  function PathLength(path: seq<Segment>): real {
    Sum(Lengths(path))
  }

  /** opacityExt(lambda, m, type) (MediumSystem.hpp:221-227): the opacities in `row`, one per medium
      component, summed over the components of material type `t`. */
  function OpacityOfType(row: seq<real>, media: seq<MaterialType>, t: MaterialType): real
    requires |row| == |media|
  {
    if row == [] then 0.0
    else (if media[0] == t then row[0] else 0.0) + OpacityOfType(row[1..], media[1..], t)
  }

  /** The opacity of one material type is nonnegative when the opacities of its components are, and
      zero when no component has that type. */
  lemma {:induction false} OpacityOfTypeSigns(row: seq<real>, media: seq<MaterialType>, t: MaterialType)
    requires |row| == |media|
    ensures (forall h :: 0 <= h < |row| && media[h] == t ==> row[h] >= 0.0) ==> OpacityOfType(row, media, t) >= 0.0
    ensures (forall h :: 0 <= h < |media| ==> media[h] != t) ==> OpacityOfType(row, media, t) == 0.0
  {
    if row != [] {
      OpacityOfTypeSigns(row[1..], media[1..], t);
      assert forall h :: 0 <= h < |row| - 1 ==> row[1..][h] == row[h + 1] && media[1..][h] == media[h + 1];
    }
  }

  /** The opacity summed over all components (opacityExt(lambda, m), MediumSystem.hpp:228-234) is
      the sum of the opacities of the three material types. */
  lemma {:induction false} OpacityByType(row: seq<real>, media: seq<MaterialType>)
    requires |row| == |media|
    ensures Sum(row) == OpacityOfType(row, media, Dust) + OpacityOfType(row, media, Electrons)
                        + OpacityOfType(row, media, Gas)
  {
    if row != [] {
      OpacityByType(row[1..], media[1..]);
    }
  }

  /** Every cell has one opacity per medium component. */
  predicate PerComponent(kext: seq<seq<real>>, media: seq<MaterialType>) {
    forall m :: 0 <= m < |kext| ==> |kext[m]| == |media|
  }

  /** The optical depth of each segment counting only the medium components of material type `t`. */
  function SegmentDepthsOfType(kext: seq<seq<real>>, media: seq<MaterialType>, path: seq<Segment>, t: MaterialType)
    : seq<real>
    requires OnGrid(kext, path) && PerComponent(kext, media)
  {
    seq(|path|, i requires 0 <= i < |path| => path[i].ds * OpacityOfType(kext[path[i].m], media, t))
  }

  /** getOpticalDepth(path, lambda, type) (MediumSystem.hpp:297-311): the optical depth along a path
      counting only the medium components of material type `t`. */
  function OpticalDepthOfType(kext: seq<seq<real>>, media: seq<MaterialType>, path: seq<Segment>, t: MaterialType)
    : real
    requires OnGrid(kext, path) && PerComponent(kext, media)
  {
    Sum(SegmentDepthsOfType(kext, media, path, t))
  }

  /** The optical depth of one material type is nonnegative on a physical path, and zero for a type
      that no component has. */
  lemma OpticalDepthOfTypeSigns(kext: seq<seq<real>>, media: seq<MaterialType>, path: seq<Segment>, t: MaterialType)
    requires OnGrid(kext, path) && PerComponent(kext, media)
    ensures Physical(kext, path) ==> OpticalDepthOfType(kext, media, path, t) >= 0.0
    ensures (forall h :: 0 <= h < |media| ==> media[h] != t) ==> OpticalDepthOfType(kext, media, path, t) == 0.0
  {
    var d := SegmentDepthsOfType(kext, media, path, t);
    if Physical(kext, path) {
      forall i | 0 <= i < |path|
        ensures d[i] >= 0.0
      {
        assert Lengths(path)[i] == path[i].ds;
        OpacityOfTypeSigns(kext[path[i].m], media, t);
        NonNegativeProduct(path[i].ds, OpacityOfType(kext[path[i].m], media, t));
      }
      SumOfNonNegative(d);
    }
    if forall h :: 0 <= h < |media| ==> media[h] != t {
      forall i | 0 <= i < |path|
        ensures d[i] == 0.0
      {
        OpacityOfTypeSigns(kext[path[i].m], media, t);
      }
      SumOfNonNegative(d);
    }
  }

  /** Sums of termwise sums. */
  lemma {:induction false} SumOfThree(x: seq<real>, a: seq<real>, b: seq<real>, c: seq<real>)
    requires |x| == |a| == |b| == |c|
    requires forall i :: 0 <= i < |x| ==> x[i] == a[i] + b[i] + c[i]
    ensures Sum(x) == Sum(a) + Sum(b) + Sum(c)
  {
    if x != [] {
      SumOfThree(x[1..], a[1..], b[1..], c[1..]);
    }
  }

  /** The optical depth counting every component is the sum of those of the three material types. */
  lemma OpticalDepthByType(kext: seq<seq<real>>, media: seq<MaterialType>, path: seq<Segment>)
    requires OnGrid(kext, path) && PerComponent(kext, media)
    ensures OpticalDepth(kext, path) == OpticalDepthOfType(kext, media, path, Dust)
                                        + OpticalDepthOfType(kext, media, path, Electrons)
                                        + OpticalDepthOfType(kext, media, path, Gas)
  {
    var x := SegmentDepths(kext, path);
    var a, b, c := SegmentDepthsOfType(kext, media, path, Dust), SegmentDepthsOfType(kext, media, path, Electrons),
                   SegmentDepthsOfType(kext, media, path, Gas);
    forall i | 0 <= i < |x|
      ensures x[i] == a[i] + b[i] + c[i]
    {
      SegmentDepthByType(kext, media, path[i]);
    }
    SumOfThree(x, a, b, c);
    assert OpticalDepthOfType(kext, media, path, Dust) == Sum(a);
    assert OpticalDepthOfType(kext, media, path, Electrons) == Sum(b);
    assert OpticalDepthOfType(kext, media, path, Gas) == Sum(c);
  }

  /** The optical depth of one segment is the sum of those of the three material types. */
  lemma SegmentDepthByType(kext: seq<seq<real>>, media: seq<MaterialType>, seg: Segment)
    requires seg.m < |kext| && PerComponent(kext, media)
    ensures var row := kext[seg.m];
            SegmentDepth(kext, seg) == seg.ds * OpacityOfType(row, media, Dust) + seg.ds * OpacityOfType(row, media, Electrons)
                                       + seg.ds * OpacityOfType(row, media, Gas)
  {
    var row := kext[seg.m];
    OpacityByType(row, media);
    ScaleDistributes(seg.ds, Sum(row), OpacityOfType(row, media, Dust), OpacityOfType(row, media, Electrons),
                     OpacityOfType(row, media, Gas));
  }

  lemma ScaleDistributes(d: real, sum: real, a: real, b: real, c: real)
    requires sum == a + b + c
    ensures d * sum == d * a + d * b + d * c
  {
  }

  /** Segment lengths and opacities are never negative. */
  predicate Physical(kext: seq<seq<real>>, path: seq<Segment>) {
    && OnGrid(kext, path)
    && NonNegative(Lengths(path))
    && (forall m :: 0 <= m < |kext| ==> NonNegative(kext[m]))
  }

  /** The segments of a physical path have nonnegative optical depths. */
  lemma PhysicalDepths(kext: seq<seq<real>>, path: seq<Segment>)
    requires Physical(kext, path)
    ensures NonNegative(SegmentDepths(kext, path))
  {
    forall i | 0 <= i < |path|
      ensures SegmentDepths(kext, path)[i] >= 0.0
    {
      assert Lengths(path)[i] == path[i].ds;
      SumOfNonNegative(kext[path[i].m]);
      NonNegativeProduct(path[i].ds, Sum(kext[path[i].m]));
    }
  }

  lemma NonNegativeProduct(a: real, b: real)
    requires a >= 0.0 && b >= 0.0
    ensures a * b >= 0.0
  {
  }

  /** The running sums of `d` starting from `tau`: the value after each term. */
  function RunningSums(d: seq<real>, tau: real): (taus: seq<real>)
    ensures |taus| == |d|
  {
    if d == [] then [] else [tau + d[0]] + RunningSums(d[1..], tau + d[0])
  }

  /** setOpticalDepths(pp) (MediumSystem.hpp:313-340): the cumulative optical depth at the exit of
      each segment, the walk starting from optical depth zero at the entry of the first segment. */
  function CumulativeDepths(kext: seq<seq<real>>, path: seq<Segment>): (taus: seq<real>)
    requires OnGrid(kext, path)
    ensures |taus| == |path|
  {
    RunningSums(SegmentDepths(kext, path), 0.0)
  }

  lemma {:induction false} RunningIsPrefixSum(d: seq<real>, tau: real, i: nat)
    requires i < |d|
    ensures RunningSums(d, tau)[i] == tau + Sum(d[..i + 1])
  {
    if i == 0 {
      assert d[..1][1..] == [];
    } else {
      RunningIsPrefixSum(d[1..], tau + d[0], i - 1);
      assert d[..i + 1][1..] == d[1..][..i];
    }
  }

  /** The cumulative optical depth at the exit of segment `i` is the optical depth of the path up to
      and including that segment; at the exit of the last segment it is that of the whole path. */
  lemma CumulativeIsPrefixDepth(kext: seq<seq<real>>, path: seq<Segment>, i: nat)
    requires OnGrid(kext, path) && i < |path|
    ensures OnGrid(kext, path[..i + 1])
    ensures CumulativeDepths(kext, path)[i] == OpticalDepth(kext, path[..i + 1])
    ensures CumulativeDepths(kext, path)[|path| - 1] == OpticalDepth(kext, path)
  {
    var d := SegmentDepths(kext, path);
    RunningIsPrefixSum(d, 0.0, i);
    assert SegmentDepths(kext, path[..i + 1]) == d[..i + 1];
    RunningIsPrefixSum(d, 0.0, |path| - 1);
    assert d[..|path|] == d;
  }

  /** The values never drop below `lo` and never decrease. */
  predicate NondecreasingFrom(taus: seq<real>, lo: real) {
    forall i, j :: 0 <= i <= j < |taus| ==> lo <= taus[i] <= taus[j]
  }

  /** Running sums of nonnegative terms never drop below the start and never decrease. */
  lemma {:induction false} RunningNondecreasing(d: seq<real>, tau: real)
    requires NonNegative(d)
    ensures NondecreasingFrom(RunningSums(d, tau), tau)
  {
    if d != [] {
      var taus := RunningSums(d, tau);
      var rest := RunningSums(d[1..], tau + d[0]);
      assert d[0] >= 0.0 && NonNegative(d[1..]);
      RunningNondecreasing(d[1..], tau + d[0]);
      assert taus == [tau + d[0]] + rest;
      forall i, j | 0 <= i <= j < |taus|
        ensures tau <= taus[i] <= taus[j]
      {
        if i > 0 {
          assert taus[i] == rest[i - 1] && taus[j] == rest[j - 1];
        } else if j > 0 {
          assert taus[j] == rest[j - 1];
        }
      }
    }
  }

  /** Along a physical path the cumulative optical depth is nonnegative and nondecreasing. */
  lemma CumulativeNondecreasing(kext: seq<seq<real>>, path: seq<Segment>)
    requires Physical(kext, path)
    ensures NondecreasingFrom(CumulativeDepths(kext, path), 0.0)
  {
    PhysicalDepths(kext, path);
    RunningNondecreasing(SegmentDepths(kext, path), 0.0);
  }

  /** The interaction point found by setInteractionPoint: the segment in which it lies and its
      distance from the start of the path. */
  datatype Interaction = Interaction(segment: nat, distance: real)

  /** The point inside a segment of length `ds` with optical depth `dtau` that lies `over` short of
      its exit, in optical depth, when the exit lies at distance `sExit`. */
  function Interpolated(sExit: real, ds: real, over: real, dtau: real): real
    requires dtau != 0.0
  {
    sExit - over / dtau * ds
  }

  /** setInteractionPoint(pp, tauscat) (MediumSystem.hpp:342-359), continuing a walk that has reached
      optical depth `tau` at distance `s`, over segments with optical depths `d` and lengths
      `lengths`: the first segment whose exit optical depth exceeds `tauscat`, with the point inside
      it interpolated linearly in optical depth; None when the path ends before `tauscat` is
      reached. */
  function InteractionFrom(d: seq<real>, lengths: seq<real>, tau: real, s: real, tauscat: real)
    : (r: Option<Interaction>)
    requires |d| == |lengths| && tau <= tauscat
    ensures r.Some? ==> r.value.segment < |d|
  {
    if d == [] then None
    else
      var exit := tau + d[0];
      var sExit := s + lengths[0];
      if exit > tauscat then Some(Interaction(0, Interpolated(sExit, lengths[0], exit - tauscat, d[0])))
      else
        match InteractionFrom(d[1..], lengths[1..], exit, sExit, tauscat)
        case None => None
        case Some(p) => Some(Interaction(p.segment + 1, p.distance))
  }

  function SetInteractionPoint(kext: seq<seq<real>>, path: seq<Segment>, tauscat: real): (r: Option<Interaction>)
    requires OnGrid(kext, path) && tauscat >= 0.0
    ensures r.Some? ==> r.value.segment < |path|
    ensures path == [] ==> r.None?
  {
    InteractionFrom(SegmentDepths(kext, path), Lengths(path), 0.0, 0.0, tauscat)
  }

  /** No value exceeds `bound`. */
  predicate AllAtMost(taus: seq<real>, bound: real) {
    forall i :: 0 <= i < |taus| ==> taus[i] <= bound
  }

  lemma {:induction false} InteractionNone(d: seq<real>, lengths: seq<real>, tau: real, s: real, tauscat: real)
    requires |d| == |lengths| && tau <= tauscat
    ensures InteractionFrom(d, lengths, tau, s, tauscat).None? <==> AllAtMost(RunningSums(d, tau), tauscat)
  {
    if d != [] {
      var exit := tau + d[0];
      var taus := RunningSums(d, tau);
      var rest := RunningSums(d[1..], exit);
      assert taus == [exit] + rest;
      assert AllAtMost(taus, tauscat) <==> exit <= tauscat && AllAtMost(rest, tauscat) by {
        if exit <= tauscat && AllAtMost(rest, tauscat) {
          forall i | 0 <= i < |taus|
            ensures taus[i] <= tauscat
          {
            if i > 0 {
              assert taus[i] == rest[i - 1];
            }
          }
        }
        if AllAtMost(taus, tauscat) {
          assert taus[0] == exit;
          forall i | 0 <= i < |rest|
            ensures rest[i] <= tauscat
          {
            assert taus[i + 1] == rest[i];
          }
        }
      }
      if exit <= tauscat {
        InteractionNone(d[1..], lengths[1..], exit, s + lengths[0], tauscat);
      }
    }
  }

  lemma {:induction false} InteractionFirst(d: seq<real>, lengths: seq<real>, tau: real, s: real, tauscat: real)
    requires |d| == |lengths| && tau <= tauscat
    ensures var r := InteractionFrom(d, lengths, tau, s, tauscat);
            r.Some? ==> RunningSums(d, tau)[r.value.segment] > tauscat
                        && forall j :: 0 <= j < r.value.segment ==> RunningSums(d, tau)[j] <= tauscat
  {
    if d != [] {
      var exit := tau + d[0];
      var taus := RunningSums(d, tau);
      var rest := RunningSums(d[1..], exit);
      var r := InteractionFrom(d, lengths, tau, s, tauscat);
      assert taus == [exit] + rest;
      if exit <= tauscat && r.Some? {
        var r' := InteractionFrom(d[1..], lengths[1..], exit, s + lengths[0], tauscat);
        InteractionFirst(d[1..], lengths[1..], exit, s + lengths[0], tauscat);
        assert r.value.segment == r'.value.segment + 1;
        assert taus[r.value.segment] == rest[r'.value.segment];
        forall j | 0 <= j < r.value.segment
          ensures taus[j] <= tauscat
        {
          if j > 0 {
            assert taus[j] == rest[j - 1];
          }
        }
      }
    }
  }

  /** setInteractionPoint returns false exactly when no exit optical depth along the path exceeds
      the target; otherwise the interaction lies in the first segment whose exit optical depth does. */
  lemma SetInteractionPointFirstExceeding(kext: seq<seq<real>>, path: seq<Segment>, tauscat: real)
    requires OnGrid(kext, path) && tauscat >= 0.0
    ensures var taus := CumulativeDepths(kext, path);
            SetInteractionPoint(kext, path, tauscat).None? <==> AllAtMost(taus, tauscat)
    ensures var taus := CumulativeDepths(kext, path);
            var r := SetInteractionPoint(kext, path, tauscat);
            r.Some? ==> taus[r.value.segment] > tauscat
                        && forall j :: 0 <= j < r.value.segment ==> taus[j] <= tauscat
  {
    var d := SegmentDepths(kext, path);
    InteractionNone(d, Lengths(path), 0.0, 0.0, tauscat);
    InteractionFirst(d, Lengths(path), 0.0, 0.0, tauscat);
  }

  lemma {:induction false} InteractionInside(d: seq<real>, lengths: seq<real>, tau: real, s: real, tauscat: real)
    requires |d| == |lengths| && tau <= tauscat && NonNegative(lengths)
    ensures var r := InteractionFrom(d, lengths, tau, s, tauscat);
            r.Some? ==> s + Sum(lengths[..r.value.segment]) <= r.value.distance
                        <= s + Sum(lengths[..r.value.segment + 1])
  {
    if d != [] {
      var exit := tau + d[0];
      var sExit := s + lengths[0];
      var r := InteractionFrom(d, lengths, tau, s, tauscat);
      if exit > tauscat {
        assert lengths[..1][1..] == [];
        var f := (exit - tauscat) / d[0];
        FractionAtMostOne(exit - tauscat, d[0]);
        NonNegativeProduct(f, lengths[0]);
        FractionScalesDown(f, lengths[0]);
      } else {
        assert NonNegative(lengths[1..]);
        InteractionInside(d[1..], lengths[1..], exit, sExit, tauscat);
        if r.Some? {
          var k := r.value.segment;
          assert lengths[..k][1..] == lengths[1..][..k - 1];
          assert lengths[..k + 1][1..] == lengths[1..][..k];
        }
      }
    }
  }

  /** On a physical path the interaction point lies within its segment: at or after the segment's
      entry and at or before its exit. */
  lemma SetInteractionPointInsideSegment(kext: seq<seq<real>>, path: seq<Segment>, tauscat: real)
    requires Physical(kext, path) && tauscat >= 0.0
    ensures var r := SetInteractionPoint(kext, path, tauscat);
            r.Some? ==> PathLength(path[..r.value.segment]) <= r.value.distance
                        <= PathLength(path[..r.value.segment + 1])
  {
    var r := SetInteractionPoint(kext, path, tauscat);
    InteractionInside(SegmentDepths(kext, path), Lengths(path), 0.0, 0.0, tauscat);
    if r.Some? {
      var k := r.value.segment;
      assert Lengths(path[..k]) == Lengths(path)[..k];
      assert Lengths(path[..k + 1]) == Lengths(path)[..k + 1];
    }
  }

  lemma FractionAtMostOne(a: real, d: real)
    requires 0.0 < a <= d
    ensures 0.0 < a / d <= 1.0
  {
  }

  lemma FractionScalesDown(f: real, x: real)
    requires 0.0 <= f <= 1.0 && x >= 0.0
    ensures f * x <= x
  {
  }

  //============= Radiation-field tables =============

  /** The contents of the three radiation-field tables (MediumSystem.hpp:556-558), each stored as
      its bins (m, ell) flattened row after row: `rf1` from primary sources, `rf2` the stable table
      from secondary sources, `rf2c` the secondary table being accumulated. A table that is not
      present is empty. */
  datatype RadiationTables = RadiationTables(rf1: seq<real>, rf2: seq<real>, rf2c: seq<real>)

  /** Each table is absent or has one bin per cell and wavelength; the two secondary tables are
      present together. */
  predicate Shaped(t: RadiationTables, size: nat) {
    && (|t.rf1| == 0 || |t.rf1| == size)
    && (|t.rf2| == 0 || |t.rf2| == size)
    && |t.rf2c| == |t.rf2|
  }

  function Zeros(n: nat): (z: seq<real>)
    ensures |z| == n && forall b :: 0 <= b < n ==> z[b] == 0.0
  {
    seq(n, _ => 0.0)
  }

  /** clearRadiationField(primary) (MediumSystem.hpp:388-397) on the table contents. */
  function Cleared(t: RadiationTables, primary: bool): (r: RadiationTables)
    ensures |r.rf1| == |t.rf1| && |r.rf2| == |t.rf2| && |r.rf2c| == |t.rf2c|
    ensures primary ==> r.rf2c == t.rf2c && (forall b :: 0 <= b < |r.rf1| ==> r.rf1[b] == 0.0)
                        && (forall b :: 0 <= b < |r.rf2| ==> r.rf2[b] == 0.0)
    ensures !primary ==> r.rf1 == t.rf1 && r.rf2 == t.rf2 && forall b :: 0 <= b < |r.rf2c| ==> r.rf2c[b] == 0.0
  {
    if primary then t.(rf1 := Zeros(|t.rf1|), rf2 := Zeros(|t.rf2|))
    else t.(rf2c := Zeros(|t.rf2c|))
  }

  /** The table storeRadiationField(primary, ...) adds to. */
  function Target(t: RadiationTables, primary: bool): seq<real> {
    if primary then t.rf1 else t.rf2c
  }

  /** storeRadiationField(primary, m, ell, Lds) (MediumSystem.hpp:399-407) on the table contents,
      with `b` the flattened bin of (m, ell). */
  function Stored(t: RadiationTables, primary: bool, b: nat, lds: real): (r: RadiationTables)
    requires b < |Target(t, primary)|
    ensures |Target(r, primary)| == |Target(t, primary)|
    ensures Target(r, primary)[b] == Target(t, primary)[b] + lds
    ensures forall b' :: 0 <= b' < |Target(t, primary)| && b' != b ==> Target(r, primary)[b'] == Target(t, primary)[b']
    ensures r.rf2 == t.rf2 && (primary ==> r.rf2c == t.rf2c) && (!primary ==> r.rf1 == t.rf1)
  {
    if primary then t.(rf1 := t.rf1[b := t.rf1[b] + lds])
    else t.(rf2c := t.rf2c[b := t.rf2c[b] + lds])
  }

  /** communicateRadiationField(primary) (MediumSystem.hpp:409-415) in a single process, where
      accumulating over the processes leaves a table as it is: the secondary table being accumulated
      becomes the stable one. */
  function Communicated(t: RadiationTables, primary: bool): (r: RadiationTables)
    ensures r.rf1 == t.rf1 && r.rf2c == t.rf2c
    ensures r.rf2 == if primary then t.rf2 else t.rf2c
  {
    if primary then t else t.(rf2 := t.rf2c)
  }

  /** radiationField(m, ell) (MediumSystem.hpp:417-421) at flattened bin `b`: the primary plus the
      stable secondary contribution, an absent table counting as zero. */
  function Field(t: RadiationTables, size: nat, b: nat): (r: real)
    requires Shaped(t, size) && b < size
    ensures |t.rf1| == size && |t.rf2| == size ==> r == t.rf1[b] + t.rf2[b]
    ensures |t.rf1| == size && |t.rf2| == 0 ==> r == t.rf1[b]
    ensures |t.rf1| == 0 ==> r == (if |t.rf2| == 0 then 0.0 else t.rf2[b])
    ensures NonNegative(t.rf1) && NonNegative(t.rf2) ==> r >= 0.0
  {
    (if |t.rf1| == 0 then 0.0 else t.rf1[b]) + (if |t.rf2| == 0 then 0.0 else t.rf2[b])
  }

  /** The three operations keep every table's shape. */
  lemma OperationsKeepShape(t: RadiationTables, size: nat, primary: bool, b: nat, lds: real)
    requires Shaped(t, size)
    ensures Shaped(Cleared(t, primary), size) && Shaped(Communicated(t, primary), size)
    ensures b < |Target(t, primary)| ==> Shaped(Stored(t, primary, b, lds), size)
  {
  }

  /** Clearing the primary tables zeroes the radiation field; clearing the temporary secondary table
      leaves the radiation field as it was, so it stays available for secondary emission. */
  lemma ClearedField(t: RadiationTables, size: nat, b: nat)
    requires Shaped(t, size) && b < size
    ensures Field(Cleared(t, true), size, b) == 0.0
    ensures Field(Cleared(t, false), size, b) == Field(t, size, b)
    ensures Cleared(t, true).rf2c == t.rf2c
    ensures Cleared(t, false).rf1 == t.rf1 && Cleared(t, false).rf2 == t.rf2
  {
    assert Shaped(Cleared(t, true), size);
  }

  /** A primary contribution shows up in the radiation field at its own bin only; a secondary one
      does not show up until it is communicated. */
  lemma StoredField(t: RadiationTables, size: nat, primary: bool, b: nat, lds: real, b': nat)
    requires Shaped(t, size) && b < |Target(t, primary)| && b' < size
    ensures Shaped(Stored(t, primary, b, lds), size)
    ensures Field(Stored(t, primary, b, lds), size, b')
            == Field(t, size, b') + (if primary && b' == b then lds else 0.0)
  {
  }

  /** One contribution L * ds to a flattened bin. */
  datatype Deposit = Deposit(bin: nat, lds: real)

  /** The contributions all fall in bins of the target table. */
  predicate InTarget(t: RadiationTables, primary: bool, ds: seq<Deposit>) {
    forall i :: 0 <= i < |ds| ==> ds[i].bin < |Target(t, primary)|
  }

  /** A sequence of storeRadiationField calls, in order. */
  function StoredAll(t: RadiationTables, primary: bool, ds: seq<Deposit>): (r: RadiationTables)
    requires InTarget(t, primary, ds)
    ensures |Target(r, primary)| == |Target(t, primary)|
    ensures r.rf1 == t.rf1 || primary
    ensures r.rf2 == t.rf2
    ensures r.rf2c == t.rf2c || !primary
    decreases |ds|
  {
    if ds == [] then t
    else
      var t1 := Stored(t, primary, ds[0].bin, ds[0].lds);
      assert InTarget(t1, primary, ds[1..]);
      StoredAll(t1, primary, ds[1..])
  }

  /** The total of the contributions to bin `b`. */
  function Deposited(ds: seq<Deposit>, b: nat): real {
    if ds == [] then 0.0 else (if ds[0].bin == b then ds[0].lds else 0.0) + Deposited(ds[1..], b)
  }

  /** Each bin of the target table ends up holding what it held plus every contribution to it. */
  lemma {:induction false} StoredAllAdds(t: RadiationTables, primary: bool, ds: seq<Deposit>, b: nat)
    requires InTarget(t, primary, ds) && b < |Target(t, primary)|
    ensures Target(StoredAll(t, primary, ds), primary)[b] == Target(t, primary)[b] + Deposited(ds, b)
    decreases |ds|
  {
    if ds != [] {
      var t1 := Stored(t, primary, ds[0].bin, ds[0].lds);
      assert InTarget(t1, primary, ds[1..]);
      StoredAllAdds(t1, primary, ds[1..], b);
    }
  }

  /** A primary segment (clear, store, communicate) leaves in each bin of the radiation field exactly
      the primary contributions to it: the stable secondary table was cleared with the primary one. */
  lemma PrimarySegment(t: RadiationTables, size: nat, ds: seq<Deposit>, b: nat)
    requires Shaped(t, size) && |t.rf1| == size && b < size
    requires forall i :: 0 <= i < |ds| ==> ds[i].bin < size
    ensures var t1 := Cleared(t, true);
            InTarget(t1, true, ds) && Shaped(Communicated(StoredAll(t1, true, ds), true), size)
            && Field(Communicated(StoredAll(t1, true, ds), true), size, b) == Deposited(ds, b)
  {
    var t1 := Cleared(t, true);
    assert InTarget(t1, true, ds);
    StoredAllAdds(t1, true, ds, b);
    var t2 := Communicated(StoredAll(t1, true, ds), true);
    assert Shaped(t2, size);
  }

  /** A secondary segment (clear, store, communicate) replaces the stable secondary contribution in
      each bin by exactly the secondary contributions to it and keeps the primary one. */
  lemma SecondarySegment(t: RadiationTables, size: nat, ds: seq<Deposit>, b: nat)
    requires Shaped(t, size) && |t.rf2| == size && b < size
    requires forall i :: 0 <= i < |ds| ==> ds[i].bin < size
    ensures var t1 := Cleared(t, false);
            InTarget(t1, false, ds) && Shaped(Communicated(StoredAll(t1, false, ds), false), size)
            && Field(Communicated(StoredAll(t1, false, ds), false), size, b)
               == (if |t.rf1| == 0 then 0.0 else t.rf1[b]) + Deposited(ds, b)
  {
    var t1 := Cleared(t, false);
    assert InTarget(t1, false, ds);
    StoredAllAdds(t1, false, ds, b);
    var t2 := Communicated(StoredAll(t1, false, ds), false);
    assert Shaped(t2, size);
  }

  //============= The medium system =============

  /** The state store and the radiation-field tables of a medium system after setup. `density` holds
      the number density n of State2 for each cell m and medium h at m * numMedia + h
      (MediumSystem.hpp:509-514, 525-531, 544-546); the radiation-field tables are flattened in the same
      way over cells and wavelength bins. */
  class MediumSystem {
    const numCells: nat
    const numMedia: nat
    const numBins: nat
    const media: seq<MaterialType>
    const density: array<real>
    const rf1: array<real>
    const rf2: array<real>
    const rf2c: array<real>

    predicate Valid() {
      && |media| == numMedia
      && density.Length == numCells * numMedia
      && (rf1.Length == 0 || rf1.Length == numCells * numBins)
      && (rf2.Length == 0 || rf2.Length == numCells * numBins)
      && rf2c.Length == rf2.Length
      && rf1 != rf2 && rf1 != rf2c && rf2 != rf2c
      && density != rf1 && density != rf2 && density != rf2c
    }

    /** The contents of the radiation-field tables. */
    function Tables(): RadiationTables
      reads rf1, rf2, rf2c
    {
      RadiationTables(rf1[..], rf2[..], rf2c[..])
    }

    /** The allocation done in setupSelfAfter() (MediumSystem.hpp:99-105): every number density
        starts at zero (MediumSystem.hpp:513); the primary table is allocated when the radiation
        field is recorded, the secondary tables when secondary emission is too, all zeroed. */
    constructor (numCells: nat, media: seq<MaterialType>, numBins: nat, primary: bool, secondary: bool)
      ensures Valid() && this.numCells == numCells && this.media == media && this.numBins == numBins
      ensures forall k :: 0 <= k < density.Length ==> density[k] == 0.0
      ensures Tables() == RadiationTables(Zeros(if primary then numCells * numBins else 0),
                                          Zeros(if secondary then numCells * numBins else 0),
                                          Zeros(if secondary then numCells * numBins else 0))
    {
      this.numCells := numCells;
      numMedia := |media|;
      this.numBins := numBins;
      this.media := media;
      density := new real[numCells * |media|](_ => 0.0);
      var size1, size2 := if primary then numCells * numBins else 0, if secondary then numCells * numBins else 0;
      var t1 := new real[size1](_ => 0.0);
      var t2 := new real[size2](_ => 0.0);
      var t2c := new real[size2](_ => 0.0);
      assert t1[..] == Zeros(size1) && t2[..] == Zeros(size2) && t2c[..] == Zeros(size2);
      rf1, rf2, rf2c := t1, t2, t2c;
    }

    /** numberDensity(m, h), read through state(m, h) (MediumSystem.hpp:179-181, 529-531). */
    function NumberDensity(m: nat, h: nat): (n: real)
      requires Valid() && m < numCells && h < numMedia
      reads density
      ensures m * numMedia + h < density.Length && n == density[m * numMedia + h]
    {
      density[FlatIndex(m, h, numCells, numMedia)]
    }

    /** A write of n through the writable state(m, h) (MediumSystem.hpp:525-527), as done in
        setup: the pair (m, h) gets the new density and every other pair keeps its own. */
    method SetNumberDensity(m: nat, h: nat, n: real)
      requires Valid() && m < numCells && h < numMedia
      modifies density
      ensures NumberDensity(m, h) == n
      ensures forall m': nat, h': nat :: m' < numCells && h' < numMedia && (m', h') != (m, h)
                                 ==> NumberDensity(m', h') == old(NumberDensity(m', h'))
    {
      density[FlatIndex(m, h, numCells, numMedia)] := n;
      forall m': nat, h': nat | m' < numCells && h' < numMedia && (m', h') != (m, h)
        ensures NumberDensity(m', h') == old(NumberDensity(m', h'))
      {
        if FlatIndex(m', h', numCells, numMedia) == FlatIndex(m, h, numCells, numMedia) {
          FlatIndexInjective(m', h', m, h, numCells, numMedia);
        }
      }
    }

    /** clearRadiationField(primary) (MediumSystem.hpp:388-397). */
    method ClearRadiationField(primary: bool)
      requires Valid()
      modifies rf1, rf2, rf2c
      ensures Valid() && Tables() == Cleared(old(Tables()), primary)
    {
      if primary {
        forall b | 0 <= b < rf1.Length {
          rf1[b] := 0.0;
        }
        forall b | 0 <= b < rf2.Length {
          rf2[b] := 0.0;
        }
      } else {
        forall b | 0 <= b < rf2c.Length {
          rf2c[b] := 0.0;
        }
      }
    }

    /** storeRadiationField(primary, m, ell, Lds) (MediumSystem.hpp:399-407); the table it adds
        to must be present. */
    method StoreRadiationField(primary: bool, m: nat, ell: nat, lds: real)
      requires Valid() && m < numCells && ell < numBins
      requires if primary then rf1.Length > 0 else rf2c.Length > 0
      modifies rf1, rf2c
      ensures Valid()
      ensures FlatIndex(m, ell, numCells, numBins) < |Target(old(Tables()), primary)|
      ensures Tables() == Stored(old(Tables()), primary, FlatIndex(m, ell, numCells, numBins), lds)
    {
      var b := FlatIndex(m, ell, numCells, numBins);
      if primary {
        rf1[b] := rf1[b] + lds;
      } else {
        rf2c[b] := rf2c[b] + lds;
      }
    }

    /** communicateRadiationField(primary) (MediumSystem.hpp:409-415) in a single process. */
    method CommunicateRadiationField(primary: bool)
      requires Valid()
      modifies rf2
      ensures Valid() && Tables() == Communicated(old(Tables()), primary)
    {
      if !primary {
        forall b | 0 <= b < rf2.Length {
          rf2[b] := rf2c[b];
        }
      }
    }

    /** radiationField(m, ell) (MediumSystem.hpp:417-421). */
    function RadiationField(m: nat, ell: nat): (r: real)
      requires Valid() && m < numCells && ell < numBins
      reads rf1, rf2, rf2c
      ensures m * numBins + ell < numCells * numBins
      ensures r == (if rf1.Length == 0 then 0.0 else rf1[m * numBins + ell])
                   + (if rf2.Length == 0 then 0.0 else rf2[m * numBins + ell])
    {
      Field(Tables(), numCells * numBins, FlatIndex(m, ell, numCells, numBins))
    }
  }
}
