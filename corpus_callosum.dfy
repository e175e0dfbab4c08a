/**
  The corpus-callosum resolver of the relabeling script: every voxel carrying
  one of the five corpus-callosum labels is reassigned to left (2) or right
  (41) cerebral white matter, according to which side of its column's
  midline it lies on. A column is the line of voxels (x, y, z) with the same
  (y, z); its midline is the mean x of the column's corpus-callosum voxels,
  truncated to an integer. A voxel exactly on the midline takes a random side.
*/
module CorpusCallosum {
  import opened Volumes

  /** CC_Posterior, CC_Mid_Posterior, CC_Central, CC_Mid_Anterior, CC_Anterior. */
  const CorpusCallosumLabels: set<int> := {251, 252, 253, 254, 255}

  const LeftWhiteMatter: int := 2
  const RightWhiteMatter: int := 41

  /** The x-coordinates, in increasing order, of the corpus-callosum voxels among the first `n` of a column. */
  function CallosalXsBelow(col: seq<int>, n: nat): (xs: seq<nat>)
    requires n <= |col|
    ensures forall i :: 0 <= i < |xs| ==> xs[i] < n && col[xs[i]] in CorpusCallosumLabels
    ensures forall i, j :: 0 <= i < j < |xs| ==> xs[i] < xs[j]
  {
    if n == 0 then []
    else if col[n - 1] in CorpusCallosumLabels then CallosalXsBelow(col, n - 1) + [n - 1]
    else CallosalXsBelow(col, n - 1)
  }

  /** Every corpus-callosum voxel among the first `n` is listed. */
  lemma {:induction false} CallosalXsBelowComplete(col: seq<int>, n: nat, x: int)
    requires n <= |col| && 0 <= x < n && col[x] in CorpusCallosumLabels
    ensures x in CallosalXsBelow(col, n)
  {
    if x < n - 1 {
      CallosalXsBelowComplete(col, n - 1, x);
    }
  }

  /** The x-coordinates of all corpus-callosum voxels of a column (`x_values` of the script). */
  function CallosalXs(col: seq<int>): seq<nat> {
    CallosalXsBelow(col, |col|)
  }

  function Sum(xs: seq<nat>): nat {
    if xs == [] then 0 else Sum(xs[..|xs| - 1]) + xs[|xs| - 1]
  }

  /** `int(np.mean(xs))`: the mean of non-negative coordinates, truncated. */
  function MeanX(xs: seq<nat>): nat
    requires xs != []
  {
    Sum(xs) / |xs|
  }

  /** The midline of a column that holds at least one corpus-callosum voxel. */
  function Midline(col: seq<int>): nat
    requires CallosalXs(col) != []
  {
    MeanX(CallosalXs(col))
  }

  /**
    The side chosen for a corpus-callosum voxel at `x` when the midline is `m`;
    `zeroDrawn` is the outcome of the script's `random.randint(0, 1) == 0`.
  */
  function SideLabel(x: int, m: int, zeroDrawn: bool): int {
    if x == m then (if zeroDrawn then LeftWhiteMatter else RightWhiteMatter)
    else if x >= m then LeftWhiteMatter
    else RightWhiteMatter
  }

  /** The label of voxel `x` of a column once the resolver has run. */
  function Resolve(col: seq<int>, x: int, zeroDrawn: bool): int
    requires 0 <= x < |col|
  {
    if col[x] in CorpusCallosumLabels then
      CallosalXsBelowComplete(col, |col|, x);
      SideLabel(x, Midline(col), zeroDrawn)
    else col[x]
  }

  // ----- Properties of the resolved labels -----

  /**
    No corpus-callosum label survives: each one becomes left or right white
    matter, and every other label is left as it was.
  */
  lemma ResolveClearsCorpusCallosum(col: seq<int>, x: int, zeroDrawn: bool)
    requires 0 <= x < |col|
    ensures Resolve(col, x, zeroDrawn) !in CorpusCallosumLabels
    ensures col[x] in CorpusCallosumLabels ==>
      Resolve(col, x, zeroDrawn) == LeftWhiteMatter || Resolve(col, x, zeroDrawn) == RightWhiteMatter
    ensures col[x] !in CorpusCallosumLabels ==> Resolve(col, x, zeroDrawn) == col[x]
  {
  }

  /**
    The side rule: a corpus-callosum voxel beyond the midline goes left, one
    before it goes right, and one on it goes wherever the coin sends it. The
    script's `x >= m` test is reached only when `x != m`, so it acts as `x > m`.
  */
  lemma SideRule(col: seq<int>, x: int, zeroDrawn: bool)
    requires 0 <= x < |col| && col[x] in CorpusCallosumLabels
    ensures CallosalXs(col) != []
    ensures x > Midline(col) ==> Resolve(col, x, zeroDrawn) == LeftWhiteMatter
    ensures x < Midline(col) ==> Resolve(col, x, zeroDrawn) == RightWhiteMatter
    ensures x == Midline(col) ==> Resolve(col, x, zeroDrawn) == (if zeroDrawn then LeftWhiteMatter else RightWhiteMatter)
  {
    CallosalXsBelowComplete(col, |col|, x);
  }

  /**
    Along a column the two sides do not interleave: once a corpus-callosum
    voxel is sent left, every corpus-callosum voxel further along x is too,
    whatever the coin says.
  */
  lemma SidesDoNotInterleave(col: seq<int>, x1: int, x2: int, c1: bool, c2: bool)
    requires 0 <= x1 < x2 < |col|
    requires col[x1] in CorpusCallosumLabels && col[x2] in CorpusCallosumLabels
    ensures Resolve(col, x1, c1) == LeftWhiteMatter ==> Resolve(col, x2, c2) == LeftWhiteMatter
    ensures Resolve(col, x2, c2) == RightWhiteMatter ==> Resolve(col, x1, c1) == RightWhiteMatter
  {
  }

  lemma {:induction false} SumBounds(xs: seq<nat>, lo: int, hi: int)
    requires forall i :: 0 <= i < |xs| ==> lo <= xs[i] <= hi
    ensures |xs| * lo <= Sum(xs) <= |xs| * hi
  {
    if xs != [] {
      var init, n := xs[..|xs| - 1], |xs| - 1;
      SumBounds(init, lo, hi);
      assert Sum(xs) == Sum(init) + xs[n];
      MulSucc(n, lo);
      MulSucc(n, hi);
    }
  }

  lemma MulSucc(n: int, a: int)
    ensures (n + 1) * a == n * a + a
  {
  }

  lemma {:induction false} SumBelowBound(xs: seq<nat>, hi: int, j: int)
    requires forall i :: 0 <= i < |xs| ==> xs[i] <= hi
    requires 0 <= j < |xs| && xs[j] < hi
    ensures Sum(xs) < |xs| * hi
  {
    var init, n := xs[..|xs| - 1], |xs| - 1;
    assert Sum(xs) == Sum(init) + xs[n];
    MulSucc(n, hi);
    if j == n {
      SumBounds(init, 0, hi);
    } else {
      SumBelowBound(init, hi, j);
    }
  }

  lemma FactorOrder(a: int, b: int, n: int)
    requires n > 0 && n * a < n * b
    ensures a < b
  {
  }

  lemma QuotientBounds(s: int, n: int, lo: int, hi: int)
    requires n > 0 && n * lo <= s <= n * hi
    ensures lo <= s / n <= hi
    ensures s < n * hi ==> s / n < hi
  {
    var q := s / n;
    assert q * n <= s < (q + 1) * n;
    FactorOrder(lo, q + 1, n);
    FactorOrder(q, hi + 1, n);
    if s < n * hi {
      FactorOrder(q, hi, n);
    }
  }

  /**
    The midline lies between the first and the last corpus-callosum voxel of
    the column, and strictly before the last one when there are at least two.
  */
  lemma MidlineWithinExtent(col: seq<int>, lo: int, hi: int)
    requires 0 <= lo < |col| && 0 <= hi < |col|
    requires col[lo] in CorpusCallosumLabels && col[hi] in CorpusCallosumLabels
    requires forall x :: 0 <= x < |col| && col[x] in CorpusCallosumLabels ==> lo <= x <= hi
    ensures CallosalXs(col) != []
    ensures lo <= Midline(col) <= hi
    ensures lo < hi ==> Midline(col) < hi
  {
    var xs := CallosalXs(col);
    CallosalXsBelowComplete(col, |col|, lo);
    SumBounds(xs, lo, hi);
    if lo < hi {
      var j :| 0 <= j < |xs| && xs[j] == lo;
      SumBelowBound(xs, hi, j);
    }
    QuotientBounds(Sum(xs), |xs|, lo, hi);
  }

  /**
    In a column with two or more corpus-callosum voxels the last one along x
    always becomes left white matter, and the first one never does unless it
    sits on the midline.
  */
  lemma OutermostVoxels(col: seq<int>, lo: int, hi: int, zeroDrawn: bool)
    requires 0 <= lo < hi < |col|
    requires col[lo] in CorpusCallosumLabels && col[hi] in CorpusCallosumLabels
    requires forall x :: 0 <= x < |col| && col[x] in CorpusCallosumLabels ==> lo <= x <= hi
    ensures CallosalXs(col) != []
    ensures Resolve(col, hi, zeroDrawn) == LeftWhiteMatter
    ensures lo != Midline(col) ==> Resolve(col, lo, zeroDrawn) == RightWhiteMatter
  {
    MidlineWithinExtent(col, lo, hi);
  }

  /**
    A column with a single corpus-callosum voxel has its midline on that
    voxel, which therefore always takes the random branch.
  */
  lemma SingleVoxelColumnTies(col: seq<int>, x: int, zeroDrawn: bool)
    requires 0 <= x < |col| && col[x] in CorpusCallosumLabels
    requires forall x' :: 0 <= x' < |col| && x' != x ==> col[x'] !in CorpusCallosumLabels
    ensures CallosalXs(col) != []
    ensures Midline(col) == x
    ensures Resolve(col, x, zeroDrawn) == (if zeroDrawn then LeftWhiteMatter else RightWhiteMatter)
  {
    MidlineWithinExtent(col, x, x);
  }

  /**
    Because the midline is truncated toward zero, a column whose only two
    corpus-callosum voxels are neighbours has its midline on the first of
    them: the second goes left, the first follows the coin, and the whole
    pair can end up left white matter.
  */
  lemma NeighbouringPairMayBeAllLeft(col: seq<int>, x: int)
    requires 0 <= x && x + 1 < |col|
    requires col[x] in CorpusCallosumLabels && col[x + 1] in CorpusCallosumLabels
    requires forall x' :: 0 <= x' < |col| && x' != x && x' != x + 1 ==> col[x'] !in CorpusCallosumLabels
    ensures CallosalXs(col) != []
    ensures Midline(col) == x
    ensures Resolve(col, x + 1, false) == LeftWhiteMatter && Resolve(col, x + 1, true) == LeftWhiteMatter
    ensures Resolve(col, x, true) == LeftWhiteMatter
  {
    MidlineWithinExtent(col, x, x + 1);
  }

  /** The x-coordinates of a ten-voxel column whose corpus-callosum voxels sit at 0, 1, 4 and 9. */
  lemma CallosalXsOfSparseColumn(col: seq<int>)
    requires |col| == 10
    requires forall x | 0 <= x < 10 :: col[x] in CorpusCallosumLabels <==> x == 0 || x == 1 || x == 4 || x == 9
    ensures CallosalXs(col) == [0, 1, 4, 9]
  {
    assert CallosalXsBelow(col, 0) == [];
    assert CallosalXsBelow(col, 1) == [0];
    assert CallosalXsBelow(col, 2) == [0, 1];
    assert CallosalXsBelow(col, 3) == [0, 1];
    assert CallosalXsBelow(col, 4) == [0, 1];
    assert CallosalXsBelow(col, 5) == [0, 1, 4];
    for n := 5 to 9
      invariant CallosalXsBelow(col, n) == [0, 1, 4]
    {
      assert col[n] !in CorpusCallosumLabels;
    }
  }

  /**
    The midline is the mean of the corpus-callosum coordinates, not the
    middle of their extent: with voxels at x = 0, 1, 4 and 9 the mean is
    14/4, truncated to 3, while the middle of the extent would be 4. The
    voxel at x = 4 therefore always goes left instead of taking the random
    branch, and the one at x = 1 goes right.
  */
  lemma MeanIsNotMidpoint(col: seq<int>, zeroDrawn: bool)
    requires |col| == 10
    requires forall x | 0 <= x < 10 :: col[x] in CorpusCallosumLabels <==> x == 0 || x == 1 || x == 4 || x == 9
    ensures CallosalXs(col) != []
    ensures Midline(col) == 3
    ensures Resolve(col, 4, zeroDrawn) == LeftWhiteMatter && Resolve(col, 1, zeroDrawn) == RightWhiteMatter
  {
    CallosalXsOfSparseColumn(col);
    var xs := [0, 1, 4, 9];
    assert xs[..3] == [0, 1, 4] && [0, 1, 4][..2] == [0, 1] && [0, 1][..1] == [0];
    assert Sum(xs) == 14;
  }

  /** The x-coordinates of a six-voxel column whose corpus-callosum voxels sit at 2, 3, 4 and 5. */
  lemma CallosalXsOfFourVoxelColumn(col: seq<int>)
    requires |col| == 6
    requires forall x | 0 <= x < 6 :: col[x] in CorpusCallosumLabels <==> 2 <= x
    ensures CallosalXs(col) == [2, 3, 4, 5]
  {
    assert CallosalXsBelow(col, 0) == [];
    assert CallosalXsBelow(col, 1) == [];
    assert CallosalXsBelow(col, 2) == [];
    assert CallosalXsBelow(col, 3) == [2];
    assert CallosalXsBelow(col, 4) == [2, 3];
    assert CallosalXsBelow(col, 5) == [2, 3, 4];
  }

  /**
    A column whose corpus-callosum voxels sit at x = 2, 3, 4 and 5 has its
    midline at 3: the voxel at 2 goes right, those at 4 and 5 go left, and
    the one at 3 follows the coin.
  */
  lemma FourVoxelColumn(col: seq<int>, zeroDrawn: bool)
    requires |col| == 6
    requires forall x | 0 <= x < 6 :: col[x] in CorpusCallosumLabels <==> 2 <= x
    ensures CallosalXs(col) != []
    ensures Midline(col) == 3
    ensures Resolve(col, 2, zeroDrawn) == RightWhiteMatter
    ensures Resolve(col, 3, zeroDrawn) == (if zeroDrawn then LeftWhiteMatter else RightWhiteMatter)
    ensures Resolve(col, 4, zeroDrawn) == LeftWhiteMatter && Resolve(col, 5, zeroDrawn) == LeftWhiteMatter
  {
    CallosalXsOfFourVoxelColumn(col);
    var xs := [2, 3, 4, 5];
    assert xs[..3] == [2, 3, 4] && [2, 3, 4][..2] == [2, 3] && [2, 3][..1] == [2];
    assert Sum(xs) == 14;
  }

  // ----- The resolver itself -----

  /** `np.where(np.isin(fdata, [251, ..., 255]))`: the coordinates of the corpus-callosum voxels. */
  function CallosalVoxels(fdata: array3<int>): (cc: set<(int, int, int)>)
    reads fdata
    ensures forall v | v in cc :: InBounds(fdata, v.0, v.1, v.2) && fdata[v.0, v.1, v.2] in CorpusCallosumLabels
    ensures forall x, y, z | InBounds(fdata, x, y, z) && fdata[x, y, z] in CorpusCallosumLabels :: (x, y, z) in cc
  {
    set x, y, z | 0 <= x < fdata.Length0 && 0 <= y < fdata.Length1 && 0 <= z < fdata.Length2
                  && fdata[x, y, z] in CorpusCallosumLabels :: (x, y, z)
  }

  /** The (y, z) columns of a set of voxels: each holds one of them. */
  function Columns(voxels: set<(int, int, int)>): (yz: set<(int, int)>)
    ensures forall v | v in voxels :: (v.1, v.2) in yz
    ensures forall p | p in yz :: exists v | v in voxels :: p == (v.1, v.2)
  {
    set v | v in voxels :: (v.1, v.2)
  }

  /** Every column of a corpus-callosum voxel lies in the volume and has a midline. */
  lemma CallosalColumnsHaveMidline(fdata: array3<int>)
    ensures forall p | p in Columns(CallosalVoxels(fdata)) ::
      0 <= p.0 < fdata.Length1 && 0 <= p.1 < fdata.Length2 && CallosalXs(Column(fdata, p.0, p.1)) != []
  {
    var ccIndices := CallosalVoxels(fdata);
    forall p | p in Columns(ccIndices)
      ensures 0 <= p.0 < fdata.Length1 && 0 <= p.1 < fdata.Length2
      ensures CallosalXs(Column(fdata, p.0, p.1)) != []
    {
      var v :| v in ccIndices && p == (v.1, v.2);
      CallosalXsBelowComplete(Column(fdata, p.0, p.1), fdata.Length0, v.0);
    }
  }

  /** The first loop of the resolver: `y_z_to_mean_x`, the truncated mean x of each given column. */
  method ColumnMeans(fdata: array3<int>, yzPairs: set<(int, int)>) returns (yzToMeanX: map<(int, int), int>)
    requires forall p | p in yzPairs ::
      0 <= p.0 < fdata.Length1 && 0 <= p.1 < fdata.Length2 && CallosalXs(Column(fdata, p.0, p.1)) != []
    ensures yzToMeanX.Keys == yzPairs
    ensures forall p | p in yzPairs :: yzToMeanX[p] == Midline(Column(fdata, p.0, p.1))
  {
    yzToMeanX := map[];
    var pending := yzPairs;
    while pending != {}
      invariant pending <= yzPairs
      invariant yzToMeanX.Keys == yzPairs - pending
      invariant forall p | p in yzToMeanX :: yzToMeanX[p] == Midline(Column(fdata, p.0, p.1))
      decreases pending
    {
      var p :| p in pending;
      var xValues := CallosalXs(Column(fdata, p.0, p.1));
      yzToMeanX := yzToMeanX[p := MeanX(xValues)];
      pending := pending - {p};
    }
  }

  /**
    The second loop of the resolver: each listed voxel receives the side its
    column's mean gives it; every other voxel is left alone.
  */
  method ApplySides(fdata: array3<int>, coin: (int, int, int) -> bool,
                    ccIndices: set<(int, int, int)>, yzToMeanX: map<(int, int), int>)
    requires forall v | v in ccIndices :: InBounds(fdata, v.0, v.1, v.2) && (v.1, v.2) in yzToMeanX
    modifies fdata
    ensures forall x, y, z | InBounds(fdata, x, y, z) ::
      fdata[x, y, z] == if (x, y, z) in ccIndices then SideLabel(x, yzToMeanX[(y, z)], coin(x, y, z))
                        else old(fdata[x, y, z])
  {
    var remaining := ccIndices;
    while remaining != {}
      invariant remaining <= ccIndices
      invariant forall x, y, z | InBounds(fdata, x, y, z) ::
        fdata[x, y, z] == if (x, y, z) in ccIndices - remaining then SideLabel(x, yzToMeanX[(y, z)], coin(x, y, z))
                          else old(fdata[x, y, z])
      decreases remaining
    {
      var v :| v in remaining;
      var x, y, z := v.0, v.1, v.2;
      var m := yzToMeanX[(y, z)];
      var newLabel: int;
      if x == m {
        newLabel := if coin(x, y, z) then LeftWhiteMatter else RightWhiteMatter;
      } else if x >= m {
        newLabel := LeftWhiteMatter;
      } else {
        newLabel := RightWhiteMatter;
      }
      fdata[x, y, z] := newLabel;
      remaining := remaining - {v};
    }
  }

  /**
    `correct_corpus_callosum`: collect the corpus-callosum voxels, compute the
    truncated mean x of each column that has any, then rewrite each of those
    voxels in place. `coin(x, y, z)` is the outcome of the random draw made
    for voxel (x, y, z) when it lies on its column's midline.
  */
  method CorrectCorpusCallosum(fdata: array3<int>, coin: (int, int, int) -> bool)
    modifies fdata
    ensures forall x, y, z | InBounds(fdata, x, y, z) ::
      fdata[x, y, z] == Resolve(old(Column(fdata, y, z)), x, coin(x, y, z))
  {
    var ccIndices := CallosalVoxels(fdata);
    var yzPairs := Columns(ccIndices);
    CallosalColumnsHaveMidline(fdata);
    var yzToMeanX := ColumnMeans(fdata, yzPairs);
    ApplySides(fdata, coin, ccIndices, yzToMeanX);
    forall x, y, z | InBounds(fdata, x, y, z)
      ensures fdata[x, y, z] == Resolve(old(Column(fdata, y, z)), x, coin(x, y, z))
    {
      assert old(Column(fdata, y, z))[x] == old(fdata[x, y, z]);
    }
  }
}
