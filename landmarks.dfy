/** The landmark adapter of the gesture loop: the 21 hand landmarks, in the
    order the tracker reports them, are sorted by index into six groups (wrist,
    thumb, index, middle, ring, pinky), and the groups are then unpacked into the
    `pointK` table that the finger classifier reads. */
module Landmarks {
  import opened Wrappers

  /** A landmark in pixel coordinates. */
  datatype Point = Point(x: int, y: int)

  /** Landmarks of one hand: indices 0 to 20. */
  const LandmarkCount: nat := 21
  /** The wrist group followed by the five finger groups. */
  const GroupCount: nat := 6
  /** Points per finger group. */
  const FingerArity: nat := 4

  function Min(a: nat, b: nat): nat
  {
    if a <= b then a else b
  }

  /** Lowest landmark index of group g: 0 for the wrist, then 1, 5, 9, 13, 17. */
  function First(g: nat): nat
    requires g < GroupCount
  {
    if g == 0 then 0 else 4 * g - 3
  }

  /** One past the highest landmark index of group g: 1, 5, 9, 13, 17, 21. */
  function Limit(g: nat): nat
    requires g < GroupCount
  {
    4 * g + 1
  }

  /** The landmark index of the j-th point of group g. */
  function IndexOf(g: nat, j: nat): (k: nat)
    requires g < GroupCount && j < Limit(g) - First(g)
    ensures k < LandmarkCount
  {
    First(g) + j
  }

  /** The branch of the if/elif chain that a landmark index takes: the group it
      is appended to, or None for an index that no branch accepts. */
  function GroupOf(index: nat): (r: Option<nat>)
    ensures r.Some? <==> index < LandmarkCount
    ensures r.Some? ==> r.value < GroupCount && First(r.value) <= index < Limit(r.value)
  {
    if index == 0 then Some(0)
    else if 1 <= index <= 4 then Some(1)
    else if 5 <= index <= 8 then Some(2)
    else if 9 <= index <= 12 then Some(3)
    else if 13 <= index <= 16 then Some(4)
    else if 17 <= index <= 20 then Some(5)
    else None
  }

  /** The group that owns a valid landmark index. */
  function Owner(index: nat): (g: nat)
    requires index < LandmarkCount
    ensures g < GroupCount && First(g) <= index < Limit(g)
  {
    GroupOf(index).value
  }

  /** The index ranges of the six groups are disjoint: the chain sends an
      index to g exactly when it lies in g's range. */
  lemma GroupOfIff(index: nat, g: nat)
    requires g < GroupCount
    ensures GroupOf(index) == Some(g) <==> First(g) <= index < Limit(g)
  {
  }

  /** The points of `ps` that group g receives, in input order: the points whose
      position (the landmark index) the if/elif chain sends to g. */
  function Members(ps: seq<Point>, g: nat): seq<Point>
    decreases |ps|
  {
    if ps == [] then []
    else
      var n := |ps| - 1;
      Members(ps[..n], g) + (if GroupOf(n) == Some(g) then [ps[n]] else [])
  }

  /** The six lists `landmark_list` holds once every landmark has been visited. */
  function Regrouped(ps: seq<Point>): seq<seq<Point>>
  {
    seq(GroupCount, g requires 0 <= g < GroupCount => Members(ps, g))
  }

  /** The regrouping loop: six empty lists, then every landmark appended to the
      list of its group, skipping an index no branch accepts. */
  method Regroup(points: seq<Point>) returns (groups: seq<seq<Point>>)
    ensures groups == Regrouped(points)
    ensures |groups| == GroupCount
    ensures forall g :: 0 <= g < GroupCount ==>
              groups[g] == points[Min(First(g), |points|)..Min(Limit(g), |points|)]
  {
    groups := [[], [], [], [], [], []];
    for i := 0 to |points|
      invariant groups == Regrouped(points[..i])
    {
      var owner := GroupOf(i);
      ghost var before := groups;
      if owner.Some? {
        groups := groups[owner.value := groups[owner.value] + [points[i]]];
      }
      forall g | 0 <= g < GroupCount
        ensures groups[g] == Regrouped(points[..i + 1])[g]
      {
        assert points[..i + 1][..i] == points[..i];
        assert before[g] == Members(points[..i], g);
      }
    }
    assert points[..|points|] == points;
    RegroupedSlices(points);
  }

  /** Group g receives exactly the landmarks First(g) .. Limit(g) - 1 that are
      present, contiguous and in input order. */
  lemma {:induction false} MembersSlice(ps: seq<Point>, g: nat)
    requires g < GroupCount
    ensures Members(ps, g) == ps[Min(First(g), |ps|)..Min(Limit(g), |ps|)]
    decreases |ps|
  {
    if ps != [] {
      var n := |ps| - 1;
      var lo, hi := First(g), Limit(g);
      MembersSlice(ps[..n], g);
      GroupOfIff(n, g);
      SliceOfPrefix(ps, n, Min(lo, n), Min(hi, n));
      if lo <= n < hi {
        SliceSnoc(ps, lo, n);
      }
    }
  }

  lemma SliceOfPrefix<T>(s: seq<T>, n: nat, a: nat, b: nat)
    requires a <= b <= n <= |s|
    ensures s[..n][a..b] == s[a..b]
  {
  }

  lemma SliceSnoc<T>(s: seq<T>, lo: nat, n: nat)
    requires lo <= n < |s|
    ensures s[lo..n] + [s[n]] == s[lo..n + 1]
  {
  }

  lemma RegroupedSlices(ps: seq<Point>)
    ensures |Regrouped(ps)| == GroupCount
    ensures forall g :: 0 <= g < GroupCount ==>
              Regrouped(ps)[g] == ps[Min(First(g), |ps|)..Min(Limit(g), |ps|)]
  {
    forall g | 0 <= g < GroupCount
      ensures Regrouped(ps)[g] == ps[Min(First(g), |ps|)..Min(Limit(g), |ps|)]
    {
      MembersSlice(ps, g);
    }
  }

  /** The six groups, concatenated in order, give back the landmarks the chain
      accepts: all of them for a hand of at most 21, the first 21 otherwise. */
  lemma RegroupedConcat(ps: seq<Point>)
    ensures var gs := Regrouped(ps);
      gs[0] + gs[1] + gs[2] + gs[3] + gs[4] + gs[5] == ps[..Min(|ps|, LandmarkCount)]
  {
    RegroupedSlices(ps);
    var n := |ps|;
    var b1, b2, b3, b4, b5, b6 := Min(1, n), Min(5, n), Min(9, n), Min(13, n), Min(17, n), Min(21, n);
    SliceConcat(ps, 0, b1, b2);
    SliceConcat(ps, 0, b2, b3);
    SliceConcat(ps, 0, b3, b4);
    SliceConcat(ps, 0, b4, b5);
    SliceConcat(ps, 0, b5, b6);
  }

  lemma SliceConcat<T>(s: seq<T>, a: nat, b: nat, c: nat)
    requires a <= b <= c <= |s|
    ensures s[a..b] + s[b..c] == s[a..c]
  {
  }

  /** A full hand gives groups of sizes 1, 4, 4, 4, 4, 4, group g holding the
      landmarks First(g) .. Limit(g) - 1 in order. */
  lemma FullHandShape(ps: seq<Point>)
    requires |ps| >= LandmarkCount
    ensures |Regrouped(ps)[0]| == 1
    ensures forall g :: 1 <= g < GroupCount ==> |Regrouped(ps)[g]| == FingerArity
    ensures forall g :: 0 <= g < GroupCount ==> Regrouped(ps)[g] == ps[First(g)..Limit(g)]
  {
    RegroupedSlices(ps);
  }

  /** Why unpacking the groups fails: reading the first point of an empty
      wrist group, or a finger group that does not hold exactly four points
      for its four names. */
  datatype UnpackError = MissingWrist | WrongArity(group: nat, size: nat)

  /** The first finger group from g on whose size is not four. */
  function FirstMisfit(groups: seq<seq<Point>>, g: nat): (r: Option<nat>)
    requires |groups| == GroupCount && 1 <= g <= GroupCount
    ensures r.None? <==> forall h :: g <= h < GroupCount ==> |groups[h]| == FingerArity
    ensures r.Some? ==> g <= r.value < GroupCount && |groups[r.value]| != FingerArity
                        && forall h :: g <= h < r.value ==> |groups[h]| == FingerArity
    decreases GroupCount - g
  {
    if g == GroupCount then None
    else if |groups[g]| != FingerArity then Some(g)
    else FirstMisfit(groups, g + 1)
  }

  /** The positional unpack of the six groups and the `all_points` table
      built from them. Entry K of the table is the value under 'pointK'. */
  function AllPoints(groups: seq<seq<Point>>): (r: Result<seq<Point>, UnpackError>)
    requires |groups| == GroupCount
    ensures r == Failure(MissingWrist) <==> groups[0] == []
    ensures r.Success? <==> groups[0] != [] && forall h :: 1 <= h < GroupCount ==> |groups[h]| == FingerArity
    ensures r.Failure? && r.error.WrongArity? ==>
              var g := r.error.group;
              groups[0] != [] && 1 <= g < GroupCount && r.error.size == |groups[g]| != FingerArity
              && forall h :: 1 <= h < g ==> |groups[h]| == FingerArity
    ensures r.Success? ==> |r.value| == LandmarkCount
    ensures r.Success? ==> forall g, j :: 0 <= g < GroupCount && 0 <= j < Limit(g) - First(g) ==>
              r.value[IndexOf(g, j)] == groups[g][j]
  {
    if groups[0] == [] then Failure(MissingWrist)
    else
      match FirstMisfit(groups, 1)
      case Some(g) => Failure(WrongArity(g, |groups[g]|))
      case None => Success([groups[0][0]] + groups[1] + groups[2] + groups[3] + groups[4] + groups[5])
  }

  /** `pointK` is the K-th landmark: for a hand of 21 or more landmarks the
      unpack succeeds and its table is exactly the first 21 landmarks, in
      order. */
  lemma FullHandPoints(ps: seq<Point>)
    requires |ps| >= LandmarkCount
    ensures AllPoints(Regrouped(ps)) == Success(ps[..LandmarkCount])
  {
    var gs := Regrouped(ps);
    FullHandShape(ps);
    RegroupedConcat(ps);
    assert [gs[0][0]] == gs[0];
  }

  /** A hand with fewer than 21 landmarks cannot be unpacked: with none, the
      wrist group is empty; otherwise the group of the first missing index is
      the first one short of four points. */
  lemma ShortHandFails(ps: seq<Point>)
    requires |ps| < LandmarkCount
    ensures |ps| == 0 ==> AllPoints(Regrouped(ps)) == Failure(MissingWrist)
    ensures |ps| > 0 ==>
              var g := Owner(|ps|);
              AllPoints(Regrouped(ps)) == Failure(WrongArity(g, |ps| - First(g)))
  {
    var gs := Regrouped(ps);
    var n := |ps|;
    GroupSizes(ps);
    if n > 0 {
      var g := Owner(n);
      assert |gs[g]| == n - First(g);
      FirstMisfitIs(gs, g);
    }
  }

  /** The sizes of the six groups: how many indices of each range are present. */
  lemma GroupSizes(ps: seq<Point>)
    ensures |Regrouped(ps)| == GroupCount
    ensures forall g :: 0 <= g < GroupCount ==>
              |Regrouped(ps)[g]| == Min(Limit(g), |ps|) - Min(First(g), |ps|)
  {
    RegroupedSlices(ps);
  }

  lemma FirstMisfitIs(groups: seq<seq<Point>>, g: nat)
    requires |groups| == GroupCount && 1 <= g < GroupCount
    requires forall h :: 1 <= h < g ==> |groups[h]| == FingerArity
    requires |groups[g]| != FingerArity
    ensures FirstMisfit(groups, 1) == Some(g)
  {
    assert FirstMisfit(groups, 1).Some?;
  }
}
