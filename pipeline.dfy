/** One pass of the frame loop once the tracker has run: regroup the hand's
    landmarks, unpack them into the `pointK` table, resolve a gesture label
    from the table, and fold that label into the stabilizer window. The finger
    classifier and gesture resolver are not part of this model; `resolve`
    stands for the two of them together. */
module Pipeline {
  import opened Wrappers
  import opened Landmarks
  import opened Stabilizer

  /** One frame. Without a hand nothing happens; with one, the landmarks are
      regrouped and unpacked, and an unpack error stops the frame before the
      window is touched; otherwise the resolved label shifts the window and
      the frame reports the window's confirmation. */
  method ProcessFrame(window: Window, hand: Option<seq<Point>>, resolve: seq<Point> -> string)
    returns (r: Result<Option<string>, UnpackError>)
    requires window.Valid()
    modifies window
    ensures window.Valid()
    ensures hand.None? ==> r == Success(None) && window.states == old(window.states)
    ensures hand.Some? ==>
              match AllPoints(Regrouped(hand.value))
              case Failure(e) => r == Failure(e) && window.states == old(window.states)
              case Success(table) =>
                window.states == Shift(old(window.states), resolve(table))
                && r == Success(Confirmation(window.states))
    ensures hand.Some? && |hand.value| >= LandmarkCount ==>
              r.Success? && window.states == Shift(old(window.states), resolve(hand.value[..LandmarkCount]))
    ensures hand.Some? && |hand.value| < LandmarkCount ==> r.Failure? && window.states == old(window.states)
  {
    if hand.None? {
      r := Success(None);
      return;
    }
    var points := hand.value;
    var groups := Regroup(points);
    var unpacked := AllPoints(groups);
    if unpacked.Failure? {
      if |points| >= LandmarkCount {
        FullHandPoints(points);
        assert false;
      }
      r := Failure(unpacked.error);
      return;
    }
    var table := unpacked.value;
    if |points| >= LandmarkCount {
      FullHandPoints(points);
    } else {
      ShortHandFails(points);
      assert false;
    }
    var current := resolve(table);
    var confirmed := window.Step(Some(current));
    r := Success(confirmed);
  }
}
