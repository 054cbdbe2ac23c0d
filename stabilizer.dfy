/** The temporal stabilizer of the gesture loop: `recent_states`, a window of
    the last 30 gesture labels, shifted by one on every frame in which a hand
    is detected, and reporting a gesture only while all 30 entries agree.
    Labels come from a resolver that is not part of this model, so they are
    plain strings here. */
module Stabilizer {
  import opened Wrappers

  /** Frames the window remembers. */
  const Capacity: nat := 30
  /** The label that fills the window before any hand has been seen. */
  const Sentinel: string := ""

  /** The window at start-up: thirty sentinels. */
  function InitialWindow(): seq<string>
  {
    seq(Capacity, _ => Sentinel)
  }

  /** One frame's update: the oldest label leaves at the front, the newest
      enters at the back. */
  function Shift(w: seq<string>, current: string): (r: seq<string>)
    requires w != []
    ensures |r| == |w| && r[|r| - 1] == current
    ensures forall i :: 0 <= i < |w| - 1 ==> r[i] == w[i + 1]
  {
    w[1..] + [current]
  }

  /** The uniformity test of the source: the set of labels in the window has
      exactly one element. */
  predicate AllSame(w: seq<string>)
  {
    |set x | x in w| == 1
  }

  /** A window is uniform when it is not empty and every entry equals the
      first one; this is what "one distinct label" means. */
  lemma {:induction false} AllSameIff(w: seq<string>)
    ensures AllSame(w) <==> w != [] && forall i :: 0 <= i < |w| ==> w[i] == w[0]
  {
    var labels := set x | x in w;
    if w == [] {
      assert labels == {};
    } else if forall i :: 0 <= i < |w| ==> w[i] == w[0] {
      assert labels == {w[0]};
    } else {
      var i :| 0 <= i < |w| && w[i] != w[0];
      assert w[0] in labels;
      assert w[i] in labels - {w[0]};
      assert |labels - {w[0]}| == |labels| - 1;
    }
  }

  /** The gesture the window confirms: its common label when the window is
      uniform, nothing otherwise. */
  function Confirmation(w: seq<string>): (r: Option<string>)
    ensures r.Some? <==> w != [] && forall i :: 0 <= i < |w| ==> w[i] == w[0]
    ensures r.Some? ==> forall i :: 0 <= i < |w| ==> w[i] == r.value
  {
    AllSameIff(w);
    if AllSame(w) then Some(w[0]) else None
  }

  /** The window after a run of detected labels, oldest first. */
  function Feed(w: seq<string>, labels: seq<string>): (r: seq<string>)
    requires w != []
    ensures |r| == |w|
    decreases |labels|
  {
    if labels == [] then w
    else Shift(Feed(w, labels[..|labels| - 1]), labels[|labels| - 1])
  }

  /** The window always holds the latest |w| labels of the history: the
      starting window followed by everything fed since. */
  lemma {:induction false} FeedKeepsLatest(w: seq<string>, labels: seq<string>)
    requires w != []
    ensures Feed(w, labels) == (w + labels)[|labels|..]
    decreases |labels|
  {
    if labels != [] {
      var n := |labels| - 1;
      FeedKeepsLatest(w, labels[..n]);
      assert w + labels == (w + labels[..n]) + [labels[n]];
    }
  }

  /** After a run of labels, a gesture l is confirmed exactly when every
      entry of the latest |w| of the history equals l. */
  lemma ConfirmedIffHistoryAgrees(w: seq<string>, labels: seq<string>, l: string)
    requires w != []
    ensures Confirmation(Feed(w, labels)) == Some(l)
            <==> forall i :: |labels| <= i < |labels| + |w| ==> (w + labels)[i] == l
  {
    FeedKeepsLatest(w, labels);
    var r := Feed(w, labels);
    assert forall i :: 0 <= i < |w| ==> r[i] == (w + labels)[|labels| + i];
    if forall i :: |labels| <= i < |labels| + |w| ==> (w + labels)[i] == l {
      assert forall i :: 0 <= i < |w| ==> r[i] == l;
    }
  }

  /** Once thirty or more labels have been fed, the window confirms l exactly
      when the last thirty labels are all l: one differing label among them
      prevents confirmation. */
  lemma ConfirmedIffLastThirtyAgree(w: seq<string>, labels: seq<string>, l: string)
    requires |w| == Capacity && |labels| >= Capacity
    ensures Confirmation(Feed(w, labels)) == Some(l)
            <==> forall i :: |labels| - Capacity <= i < |labels| ==> labels[i] == l
  {
    ConfirmedIffHistoryAgrees(w, labels, l);
    var n := |labels|;
    if forall i :: n - Capacity <= i < n ==> labels[i] == l {
      assert forall i :: n <= i < n + |w| ==> (w + labels)[i] == labels[i - |w|] == l;
    } else {
      var i :| n - Capacity <= i < n && labels[i] != l;
      assert (w + labels)[i + |w|] == labels[i];
    }
  }

  /** Two different labels among the last thirty updates rule confirmation
      out, whatever the window held before them. */
  lemma DifferingLabelBlocks(w: seq<string>, labels: seq<string>, i: nat, j: nat)
    requires |w| == Capacity
    requires |labels| - Capacity <= i < |labels| && |labels| - Capacity <= j < |labels|
    requires labels[i] != labels[j]
    ensures Confirmation(Feed(w, labels)) == None
  {
    FeedKeepsLatest(w, labels);
    var r, n := Feed(w, labels), |labels|;
    assert r[i + Capacity - n] == labels[i];
    assert r[j + Capacity - n] == labels[j];
  }

  /** Confirmation latency: starting from the sentinel window and feeding a
      label l other than the sentinel k times, l is first confirmed on the
      thirtieth update and stays confirmed; before that nothing is. Feeding
      the sentinel itself keeps the window uniform, so it is confirmed at
      once. */
  lemma FirstConfirmationAtCapacity(l: string, k: nat)
    ensures Confirmation(Feed(InitialWindow(), seq(k, _ => l)))
            == if k == 0 || l == Sentinel then Some(Sentinel) else if k < Capacity then None else Some(l)
  {
    var w, labels := InitialWindow(), seq(k, _ => l);
    FeedKeepsLatest(w, labels);
    var r := Feed(w, labels);
    if k == 0 {
      assert r == w;
    } else if l == Sentinel {
      assert forall i :: 0 <= i < |r| ==> r[i] == (w + labels)[k + i] == Sentinel;
    } else if k < Capacity {
      assert r[0] == (w + labels)[k] == Sentinel;
      assert r[Capacity - 1] == (w + labels)[k + Capacity - 1] == l;
    } else {
      assert forall i :: 0 <= i < |r| ==> r[i] == (w + labels)[k + i] == l;
    }
  }

  /** The labels of the frames in which a hand was detected, in order. */
  function Detected(frames: seq<Option<string>>): (r: seq<string>)
    ensures |r| <= |frames|
    decreases |frames|
  {
    if frames == [] then []
    else
      var n := |frames| - 1;
      Detected(frames[..n]) + (if frames[n].Some? then [frames[n].value] else [])
  }

  /** The `recent_states` list of the frame loop. */
  class Window {
    var states: seq<string>

    ghost predicate Valid()
      reads this
    {
      |states| == Capacity
    }

    /** Thirty sentinel labels, before the first frame. */
    constructor ()
      ensures Valid() && states == InitialWindow()
    {
      states := InitialWindow();
    }

    /** `pop(0)` then `append(current)`. */
    method Update(current: string)
      requires Valid()
      modifies this
      ensures Valid() && states == Shift(old(states), current)
    {
      states := states[1..];
      states := states + [current];
    }

    /** One frame: with a hand whose resolved label is given, update the
        window and report its confirmation; without a hand, leave the window
        as it is and report nothing. A reported label is always the label of
        this very frame. */
    method Step(hand: Option<string>) returns (confirmed: Option<string>)
      requires Valid()
      modifies this
      ensures Valid()
      ensures hand.None? ==> states == old(states) && confirmed == None
      ensures hand.Some? ==> states == Shift(old(states), hand.value) && confirmed == Confirmation(states)
      ensures confirmed.Some? ==> hand.Some? && confirmed.value == hand.value
    {
      confirmed := None;
      if hand.Some? {
        Update(hand.value);
        confirmed := Confirmation(states);
      }
    }
  }

  /** What each frame of a session reports, in order: nothing for a frame
      without a hand, otherwise the confirmation of the window holding every
      detected label up to and including that frame. */
  function Reports(frames: seq<Option<string>>): (r: seq<Option<string>>)
    ensures |r| == |frames|
    decreases |frames|
  {
    if frames == [] then []
    else
      var n := |frames| - 1;
      Reports(frames[..n])
        + [if frames[n].None? then None else Confirmation(Feed(InitialWindow(), Detected(frames)))]
  }

  /** Frame i's report depends only on the frames up to i. */
  lemma {:induction false} ReportsAt(frames: seq<Option<string>>, i: nat)
    requires i < |frames|
    ensures Reports(frames)[i]
            == if frames[i].None? then None else Confirmation(Feed(InitialWindow(), Detected(frames[..i + 1])))
    decreases |frames|
  {
    var n := |frames| - 1;
    if i < n {
      ReportsAt(frames[..n], i);
      assert frames[..n][..i + 1] == frames[..i + 1];
    } else {
      assert frames[..i + 1] == frames;
    }
  }

  lemma DetectedSnoc(frames: seq<Option<string>>, i: nat)
    requires i < |frames|
    ensures Detected(frames[..i + 1])
            == Detected(frames[..i]) + (if frames[i].Some? then [frames[i].value] else [])
  {
    assert frames[..i + 1][..i] == frames[..i];
  }

  lemma FeedSnoc(w: seq<string>, labels: seq<string>, current: string)
    requires w != []
    ensures Feed(w, labels + [current]) == Shift(Feed(w, labels), current)
  {
    assert (labels + [current])[..|labels|] == labels;
  }

  /** What one more frame does to the window and to the reports. */
  lemma SessionStep(frames: seq<Option<string>>, i: nat)
    requires i < |frames|
    ensures Feed(InitialWindow(), Detected(frames[..i + 1]))
            == if frames[i].Some? then Shift(Feed(InitialWindow(), Detected(frames[..i])), frames[i].value)
               else Feed(InitialWindow(), Detected(frames[..i]))
    ensures Reports(frames[..i + 1])
            == Reports(frames[..i])
               + [if frames[i].None? then None else Confirmation(Feed(InitialWindow(), Detected(frames[..i + 1])))]
  {
    DetectedSnoc(frames, i);
    if frames[i].Some? {
      FeedSnoc(InitialWindow(), Detected(frames[..i]), frames[i].value);
    } else {
      assert Detected(frames[..i + 1]) == Detected(frames[..i]);
    }
    assert frames[..i + 1][..i] == frames[..i];
  }

  /** Helper for `RunSession`: `ReportsAt` for every frame at once. */
  lemma ReportsMeaning(frames: seq<Option<string>>)
    ensures forall i :: 0 <= i < |frames| ==>
              Reports(frames)[i] == if frames[i].None? then None
                                    else Confirmation(Feed(InitialWindow(), Detected(frames[..i + 1])))
  {
    forall i | 0 <= i < |frames|
      ensures Reports(frames)[i] == if frames[i].None? then None
                                    else Confirmation(Feed(InitialWindow(), Detected(frames[..i + 1])))
    {
      ReportsAt(frames, i);
    }
  }

  /** The frame loop from start-up, over a list of frames each with or without
      a resolved label: frame i reports nothing without a hand, otherwise the
      confirmation of the window fed with every detected label up to frame i,
      so frames with no hand leave the window as it was. */
  method RunSession(frames: seq<Option<string>>) returns (reports: seq<Option<string>>)
    ensures |reports| == |frames|
    ensures forall i :: 0 <= i < |frames| ==>
              reports[i] == if frames[i].None? then None
                            else Confirmation(Feed(InitialWindow(), Detected(frames[..i + 1])))
  {
    var window := new Window();
    reports := [];
    for i := 0 to |frames|
      invariant window.Valid()
      invariant window.states == Feed(InitialWindow(), Detected(frames[..i]))
      invariant reports == Reports(frames[..i])
    {
      SessionStep(frames, i);
      var confirmed := window.Step(frames[i]);
      reports := reports + [confirmed];
    }
    assert frames[..|frames|] == frames;
    ReportsMeaning(frames);
  }
}
