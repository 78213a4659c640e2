/**
 Concrete sessions with one-entry encodings, where the Euclidean distance is
 the absolute difference of the two entries. They pin down the threshold
 boundary, the tie-break, the first-representative-wins rule and the
 dependence of labels on the order faces arrive in.
 */
module Scenarios {
  import opened Distance
  import opened ArgMin
  import opened Tracker
  import opened Session

  /** The Euclidean distance between one-entry encodings (0 for empty ones). */
  function Line(a: Encoding, b: Encoding): real
  {
    if |a| == 0 || |b| == 0 then 0.0
    else if a[0] >= b[0] then a[0] - b[0]
    else b[0] - a[0]
  }

  /** One face: label 0 and a count of one. */
  lemma SingleFace()
    ensures Track(Line, [[0.0]]) == Run(State([[0.0]], [0], 1), [0])
  {
  }

  /** The same face twice: the same label both times, one face counted. */
  lemma SameFaceTwice()
    ensures Track(Line, [[0.0], [0.0]]) == Run(State([[0.0]], [0], 1), [0, 0])
  {
    var s := [[0.0], [0.0]];
    assert s[..1] == [[0.0]];
    SingleFace();
    var t1 := State([[0.0]], [0], 1);
    assert Distances(Line, t1.known, [0.0]) == [0.0];
    assert FirstNearest(Line, t1.known, [0.0], 0);
  }

  /** A distance of exactly 0.5 is not a match; just below it is. */
  lemma ThresholdBoundary()
    ensures Track(Line, [[0.0], [0.5]]).labels == [0, 1]
    ensures Track(Line, [[0.0], [0.4999]]).labels == [0, 0]
    ensures Track(Line, [[0.0], [0.5001]]).labels == [0, 1]
  {
    SingleFace();
    var t1 := State([[0.0]], [0], 1);
    assert [[0.0], [0.5]][..1] == [[0.0]];
    assert [[0.0], [0.4999]][..1] == [[0.0]];
    assert [[0.0], [0.5001]][..1] == [[0.0]];
    assert NoneWithin(Line, t1.known, [0.5]);
    assert NoneWithin(Line, t1.known, [0.5001]);
    assert Distances(Line, t1.known, [0.4999]) == [0.4999];
    assert FirstNearest(Line, t1.known, [0.4999], 0);
  }

  /** Among equally near representatives the earliest one wins. */
  lemma TieGoesToEarliest()
    ensures FirstArgMin([0.3, 0.3, 0.4]) == 0
    ensures var t := State([[0.3], [-0.3], [-0.4]], [0, 1, 2], 3);
      FindOrAdd(Line, t, [0.0]) == Outcome(t, 0)
  {
    var ds := [0.3, 0.3, 0.4];
    assert IsFirstMin(ds, 0);
    FirstMinUnique(ds, 0, FirstArgMin(ds));
    var t := State([[0.3], [-0.3], [-0.4]], [0, 1, 2], 3);
    assert Distances(Line, t.known, [0.0]) == ds;
  }

  /**
   A matched face does not move its representative: after [0.4] matched the
   representative [0.0], the original [0.0] still matches and nothing new
   is stored.
   */
  lemma RepresentativeNeverMoves()
    ensures Track(Line, [[0.0], [0.4], [0.0]]) == Run(State([[0.0]], [0], 1), [0, 0, 0])
  {
    var t1 := State([[0.0]], [0], 1);
    var s := [[0.0], [0.4], [0.0]];
    SingleFace();
    assert s[..2][..1] == [[0.0]];
    assert Distances(Line, t1.known, [0.4]) == [0.4];
    assert FirstNearest(Line, t1.known, [0.4], 0);
    assert Track(Line, s[..2]) == Run(t1, [0, 0]);
    assert Distances(Line, t1.known, [0.0]) == [0.0];
    assert FirstNearest(Line, t1.known, [0.0], 0);
  }

  /**
   Labels depend on arrival order: [0.0], [0.4], [0.8] gives two faces, as
   [0.8] is 0.8 from the first representative; starting with [0.4] puts all
   three within 0.5 of it and gives one.
   */
  lemma OrderMatters()
    ensures Track(Line, [[0.0], [0.4], [0.8]]).labels == [0, 0, 1]
    ensures Track(Line, [[0.4], [0.0], [0.8]]).labels == [0, 0, 0]
    ensures Track(Line, [[0.0], [0.4], [0.8]]).tracker.nextId == 2
    ensures Track(Line, [[0.4], [0.0], [0.8]]).tracker.nextId == 1
  {
    var a := State([[0.0]], [0], 1);
    var s := [[0.0], [0.4], [0.8]];
    SingleFace();
    assert s[..2][..1] == [[0.0]];
    assert Distances(Line, a.known, [0.4]) == [0.4];
    assert FirstNearest(Line, a.known, [0.4], 0);
    assert Track(Line, s[..2]) == Run(a, [0, 0]);
    assert NoneWithin(Line, a.known, [0.8]);

    var b := State([[0.4]], [0], 1);
    var s' := [[0.4], [0.0], [0.8]];
    assert [[0.4]][..0] == [];
    FirstCall(Line, [0.4]);
    assert Track(Line, [[0.4]]) == Run(b, [0]);
    assert s'[..2][..1] == [[0.4]];
    assert Distances(Line, b.known, [0.0]) == [0.4];
    assert FirstNearest(Line, b.known, [0.0], 0);
    assert Track(Line, s'[..2]) == Run(b, [0, 0]);
    assert Distances(Line, b.known, [0.8]) == [0.4];
    assert FirstNearest(Line, b.known, [0.8], 0);
  }
}
