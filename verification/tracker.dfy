/**
 The face tracker: an online nearest-representative matcher that turns a
 stream of face encodings into a stream of integer labels.

 Its state is the list of stored representative encodings, the parallel list
 of their labels, and the next label to hand out. Each call either returns the
 label of the closest stored encoding, when that distance is below the
 threshold, or stores the new encoding under a fresh label.
 */
module Tracker {
  import opened Distance
  import opened ArgMin

  /** The tracker's state; `known[i]` is stored under label `ids[i]`. */
  datatype State = State(known: seq<Encoding>, ids: seq<nat>, nextId: nat)

  /** What one call returns: the tracker afterwards and the label it gave. */
  datatype Outcome = Outcome(tracker: State, faceId: nat)

  /**
   The tracker's invariant: one label per stored encoding, and the labels
   are exactly 0, 1, ..., nextId - 1 in storage order.
   */
  predicate Valid(t: State)
  {
    && |t.known| == t.nextId
    && |t.ids| == t.nextId
    && (forall i :: 0 <= i < |t.ids| ==> t.ids[i] == i)
  }

  /** A fresh tracker: nothing stored and label 0 next. */
  function Init(): (t: State)
    ensures Valid(t)
    ensures t.nextId == 0 && |t.known| == 0
  {
    State([], [], 0)
  }

  /** The distance from each stored encoding to `probe`, in storage order. */
  function Distances(dist: Metric, known: seq<Encoding>, probe: Encoding): (ds: seq<real>)
    ensures |ds| == |known|
    ensures forall i :: 0 <= i < |known| ==> ds[i] == dist(known[i], probe)
  {
    seq(|known|, i requires 0 <= i < |known| => dist(known[i], probe))
  }

  /** `k` is the earliest stored encoding at the smallest distance from `probe`. */
  predicate FirstNearest(dist: Metric, known: seq<Encoding>, probe: Encoding, k: int)
  {
    IsFirstMin(Distances(dist, known, probe), k)
  }

  /** No stored encoding is within the threshold of `probe`. */
  predicate NoneWithin(dist: Metric, known: seq<Encoding>, probe: Encoding)
  {
    forall i :: 0 <= i < |known| ==> !Within(dist, known[i], probe)
  }

  /** `t` with `enc` stored under the next label. */
  function Appended(t: State, enc: Encoding): State
  {
    State(t.known + [enc], t.ids + [t.nextId], t.nextId + 1)
  }

  /**
   The matching policy, stated without reference to how it is computed:
   when nothing is within the threshold the encoding is stored under the next
   label and that label is returned; when the earliest nearest encoding is
   within the threshold its label is returned and nothing changes.
   */
  predicate ResolvesAs(dist: Metric, t: State, enc: Encoding, o: Outcome)
    requires |t.ids| == |t.known|
  {
    && (NoneWithin(dist, t.known, enc) ==> o == Outcome(Appended(t, enc), t.nextId))
    && (forall k {:trigger FirstNearest(dist, t.known, enc, k)} | 0 <= k < |t.known| ::
          FirstNearest(dist, t.known, enc, k) && Within(dist, t.known[k], enc)
          ==> o == Outcome(t, t.ids[k]))
  }

  /**
   One call of the tracker on `enc`. The empty tracker stores `enc`
   unconditionally; otherwise the first index of the minimum distance is
   taken and compared with the threshold. At most one record is appended.
   */
  function FindOrAdd(dist: Metric, t: State, enc: Encoding): (o: Outcome)
    requires |t.ids| == |t.known|
    ensures o.tracker == t || o.tracker == Appended(t, enc)
  {
    if |t.known| == 0 then
      var t' := Appended(t, enc);
      Outcome(t', t'.ids[|t'.ids| - 1])
    else
      var ds := Distances(dist, t.known, enc);
      var best := FirstArgMin(ds);
      if ds[best] < Threshold then
        Outcome(t, t.ids[best])
      else
        var t' := Appended(t, enc);
        Outcome(t', t'.ids[|t'.ids| - 1])
  }

  /**
   `FindOrAdd` follows the matching policy: with nothing within the
   threshold it stores the encoding under the next label and returns that
   label; when the earliest nearest encoding is within the threshold it
   returns that encoding's label and changes nothing.
   */
  lemma FollowsPolicy(dist: Metric, t: State, enc: Encoding)
    requires |t.ids| == |t.known|
    ensures ResolvesAs(dist, t, enc, FindOrAdd(dist, t, enc))
  {
    if |t.known| > 0 {
      var ds := Distances(dist, t.known, enc);
      var best := FirstArgMin(ds);
      forall k | FirstNearest(dist, t.known, enc, k)
        ensures k == best
      {
        FirstMinUnique(ds, k, best);
      }
    }
  }

  /**
   The two cases of the policy cover every call: either nothing is within
   the threshold, or the earliest nearest encoding is.
   */
  lemma MatchOrAppend(dist: Metric, known: seq<Encoding>, enc: Encoding)
    ensures NoneWithin(dist, known, enc)
            || exists k :: FirstNearest(dist, known, enc, k) && Within(dist, known[k], enc)
  {
    if !NoneWithin(dist, known, enc) {
      var i :| 0 <= i < |known| && Within(dist, known[i], enc);
      var ds := Distances(dist, known, enc);
      var k := FirstArgMin(ds);
      assert ds[k] <= ds[i];
      assert FirstNearest(dist, known, enc, k) && Within(dist, known[k], enc);
    }
  }

  /**
   The policy leaves no choice: any outcome that resolves `enc` as the policy
   says is the one `FindOrAdd` returns.
   */
  lemma PolicyDeterminesOutcome(dist: Metric, t: State, enc: Encoding, o: Outcome)
    requires |t.ids| == |t.known|
    requires ResolvesAs(dist, t, enc, o)
    ensures o == FindOrAdd(dist, t, enc)
  {
    FollowsPolicy(dist, t, enc);
    MatchOrAppend(dist, t.known, enc);
    if !NoneWithin(dist, t.known, enc) {
      var k :| FirstNearest(dist, t.known, enc, k) && Within(dist, t.known[k], enc);
      assert o == Outcome(t, t.ids[k]);
    }
  }

  /**
   The invariant survives every call; the label returned is below the new
   `nextId`; and the call stored a new encoding exactly when the label is the
   old `nextId`, returning an existing label otherwise.
   */
  lemma StepPreservesValid(dist: Metric, t: State, enc: Encoding)
    requires Valid(t)
    ensures var o := FindOrAdd(dist, t, enc);
      && Valid(o.tracker)
      && o.faceId < o.tracker.nextId
      && (o.tracker == Appended(t, enc) <==> o.faceId == t.nextId)
      && (o.tracker == t <==> o.faceId < t.nextId)
  {
    var o := FindOrAdd(dist, t, enc);
    FollowsPolicy(dist, t, enc);
    MatchOrAppend(dist, t.known, enc);
    if !NoneWithin(dist, t.known, enc) {
      var k :| FirstNearest(dist, t.known, enc, k) && Within(dist, t.known[k], enc);
      assert o == Outcome(t, k);
    }
  }

  /** On a fresh tracker the first encoding gets label 0 and is the only record. */
  lemma FirstCall(dist: Metric, enc: Encoding)
    ensures FindOrAdd(dist, Init(), enc) == Outcome(State([enc], [0], 1), 0)
  {
  }

  /**
   Resolving the same encoding twice in a row gives the same label the second
   time and changes nothing, provided the encoding is at distance zero from
   itself.
   */
  lemma RepeatSameLabel(dist: Metric, t: State, enc: Encoding)
    requires |t.ids| == |t.known|
    requires dist(enc, enc) == 0.0
    ensures var o := FindOrAdd(dist, t, enc);
      FindOrAdd(dist, o.tracker, enc) == Outcome(o.tracker, o.faceId)
  {
    var o := FindOrAdd(dist, t, enc);
    var t1 := o.tracker;
    FollowsPolicy(dist, t, enc);
    MatchOrAppend(dist, t.known, enc);
    if NoneWithin(dist, t.known, enc) {
      // enc was stored last; every earlier record is at distance >= 0.5 > 0
      var n := |t.known|;
      var ds := Distances(dist, t1.known, enc);
      assert ds[n] == 0.0;
      assert IsFirstMin(ds, n) by {
        forall j | 0 <= j < n
          ensures ds[n] < ds[j]
        {
          assert t1.known[j] == t.known[j];
          assert !Within(dist, t.known[j], enc);
        }
      }
      assert FirstNearest(dist, t1.known, enc, n) && Within(dist, t1.known[n], enc);
      FollowsPolicy(dist, t1, enc);
    } else {
      var k :| FirstNearest(dist, t.known, enc, k) && Within(dist, t.known[k], enc);
      assert t1 == t;
    }
  }

  /**
   A stored representative is never replaced: resolving it again (with
   distance zero to itself) matches without storing anything, and the label
   returned is that of a representative within the threshold of it.
   */
  lemma StoredRepresentativeMatches(dist: Metric, t: State, i: int)
    requires Valid(t)
    requires 0 <= i < |t.known|
    requires dist(t.known[i], t.known[i]) == 0.0
    ensures var o := FindOrAdd(dist, t, t.known[i]);
      && o.tracker == t
      && Within(dist, t.known[o.faceId], t.known[i])
  {
    var enc := t.known[i];
    assert !NoneWithin(dist, t.known, enc) by {
      assert Within(dist, t.known[i], enc);
    }
    FollowsPolicy(dist, t, enc);
    MatchOrAppend(dist, t.known, enc);
    var k :| FirstNearest(dist, t.known, enc, k) && Within(dist, t.known[k], enc);
  }
}
