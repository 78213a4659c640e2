/**
 One video-processing session: the tracker is created empty, fed every face
 encoding in order (frame by frame, and within a frame in detection order),
 and its final `nextId` is reported as the number of unique faces.
 */
module Session {
  import opened Distance
  import opened Tracker

  /** The tracker after a stream of calls, and the label of each call. */
  datatype Run = Run(tracker: State, labels: seq<nat>)

  /** Feed `encs` to the tracker `t` in order, collecting the labels. */
  function Feed(dist: Metric, t: State, encs: seq<Encoding>): (r: Run)
    requires |t.ids| == |t.known|
    ensures |r.labels| == |encs|
    ensures |r.tracker.ids| == |r.tracker.known|
    decreases |encs|
  {
    if |encs| == 0 then Run(t, [])
    else
      var r := Feed(dist, t, encs[..|encs| - 1]);
      var o := FindOrAdd(dist, r.tracker, encs[|encs| - 1]);
      Run(o.tracker, r.labels + [o.faceId])
  }

  /** A whole session: a fresh tracker fed `encs`. */
  function Track(dist: Metric, encs: seq<Encoding>): Run
  {
    Feed(dist, Init(), encs)
  }

  /** The number of positions of `s` whose value does not occur earlier in `s`. */
  function CountFirsts(s: seq<nat>): nat
  {
    if |s| == 0 then 0
    else
      var init := s[..|s| - 1];
      CountFirsts(init) + (if s[|s| - 1] in init then 0 else 1)
  }

  /**
   Every call keeps the tracker's invariant, so after any stream the labels
   are still dense and every label handed out is below `nextId`.
   */
  lemma {:induction false} FeedPreservesValid(dist: Metric, t: State, encs: seq<Encoding>)
    requires Valid(t)
    ensures var r := Feed(dist, t, encs);
      && Valid(r.tracker)
      && forall i :: 0 <= i < |r.labels| ==> r.labels[i] < r.tracker.nextId
    decreases |encs|
  {
    if |encs| > 0 {
      var r := Feed(dist, t, encs[..|encs| - 1]);
      FeedPreservesValid(dist, t, encs[..|encs| - 1]);
      StepPreservesValid(dist, r.tracker, encs[|encs| - 1]);
    }
  }

  /**
   Storage is append-only over a stream: the old records are a prefix of the
   new ones, and at most one record is stored per call.
   */
  lemma {:induction false} FeedAppendOnly(dist: Metric, t: State, encs: seq<Encoding>)
    requires |t.ids| == |t.known|
    ensures var r := Feed(dist, t, encs);
      && t.known <= r.tracker.known
      && t.ids <= r.tracker.ids
      && |r.tracker.known| <= |t.known| + |encs|
    decreases |encs|
  {
    if |encs| > 0 {
      FeedAppendOnly(dist, t, encs[..|encs| - 1]);
    }
  }

  /**
   The labels of a session are exactly 0, 1, ..., nextId - 1: every label
   handed out is below the final count, and every number below it was
   handed out. So the final count is the number of distinct labels.
   */
  lemma {:induction false} LabelsAreDense(dist: Metric, encs: seq<Encoding>)
    ensures var r := Track(dist, encs);
      forall l: nat :: l in r.labels <==> l < r.tracker.nextId
    decreases |encs|
  {
    var r := Track(dist, encs);
    FeedPreservesValid(dist, Init(), encs);
    if |encs| > 0 {
      var prev := Track(dist, encs[..|encs| - 1]);
      LabelsAreDense(dist, encs[..|encs| - 1]);
      FeedPreservesValid(dist, Init(), encs[..|encs| - 1]);
      StepPreservesValid(dist, prev.tracker, encs[|encs| - 1]);
      assert r.labels == prev.labels + [r.labels[|encs| - 1]];
    }
  }

  /**
   The final count equals the number of calls whose label had not been seen
   before in the stream; it also equals the number of stored representatives.
   */
  lemma {:induction false} FinalCountIsNewFaces(dist: Metric, encs: seq<Encoding>)
    ensures var r := Track(dist, encs);
      && r.tracker.nextId == CountFirsts(r.labels)
      && r.tracker.nextId == |r.tracker.known|
    decreases |encs|
  {
    var r := Track(dist, encs);
    FeedPreservesValid(dist, Init(), encs);
    if |encs| > 0 {
      var prev := Track(dist, encs[..|encs| - 1]);
      FinalCountIsNewFaces(dist, encs[..|encs| - 1]);
      LabelsAreDense(dist, encs[..|encs| - 1]);
      FeedPreservesValid(dist, Init(), encs[..|encs| - 1]);
      StepPreservesValid(dist, prev.tracker, encs[|encs| - 1]);
      assert r.labels[..|encs| - 1] == prev.labels;
    }
  }

  /**
   The number of calls in the stream `encs`, fed to `t`, that took the append
   branch: the calls after which the tracker was no longer the one they got.
   */
  function Appends(dist: Metric, t: State, encs: seq<Encoding>): nat
    requires |t.ids| == |t.known|
    decreases |encs|
  {
    if |encs| == 0 then 0
    else
      var r := Feed(dist, t, encs[..|encs| - 1]);
      var o := FindOrAdd(dist, r.tracker, encs[|encs| - 1]);
      Appends(dist, t, encs[..|encs| - 1]) + (if o.tracker == r.tracker then 0 else 1)
  }

  /**
   Over a stream, `nextId` grows by exactly the number of calls that took the
   append branch.
   */
  lemma {:induction false} CountIsAppends(dist: Metric, t: State, encs: seq<Encoding>)
    requires Valid(t)
    ensures Feed(dist, t, encs).tracker.nextId == t.nextId + Appends(dist, t, encs)
    decreases |encs|
  {
    if |encs| > 0 {
      var r := Feed(dist, t, encs[..|encs| - 1]);
      CountIsAppends(dist, t, encs[..|encs| - 1]);
      FeedPreservesValid(dist, t, encs[..|encs| - 1]);
      StepPreservesValid(dist, r.tracker, encs[|encs| - 1]);
    }
  }

  /** A session's final count is the number of calls that took the append branch. */
  lemma FinalCountIsAppends(dist: Metric, encs: seq<Encoding>)
    ensures Track(dist, encs).tracker.nextId == Appends(dist, Init(), encs)
  {
    CountIsAppends(dist, Init(), encs);
  }

  /**
   Labels are handed out in order of first appearance: a label not seen
   earlier in the stream is the number of distinct labels seen before it,
   so the k-th new face gets label k - 1.
   */
  lemma {:induction false} NewLabelsInOrder(dist: Metric, encs: seq<Encoding>)
    ensures var ls := Track(dist, encs).labels;
      forall i :: 0 <= i < |ls| && ls[i] !in ls[..i] ==> ls[i] == CountFirsts(ls[..i])
    decreases |encs|
  {
    var ls := Track(dist, encs).labels;
    if |encs| > 0 {
      var n := |encs| - 1;
      var prev := Track(dist, encs[..n]);
      assert ls == prev.labels + [ls[n]];
      NewLabelsInOrder(dist, encs[..n]);
      forall i | 0 <= i < n && ls[i] !in ls[..i]
        ensures ls[i] == CountFirsts(ls[..i])
      {
        assert ls[..i] == prev.labels[..i];
      }
      if ls[n] !in ls[..n] {
        assert ls[..n] == prev.labels;
        NewLabelIsCount(dist, encs);
      }
    }
  }

  /** The last label of a session, when not seen before, is the count before it. */
  lemma NewLabelIsCount(dist: Metric, encs: seq<Encoding>)
    requires |encs| > 0
    requires var ls := Track(dist, encs).labels;
      ls[|encs| - 1] !in Track(dist, encs[..|encs| - 1]).labels
    ensures var ls := Track(dist, encs).labels;
      ls[|encs| - 1] == CountFirsts(Track(dist, encs[..|encs| - 1]).labels)
  {
    var n := |encs| - 1;
    var prev := Track(dist, encs[..n]);
    LabelsAreDense(dist, encs[..n]);
    FinalCountIsNewFaces(dist, encs[..n]);
    FeedPreservesValid(dist, Init(), encs[..n]);
    StepPreservesValid(dist, prev.tracker, encs[n]);
  }

  /**
   Feeding two streams one after the other is feeding their concatenation:
   the tracker carries over and the labels are concatenated. In particular a
   session split into frames is one session over all of its faces.
   */
  lemma {:induction false} FeedConcat(dist: Metric, t: State, a: seq<Encoding>, b: seq<Encoding>)
    requires |t.ids| == |t.known|
    ensures var ra := Feed(dist, t, a);
      var rb := Feed(dist, ra.tracker, b);
      Feed(dist, t, a + b) == Run(rb.tracker, ra.labels + rb.labels)
    decreases |b|
  {
    if |b| == 0 {
      assert a + b == a;
    } else {
      FeedConcat(dist, t, a, b[..|b| - 1]);
      FeedConcatStep(dist, t, a, b);
    }
  }

  /** The inductive step of `FeedConcat`: from `b` without its last encoding to `b`. */
  lemma FeedConcatStep(dist: Metric, t: State, a: seq<Encoding>, b: seq<Encoding>)
    requires |t.ids| == |t.known|
    requires |b| > 0
    requires var ra := Feed(dist, t, a);
      var rc := Feed(dist, ra.tracker, b[..|b| - 1]);
      Feed(dist, t, a + b[..|b| - 1]) == Run(rc.tracker, ra.labels + rc.labels)
    ensures var ra := Feed(dist, t, a);
      var rb := Feed(dist, ra.tracker, b);
      Feed(dist, t, a + b) == Run(rb.tracker, ra.labels + rb.labels)
  {
    var n := |b| - 1;
    var ra := Feed(dist, t, a);
    var mid := Feed(dist, ra.tracker, b[..n]);
    var o := FindOrAdd(dist, mid.tracker, b[n]);
    DropLastOfConcat(a, b);
    ConcatAssoc(ra.labels, mid.labels, [o.faceId]);
  }

  /** Dropping the last element of `a + b`, for non-empty `b`, drops it from `b`. */
  lemma DropLastOfConcat<T>(a: seq<T>, b: seq<T>)
    requires |b| > 0
    ensures (a + b)[..|a + b| - 1] == a + b[..|b| - 1]
    ensures (a + b)[|a + b| - 1] == b[|b| - 1]
  {
  }

  /** Concatenation is associative. */
  lemma ConcatAssoc<T>(a: seq<T>, b: seq<T>, c: seq<T>)
    ensures (a + b) + c == a + (b + c)
  {
  }

  /** The faces of every frame, in frame order. */
  function Flatten<T>(frames: seq<seq<T>>): (all: seq<T>)
  {
    if |frames| == 0 then []
    else Flatten(frames[..|frames| - 1]) + frames[|frames| - 1]
  }

  /** Adding a frame at the end adds its faces at the end. */
  lemma FlattenAppend<T>(frames: seq<seq<T>>, last: seq<T>)
    ensures Flatten(frames + [last]) == Flatten(frames) + last
  {
    assert (frames + [last])[..|frames|] == frames;
  }

  /** Resolving one more frame extends the session over one more frame. */
  lemma NextFrame(dist: Metric, frames: seq<seq<Encoding>>, f: nat, t: State, done: seq<seq<nat>>,
                  t': State, labels: seq<nat>)
    requires f < |frames|
    requires Track(dist, Flatten(frames[..f])) == Run(t, Flatten(done))
    requires Feed(dist, t, frames[f]) == Run(t', labels)
    ensures Track(dist, Flatten(frames[..f + 1])) == Run(t', Flatten(done + [labels]))
  {
    var before := Flatten(frames[..f]);
    assert frames[..f + 1] == frames[..f] + [frames[f]];
    FlattenAppend(frames[..f], frames[f]);
    assert Flatten(frames[..f + 1]) == before + frames[f];
    FlattenAppend(done, labels);
    FeedConcat(dist, Init(), before, frames[f]);
  }

  /**
   The loop over one frame's faces: each encoding is resolved in detection
   order against the tracker as left by the previous ones.
   */
  method ResolveFrame(dist: Metric, t: State, faces: seq<Encoding>) returns (t': State, labels: seq<nat>)
    requires |t.ids| == |t.known|
    ensures Feed(dist, t, faces) == Run(t', labels)
    ensures |labels| == |faces|
  {
    t' := t;
    labels := [];
    var j := 0;
    while j < |faces|
      invariant 0 <= j <= |faces|
      invariant Feed(dist, t, faces[..j]) == Run(t', labels)
    {
      var o := FindOrAdd(dist, t', faces[j]);
      assert faces[..j + 1][..j] == faces[..j];
      t' := o.tracker;
      labels := labels + [o.faceId];
      j := j + 1;
    }
    assert faces[..|faces|] == faces;
  }

  /**
   The processing loop: the tracker is created once, each frame's faces are
   resolved in detection order, each frame gets the list of its labels, and
   the final `nextId` is the total reported. The labels handed out are
   exactly 0 .. total - 1 and total is the number of new faces met.
   */
  method ProcessVideo(dist: Metric, frames: seq<seq<Encoding>>) returns (frameLabels: seq<seq<nat>>, total: nat)
    ensures |frameLabels| == |frames|
    ensures forall f :: 0 <= f < |frames| ==> |frameLabels[f]| == |frames[f]|
    ensures Flatten(frameLabels) == Track(dist, Flatten(frames)).labels
    ensures total == Track(dist, Flatten(frames)).tracker.nextId
    ensures forall l: nat :: l in Flatten(frameLabels) <==> l < total
    ensures total == CountFirsts(Flatten(frameLabels))
  {
    var tracker := Init();
    frameLabels := [];
    var f := 0;
    while f < |frames|
      invariant 0 <= f <= |frames|
      invariant |frameLabels| == f
      invariant forall g :: 0 <= g < f ==> |frameLabels[g]| == |frames[g]|
      invariant Track(dist, Flatten(frames[..f])) == Run(tracker, Flatten(frameLabels))
    {
      var t', labels := ResolveFrame(dist, tracker, frames[f]);
      NextFrame(dist, frames, f, tracker, frameLabels, t', labels);
      tracker := t';
      frameLabels := frameLabels + [labels];
      f := f + 1;
    }
    assert frames[..|frames|] == frames;
    total := tracker.nextId;
    LabelsAreDense(dist, Flatten(frames));
    FinalCountIsNewFaces(dist, Flatten(frames));
  }
}
