# Face tracker model

A Dafny model of the identity tracker of a face-counting video tool. The tool
detects faces frame by frame. It turns each face into an encoding vector and
hands the encodings, in order, to `FaceTracker.find_or_add_face`. That call
returns an integer label for each face. At the end of the video the tool
reports the tracker's `next_id` as the number of unique faces.

The tracker keeps three pieces of state:

- `known_encodings`: the stored representatives.
- `face_ids`: their labels.
- `next_id`: the next label to hand out.

A call measures the distance from the new encoding to every representative and
takes the first index of the minimum. If that distance is strictly below 0.5,
the call returns that representative's label and changes nothing. Otherwise it
stores the encoding under `next_id` and increments `next_id`.

Files:

- `distance.dfy` (module `Distance`): encodings, the distance as a parameter, the 0.5 threshold.
- `argmin.dfy` (module `ArgMin`): the first-index-of-the-minimum scan that `np.argmin` performs.
- `tracker.dfy` (module `Tracker`): the tracker state, its invariant, the step `FindOrAdd`, and its properties.
- `session.dfy` (module `Session`): the driving loop as a fold (`Feed`, `Track`), the nested frame/face loop `ProcessVideo`, and the final-count properties.
- `scenarios.dfy` (module `Scenarios`): concrete sessions with one-entry encodings.

The state is an immutable `State` value. A call is the pure function
`FindOrAdd(dist, t, enc)`, which returns the new tracker and the label.

`ResolvesAs` states the matching policy without reference to the scan:

- When no representative is within 0.5, the encoding is appended under `nextId` and `nextId` is returned.
- When the earliest nearest representative is within 0.5, its label is returned and the tracker is unchanged.

`PolicyDeterminesOutcome` shows the policy leaves exactly one possible outcome.

## Model

| member | source | states |
|---|---|---|
| `Tracker.Init` | face_counter.py:25-28 | A new tracker satisfies the invariant, stores nothing and hands out label 0 next. |
| `Tracker.FindOrAdd` | face_counter.py:30-47 | One call either leaves the tracker as it was or appends exactly one record: the new encoding, stored under the old `nextId`. |
| `Tracker.FollowsPolicy` | face_counter.py:32-47 | The call follows the policy. When no representative is under 0.5, it appends the encoding and returns the old `nextId`. The empty tracker is one such case. When the earliest nearest representative is under 0.5, it returns that representative's label and leaves the tracker unchanged. |
| `ArgMin.ScanFrom` | face_counter.py:39 | The forward scan returns the first position of the minimum: no entry is smaller, and every earlier entry is strictly larger. |
| `ArgMin.FirstArgMin` | face_counter.py:39 | The chosen index in a non-empty distance list is the first occurrence of the minimum, matching `np.argmin`. |
| `ArgMin.FirstMinUnique` | face_counter.py:39 | Only one index is the first minimum, so the tie-break is deterministic. |
| `Tracker.MatchOrAppend` | face_counter.py:41-47 | Every call falls into one of the two branches. Either no representative is within the threshold, or the earliest nearest one is. |
| `Tracker.PolicyDeterminesOutcome` | face_counter.py:32-47 | Any outcome that satisfies the matching policy equals `FindOrAdd`'s outcome, so the policy fully determines the call. |
| `Tracker.StepPreservesValid` | face_counter.py:32-47 | The invariant holds after every call: one label per record, label i at position i, `nextId` records. The returned label is below the new `nextId`. The call appended exactly when the label equals the old `nextId`. It left the tracker unchanged exactly when the label is below the old `nextId`. |
| `Tracker.FirstCall` | face_counter.py:32-36 | On a fresh tracker the first call returns 0 and leaves one record, `[enc]` with label 0, with `nextId` = 1. |
| `Tracker.RepeatSameLabel` | face_counter.py:38-47 | Suppose an encoding is at distance zero from itself. Resolving it twice in a row returns the same label the second time and changes nothing. |
| `Tracker.StoredRepresentativeMatches` | face_counter.py:41-42 | Resolving a stored representative again never stores anything. It returns the label of a representative within 0.5 of it, because representatives are never replaced or moved. |
| `Session.Feed` | face_counter.py:80-81 | Feeding a stream gives one label per encoding and keeps the labels list and the records list the same length. `Session.Track`, the tracker created fresh at face_counter.py:69 and fed the whole stream, is the session every later lemma speaks of. |
| `Session.FeedAppendOnly` | face_counter.py:41-46 | Storage is append-only. The old records and labels stay a prefix of the new ones, and at most one record is stored per encoding fed. |
| `Session.FeedPreservesValid` | face_counter.py:80-81 | After any stream of calls the invariant still holds, and every label handed out is below `nextId`. |
| `Session.LabelsAreDense` | face_counter.py:80-95 | The labels of a session are exactly 0 .. `nextId` - 1: each was handed out, and no other was. So the reported total is the number of distinct labels. |
| `Session.FinalCountIsNewFaces` | face_counter.py:80-95 | The reported `nextId` equals the number of calls whose label had not appeared earlier in the stream. It also equals the number of stored records. |
| `Session.CountIsAppends` | face_counter.py:41-47 | Over any stream fed to a valid tracker, `nextId` grows by exactly the number of calls that took the append branch, i.e. after which the tracker changed. |
| `Session.FinalCountIsAppends` | face_counter.py:80-95 | The count reported at the end of a session is the number of calls that took the append branch. |
| `Session.NewLabelsInOrder` | face_counter.py:44-47 | Labels are assigned in order of first appearance: a label new to the stream equals the number of distinct labels before it. |
| `Session.NewLabelIsCount` | face_counter.py:44-47 | The last call's label, when new, equals the number of new labels before it. |
| `Session.FeedConcat` | face_counter.py:71-81 | Feeding one stream and then another is the same as feeding their concatenation. A per-frame session is therefore one session over all faces in frame order. |
| `Session.NextFrame` | face_counter.py:71-81 | Resolving the next frame's faces on the state reached after the earlier frames gives the session over all faces up to and including that frame. |
| `Session.ResolveFrame` | face_counter.py:80-81 | The loop over one frame's faces computes the same tracker and labels as the fold `Feed`, with one label per face. |
| `Session.ProcessVideo` | face_counter.py:69-95 | The nested frame/face loop gives each frame one label per face. Its flattened labels and its total equal those of the fold over all faces. The labels are exactly 0 .. total - 1, and total is the number of new faces met. |
| `Scenarios.SingleFace` | face_counter.py:32-36 | One face gives labels `[0]` and a count of 1. |
| `Scenarios.SameFaceTwice` | face_counter.py:38-42 | The same face twice gives labels `[0, 0]` and a count of 1. |
| `Scenarios.ThresholdBoundary` | face_counter.py:41 | A distance of exactly 0.5 is not a match, 0.4999 is, and 0.5001 is not. |
| `Scenarios.TieGoesToEarliest` | face_counter.py:38-42 | With distances 0.3, 0.3, 0.4, the argmin is index 0, and the tracker returns label 0. |
| `Scenarios.RepresentativeNeverMoves` | face_counter.py:41-42 | After `[0.4]` matches representative `[0.0]`, a second `[0.0]` still matches it and nothing new is stored. |
| `Scenarios.OrderMatters` | face_counter.py:38-47 | The same three faces in two orders give labels `[0, 0, 1]` with a count of 2 and labels `[0, 0, 0]` with a count of 1. |

## Left out

- Video capture and output, the preview window, key handling, `VideoWriter` and output-directory creation (face_counter.py:14-19, 57-68, 72-74, 87-94) are external I/O. `ProcessVideo` takes the frames' encodings as its input. Stopping early on the `q` key only shortens that input.
- `preprocess_frame` (face_counter.py:10-12) is a single colour-conversion call into OpenCV.
- Face detection and encoding (face_counter.py:77-78) are library calls. The model receives the encodings of each frame in detection order. Pairing each box with its encoding via `zip` is not modelled: the library returns one encoding per box.
- Drawing the box and label (face_counter.py:83-85) and command-line parsing (face_counter.py:100-106) are output and configuration only.
- The distance computation `face_recognition.face_distance` is a parameter `dist` of type `(Encoding, Encoding) -> real`. Its floating-point arithmetic (square root, rounding, NaN, infinity) is not modelled. The threshold test `dist < 0.5` and the argmin are modelled exactly over reals. `Tracker.Distances` only lists `dist` once per stored encoding, in storage order, as `face_distance` does for its list argument.
- `Tracker.RepeatSameLabel`, `Tracker.StoredRepresentativeMatches`: assume only that the encoding concerned is at distance 0 from itself, which the Euclidean distance guarantees.
- Encoding length: the source never checks that encodings have the same length; the first encoding is stored unchecked. What `face_distance` does with mismatched lengths is not modelled: the model's distance is total.
- Input validation: the code has no error path for mismatched or malformed encodings. A stricter design would reject them with a dimension-mismatch or invalid-encoding error. The model follows the code.
- The integer labels are Python integers and cannot overflow, so they are modelled as `nat`.
