/**
 Face encodings and the test that decides whether two of them are the same face.

 The tracker measures encodings with the Euclidean distance computed by the
 face-recognition library and accepts a match when that distance is strictly
 below 0.5. The library's arithmetic is outside this model: the distance is a
 parameter `dist` of every operation, and the properties that rely on "a
 vector is at distance zero from itself" ask for exactly that of the vector
 they are about.
 */
module Distance {

  /** A face encoding: a fixed-length vector of reals (128 entries in practice). */
  type Encoding = seq<real>

  /** A distance between a stored encoding (first) and a query encoding (second). */
  type Metric = (Encoding, Encoding) -> real

  /** The match threshold; a distance equal to it is not a match. */
  const Threshold: real := 0.5

  /** `probe` is close enough to `stored` to be the same face. */
  predicate Within(dist: Metric, stored: Encoding, probe: Encoding)
  {
    dist(stored, probe) < Threshold
  }
}
