/**
 The index of the smallest entry of a non-empty sequence of reals, with ties
 going to the lowest index: the first-occurrence rule of a forward scan that
 only moves to a later entry when it is strictly smaller.
 */
module ArgMin {

  /** `k` is the first position holding the minimum of `ds`. */
  predicate IsFirstMin(ds: seq<real>, k: int)
  {
    && 0 <= k < |ds|
    && (forall j :: 0 <= j < |ds| ==> ds[k] <= ds[j])
    && (forall j :: 0 <= j < k ==> ds[k] < ds[j])
  }

  /**
   Forward scan from position `i`, where `best` is the first minimum of
   `ds[..i]`: move to a later position only when it is strictly smaller.
   */
  function ScanFrom(ds: seq<real>, i: nat, best: nat): (k: nat)
    requires best < i <= |ds|
    requires forall j :: 0 <= j < i ==> ds[best] <= ds[j]
    requires forall j :: 0 <= j < best ==> ds[best] < ds[j]
    ensures IsFirstMin(ds, k)
    decreases |ds| - i
  {
    if i == |ds| then best
    else if ds[i] < ds[best] then ScanFrom(ds, i + 1, i)
    else ScanFrom(ds, i + 1, best)
  }

  /** The first index of the minimum of a non-empty sequence. */
  function FirstArgMin(ds: seq<real>): (k: nat)
    requires |ds| > 0
    ensures IsFirstMin(ds, k)
  {
    ScanFrom(ds, 1, 0)
  }

  /** There is only one first minimum, so the tie-break is deterministic. */
  lemma FirstMinUnique(ds: seq<real>, k: int, k': int)
    requires IsFirstMin(ds, k) && IsFirstMin(ds, k')
    ensures k == k'
  {
    assert ds[k] == ds[k'];
  }
}
