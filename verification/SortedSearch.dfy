/** `std::upper_bound` on an ascending sequence of keys. */
module SortedSearch {
  import opened Words

  predicate Ascending(keys: seq<u64>) {
    forall i, j :: 0 <= i < j < |keys| ==> keys[i] <= keys[j]
  }

  /** The number of keys at or below `v`: the position of the first key above it. */
  function UpperBound(keys: seq<u64>, v: u64): (n: nat)
    requires Ascending(keys)
    ensures n <= |keys|
    ensures forall i :: 0 <= i < n ==> keys[i] <= v
    ensures forall i :: n <= i < |keys| ==> v < keys[i]
  {
    UpperBoundBetween(keys, v, 0, |keys|)
  }

  function UpperBoundBetween(keys: seq<u64>, v: u64, lo: nat, hi: nat): (n: nat)
    requires Ascending(keys) && lo <= hi <= |keys|
    requires forall i :: 0 <= i < lo ==> keys[i] <= v
    requires forall i :: hi <= i < |keys| ==> v < keys[i]
    ensures lo <= n <= hi
    ensures forall i :: 0 <= i < n ==> keys[i] <= v
    ensures forall i :: n <= i < |keys| ==> v < keys[i]
    decreases hi - lo
  {
    if lo == hi then lo
    else
      var mid := lo + (hi - lo) / 2;
      if v < keys[mid] then UpperBoundBetween(keys, v, lo, mid) else UpperBoundBetween(keys, v, mid + 1, hi)
  }

}
