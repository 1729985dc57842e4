/** Lists of numbers. */
module Lists {

  ghost predicate Distinct(list: seq<nat>) {
    forall n, k :: 0 <= n < k < |list| ==> list[n] != list[k]
  }

  /** Where c is on the list. */
  method Position(list: seq<nat>, c: nat) returns (n: nat)
    requires c in list
    ensures n < |list| && list[n] == c
  {
    n := 0;
    while list[n] != c
      invariant 0 <= n < |list|
      invariant forall k :: 0 <= k < n ==> list[k] != c
      decreases |list| - n
    {
      if n + 1 == |list| {
        assert false;
      }
      n := n + 1;
    }
  }
}
