/** Dense renumbering of the ids that are kept, in their order. */
module Renumbering {

  /** How many ids below k are kept: the new number of k when it is kept. */
  function NewId(kept: set<nat>, k: nat): nat {
    if k == 0 then 0 else NewId(kept, k - 1) + (if k - 1 in kept then 1 else 0)
  }

  /** The new numbers increase along the kept ids, so they are distinct. */
  lemma {:induction false} NewIdGrows(kept: set<nat>, j: nat, k: nat)
    requires j < k && j in kept
    ensures NewId(kept, j) < NewId(kept, k)
    decreases k
  {
    if j < k - 1 { NewIdGrows(kept, j, k - 1); } else { NewIdMonotone(kept, j, k - 1); }
  }

  lemma {:induction false} NewIdMonotone(kept: set<nat>, j: nat, k: nat)
    requires j <= k
    ensures NewId(kept, j) <= NewId(kept, k) <= NewId(kept, j) + (k - j)
    decreases k
  {
    if j < k { NewIdMonotone(kept, j, k - 1); }
  }

  lemma NewIdInjective(kept: set<nat>, j: nat, k: nat)
    requires j in kept && k in kept && NewId(kept, j) == NewId(kept, k)
    ensures j == k
  {
    if j < k { NewIdGrows(kept, j, k); } else if k < j { NewIdGrows(kept, k, j); }
  }

  /** Every new number below NewId(kept, k) belongs to a kept id. */
  lemma {:induction false} OldId(kept: set<nat>, k: nat, i: nat) returns (j: nat)
    requires i < NewId(kept, k)
    ensures j < k && j in kept && NewId(kept, j) == i
  {
    if k - 1 in kept && i == NewId(kept, k - 1) { j := k - 1; } else { j := OldId(kept, k - 1, i); }
  }

  /** An initial run of kept ids keeps its numbers. */
  lemma {:induction false} NewIdPrefix(kept: set<nat>, k: nat)
    requires forall i: nat :: i < k ==> i in kept
    ensures NewId(kept, k) == k
  {
    if k > 0 { NewIdPrefix(kept, k - 1); }
  }
}
