/** Small things every other module needs. */
module Prelude {
  datatype Option<T> = None | Some(value: T)

  /** The numbers below n. */
  function Ids(n: nat): (r: set<nat>)
    ensures forall v: nat :: v in r <==> v < n
  {
    if n == 0 then {} else Ids(n - 1) + {n - 1}
  }
}
