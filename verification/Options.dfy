/** An optional value, in place of Python's `None`, a failed lookup, or an exception. */
module Options {
  datatype Option<+T> = None | Some(value: T)

  /** JavaScript's and Python's `s or None`. */
  function NonEmpty(s: string): Option<string> {
    if s != "" then Some(s) else None
  }

  /** The last of the numbers below `n` that satisfy `p`. */
  function LastBelow(p: nat -> bool, n: nat): (i: Option<nat>)
    ensures i.Some? ==> i.value < n && p(i.value) && forall j: nat :: i.value < j < n ==> !p(j)
    ensures i.None? ==> forall j: nat :: j < n ==> !p(j)
  {
    if n == 0 then None else if p(n - 1) then Some(n - 1) else LastBelow(p, n - 1)
  }
}
