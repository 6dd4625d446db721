/**
 * `Array#sum_with_identity`: the sum of an array of numbers, or a caller-given
 * identity when the array is empty. Elements are modelled as unbounded integers.
 */
module ArrayExt {

  /** Reference definition: the sum of a sequence, folded from the right. */
  function Sum(s: seq<int>): int
  {
    if s == [] then 0 else s[0] + Sum(s[1..])
  }

  /**
   * `reduce(:+)` with an explicit starting accumulator: ((acc + s[0]) + s[1]) + ...
   * A left fold of `+` started from `acc` is `acc` plus the sum.
   */
  function Reduce(acc: int, s: seq<int>): (r: int)
    ensures r == acc + Sum(s)
    decreases s
  {
    if s == [] then acc else Reduce(acc + s[0], s[1..])
  }

  /** `map(&block)`: the block applied to every element, in order. */
  function Map<T>(f: T -> int, s: seq<T>): (r: seq<int>)
    ensures |r| == |s|
    ensures forall i :: 0 <= i < |s| ==> r[i] == f(s[i])
  {
    if s == [] then [] else [f(s[0])] + Map(f, s[1..])
  }

  /**
   * `sum_with_identity(identity = 0)` without a block: the identity for an empty
   * array, otherwise `reduce(:+)`, which starts from the first element.
   */
  function SumWithIdentity(a: seq<int>, identity: int := 0): (r: int)
    ensures a == [] ==> r == identity
    ensures a != [] ==> r == Sum(a)
  {
    if |a| == 0 then identity
    else Reduce(a[0], a[1..])
  }

  /**
   * `sum_with_identity(identity = 0, &block)`: the identity for an empty array,
   * otherwise `map(&block).sum`, where `Array#sum` folds `+` from 0.
   */
  function SumWithIdentityBy<T>(a: seq<T>, f: T -> int, identity: int := 0): (r: int)
    ensures a == [] ==> r == identity
    ensures a != [] ==> r == Sum(Map(f, a))
  {
    if |a| == 0 then identity
    else Reduce(0, Map(f, a))
  }

  /** On a non-empty array the identity is never added: the result does not depend on it. */
  lemma IdentityIgnoredWhenNonEmpty(a: seq<int>, i: int, j: int)
    requires a != []
    ensures SumWithIdentity(a, i) == SumWithIdentity(a, j) == Sum(a)
  {
  }

  /** With the identity block `{ |x| x }` the block form agrees with the plain form. */
  lemma {:induction false} BlockIdentityAgrees(a: seq<int>, identity: int)
    ensures SumWithIdentityBy(a, x => x, identity) == SumWithIdentity(a, identity)
  {
    if a != [] {
      assert Map(x => x, a) == a;
    }
  }

  /** The examples `[1,2,3]` gives 6 and `[]` gives 0. */
  lemma Examples()
    ensures SumWithIdentity([1, 2, 3]) == 6
    ensures SumWithIdentity([]) == 0
  {
  }
}
