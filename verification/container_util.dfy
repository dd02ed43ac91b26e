/** `ContainerUtil.match`: two iterations agree element by element. */
module ContainerUtil {

  /** Reference definition: same length and every pair, first sequence's
      element first, satisfies the condition. */
  predicate Matches<T>(a: seq<T>, b: seq<T>, condition: (T, T) -> bool) {
    |a| == |b| && forall i | 0 <= i < |a| :: condition(a[i], b[i])
  }

  /** `match` over the remaining elements of the two iterators. Also returns
      how many times the condition was evaluated. */
  method Match<T>(a: seq<T>, b: seq<T>, condition: (T, T) -> bool) returns (r: bool, evaluated: nat)
    ensures r <==> Matches(a, b, condition)
    ensures evaluated <= |a| && evaluated <= |b|
    ensures forall i | 0 <= i < evaluated - 1 :: condition(a[i], b[i])
    ensures evaluated < |a| && evaluated < |b| ==> evaluated > 0 && !condition(a[evaluated - 1], b[evaluated - 1])
  {
    var i := 0;
    evaluated := 0;
    while i < |b|
      invariant 0 <= i <= |b| && i <= |a|
      invariant evaluated == i
      invariant forall k | 0 <= k < i :: condition(a[k], b[k])
    {
      if i >= |a| {
        return false, evaluated;
      }
      evaluated := evaluated + 1;
      if !condition(a[i], b[i]) {
        return false, evaluated;
      }
      i := i + 1;
    }
    r := i >= |a|;
  }
}
