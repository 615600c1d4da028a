/** Searches over sequences that several rules share: how far a test keeps holding from
    the front, and whether it holds anywhere. */
module Sequences {

  /** The length of the longest prefix of `xs` whose members all satisfy `p`: where a
      loop that stops at the first failure of `p` stops. */
  function PrefixWhile<T>(xs: seq<T>, p: T -> bool): (k: nat)
    ensures k <= |xs|
    ensures forall i :: 0 <= i < k ==> p(xs[i])
    ensures k < |xs| ==> !p(xs[k])
    decreases |xs|
  {
    if |xs| == 0 || !p(xs[0]) then 0
    else
      var k := PrefixWhile(xs[1..], p);
      assert forall i :: 1 <= i < k + 1 ==> xs[i] == xs[1..][i - 1];
      k + 1
  }

  /** Some member of `xs` satisfies `p`: what a loop that returns on the first hit
      reports. */
  function AnyOf<T>(xs: seq<T>, p: T -> bool): (r: bool)
    ensures r <==> exists i :: 0 <= i < |xs| && p(xs[i])
  {
    if |xs| == 0 then false
    else if p(xs[|xs| - 1]) then true
    else AnyOf(xs[..|xs| - 1], p)
  }
}
