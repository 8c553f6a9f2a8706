/** Numbers in base 256, most significant digit first. */
module Octets {
  function Pow256(n: nat): nat { if n == 0 then 1 else 256 * Pow256(n - 1) }

  function Base256(digits: seq<nat>): nat {
    if digits == [] then 0 else Base256(digits[..|digits| - 1]) * 256 + digits[|digits| - 1]
  }

  /** The first digit weighs most. */
  lemma {:induction false} FirstDigit(d: nat, rest: seq<nat>)
    ensures Base256([d] + rest) == d * Pow256(|rest|) + Base256(rest)
    decreases |rest|
  {
    var all := [d] + rest;
    if rest == [] {
      assert all[..0] == [];
    } else {
      FirstDigit(d, rest[..|rest| - 1]);
      assert all[..|all| - 1] == [d] + rest[..|rest| - 1];
    }
  }
}
