/** The passing rule on 64-bit sums, against the same rule on exact integers. */
module Threshold {
  import opened Base

  const SHANNONS_PER_CKB := 100_000_000

  /** The largest requirement whose conversion to shannons stays below 2^64. */
  const LARGEST_REQUIREMENT := 184_467_440_737

  /** The unchecked multiplication wraps around in the release build of the guest. */
  function MinShannon(minimalRequirement: nat): nat {
    (minimalRequirement * SHANNONS_PER_CKB) % (U64_MAX + 1)
  }

  predicate Passes(yes: nat, no: nat, minimalRequirement: nat) {
    yes > no && SaturatingAdd(yes, no) > MinShannon(minimalRequirement)
  }

  /** The decision on the exact sums, as the count makes it after saturating them. */
  predicate PassesSaturated(yes: nat, no: nat, minimalRequirement: nat) {
    Passes(Min(yes, U64_MAX), Min(no, U64_MAX), minimalRequirement)
  }

  /** The rule of the specification, on integers. */
  predicate PassesExactly(yes: nat, no: nat, minimalRequirement: nat) {
    yes > no && yes + no > minimalRequirement * SHANNONS_PER_CKB
  }

  /**
   * Within the bound, saturation can only turn a pass into a fail, and does so exactly when the exact NO sum has
   * reached 2^64 - 1.
   */
  lemma SaturationIsSound(yes: nat, no: nat, minimalRequirement: nat)
    requires minimalRequirement <= LARGEST_REQUIREMENT
    ensures PassesSaturated(yes, no, minimalRequirement) <==>
              PassesExactly(yes, no, minimalRequirement) && no < U64_MAX
    ensures yes + no <= U64_MAX ==>
              (PassesSaturated(yes, no, minimalRequirement) <==> PassesExactly(yes, no, minimalRequirement))
  {
    assert minimalRequirement * SHANNONS_PER_CKB < U64_MAX;
  }

  /** A tally of one side that the wrapped requirement lets through although the exact rule refuses it. */
  lemma WrappedRequirementPassesTooMuch(minimalRequirement: nat)
    requires minimalRequirement > LARGEST_REQUIREMENT
    ensures MinShannon(minimalRequirement) < U64_MAX
    ensures PassesSaturated(MinShannon(minimalRequirement) + 1, 0, minimalRequirement)
    ensures !PassesExactly(MinShannon(minimalRequirement) + 1, 0, minimalRequirement)
  {
    var exact := minimalRequirement * SHANNONS_PER_CKB;
    var wrapped := MinShannon(minimalRequirement);
    var turns := exact / (U64_MAX + 1);
    assert exact == (U64_MAX + 1) * turns + wrapped;
    assert exact >= (LARGEST_REQUIREMENT + 1) * SHANNONS_PER_CKB > U64_MAX;
    assert turns >= 1;
    assert wrapped % 2 == 0 by {
      assert exact == 2 * (minimalRequirement * 50_000_000);
      assert wrapped == 2 * (minimalRequirement * 50_000_000 - 0x8000_0000_0000_0000 * turns);
    }
  }

  /** A requirement that fits in 64 bits and becomes nothing: a single shannon of YES passes it. */
  lemma RequirementWrapsToZero()
    ensures var requirement := 0x100_0000_0000_0000;
            && requirement <= U64_MAX && MinShannon(requirement) == 0
            && PassesSaturated(1, 0, requirement) && !PassesExactly(1, 0, requirement)
  {
  }

  /** The bound is exact: a pass of the code always is a pass of the rule iff the requirement is within it. */
  lemma RequirementBoundIsExact(minimalRequirement: nat)
    ensures minimalRequirement <= LARGEST_REQUIREMENT <==>
              forall yes: nat, no: nat :: PassesSaturated(yes, no, minimalRequirement) ==>
                PassesExactly(yes, no, minimalRequirement)
  {
    if minimalRequirement <= LARGEST_REQUIREMENT {
      forall yes: nat, no: nat | PassesSaturated(yes, no, minimalRequirement)
        ensures PassesExactly(yes, no, minimalRequirement)
      {
        SaturationIsSound(yes, no, minimalRequirement);
      }
    } else {
      WrappedRequirementPassesTooMuch(minimalRequirement);
    }
  }
}
