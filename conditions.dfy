// Node and fragment conditions. A condition is a UYapCondition pointer: null conditions
// are skipped, the others contribute the value their EvaluateCondition returns.
module Conditions {
  import opened Wrappers

  /** None is a null condition; Some(b) a condition whose evaluation yields b. */
  type Condition = Option<bool>

  /** Every non-null condition holds. */
  predicate AllPass(conds: seq<Condition>) {
    forall k :: 0 <= k < |conds| ==> conds[k] != Some(false)
  }

  /**
   * The loop shared by UFlowNode_YapDialogue::CheckConditions and FYapFragment::CheckConditions:
   * null entries are skipped, evaluation stops at the first condition that fails.
   * `stoppedAt` is the position at which the loop returned.
   */
  method Evaluate(conds: seq<Condition>) returns (pass: bool, stoppedAt: nat)
    ensures pass <==> AllPass(conds)
    ensures pass ==> stoppedAt == |conds|
    ensures !pass ==> stoppedAt < |conds| && conds[stoppedAt] == Some(false)
    ensures forall k :: 0 <= k < stoppedAt ==> conds[k] != Some(false)
  {
    var i := 0;
    while i < |conds|
      invariant 0 <= i <= |conds|
      invariant forall k :: 0 <= k < i ==> conds[k] != Some(false)
    {
      // a null condition is ignored
      if conds[i] == Some(false) {
        return false, i;
      }
      i := i + 1;
    }
    return true, i;
  }
}
