// Corrected definitions for defects of the dialogue node, each beside the behaviour the node
// has as written (DialogueSpec, exhibited in DialogueProperties), with the evidently intended
// property proved about the correction. The node class itself keeps the behaviour as written.
module DialogueCorrections {
  import opened Conditions
  import opened YapFragment
  import opened DialogueSpec
  import opened DialogueInvariants
  import opened DialogueProperties

  // ----------------------------------------------------------------------------------------
  // Skipping into a manual advance

  /**
   * SkipCurrent keeping the index of the skipped fragment before its phases end, so that a
   * manual advance the skip runs into moves on from that fragment instead of from INDEX_NONE.
   */
  function SkipCurrentKeepingIndexSpec(s: NodeState): (r: (NodeState, bool))
    requires RunningOk(s)
    ensures r.1 == CanSkipSpec(s)
    ensures !r.1 ==> r.0 == s
  {
    if !CanSkipSpec(s) then (s, false)
    else
      var idx := ToUint8(s.runningFragmentIndex);
      var s2 := SkipPhasesSpec(s);
      if s2.awaitingManualAdvance then (AdvanceFromFragmentSpec(s2.(awaitingManualAdvance := false), idx), true)
      else (s2, true)
  }

  /**
   * A skip that ends the padding of a fragment waiting for a manual advance advances from the
   * skipped fragment itself, after announcing the end of its padding, and keeps every
   * playback invariant.
   */
  lemma SkipIntoManualAdvanceMovesOn(s: NodeState)
    requires Inv(s) && 0 <= s.runningFragmentIndex < |s.fragments| && CanSkipSpec(s)
    requires s.speechTimer == Cleared && s.paddingTimer.IsValid() && !s.awaitingManualAdvance
    requires !s.fragments[s.runningFragmentIndex].GetAutoAdvance(s.GetAutoAdvance())
    ensures var idx := s.runningFragmentIndex;
      var r := SkipCurrentKeepingIndexSpec(s);
      && r.1
      && r.0 == AdvanceFromFragmentSpec(EndPaddingSpec(s), idx)
      && EndPaddingSpec(s).events == s.events + [PaddingTimeOver(idx)]
      && Evolves(s, r.0) && RunningOk(r.0)
  {
    var idx := s.runningFragmentIndex;
    var t := EndPaddingSpec(s);
    assert ToUint8(idx) == idx;
    assert OnPaddingCompleteSpec(s) == t.(awaitingManualAdvance := true);
    assert SkipPhasesSpec(s) == OnPaddingCompleteSpec(s);
    OnPaddingCompleteEvolves(s);
    AdvanceEvolves(t, idx);
    EvolvesTransitive(s, t, AdvanceFromFragmentSpec(t, idx));
  }

  /**
   * A skip that ends the speech of a fragment with no padding that waits for a manual advance
   * advances from the skipped fragment itself, after announcing the end of its speech and of
   * its padding, and keeps every playback invariant.
   */
  lemma SkipDuringSpeechIntoManualAdvanceMovesOn(s: NodeState)
    requires Inv(s) && 0 <= s.runningFragmentIndex < |s.fragments| && CanSkipSpec(s)
    requires s.speechTimer.IsValid() && s.paddingTimer == Cleared && !s.awaitingManualAdvance
    requires !s.fragments[s.runningFragmentIndex].GetAutoAdvance(s.GetAutoAdvance())
    requires s.fragments[s.runningFragmentIndex].GetPaddingToNextFragment(s.settings) <= 0.0
    ensures var idx := s.runningFragmentIndex;
      var t := OnSpeakingCompleteSpec(s);
      var r := SkipCurrentKeepingIndexSpec(s);
      && r.1
      && r.0 == AdvanceFromFragmentSpec(t.(awaitingManualAdvance := false), idx)
      && t.events == s.events + SpeechEndEvents(s.fragments[idx], idx) + [PaddingTimeOver(idx)]
      && Evolves(s, r.0) && RunningOk(r.0)
  {
    var idx := s.runningFragmentIndex;
    SkipDuringSpeechIntoManualAdvanceFaults(s);
    var t := OnSpeakingCompleteSpec(s);
    var t2 := t.(awaitingManualAdvance := false);
    assert ToUint8(idx) == idx;
    OnSpeakingCompleteEvolves(s);
    AdvanceEvolves(t2, idx);
    EvolvesTransitive(s, t2, AdvanceFromFragmentSpec(t2, idx));
  }

  // ----------------------------------------------------------------------------------------
  // Counting prompt activations

  /** RunPrompt counting a node activation only when the chosen fragment actually runs. */
  function RunPromptCountingRunsSpec(s: NodeState, i: nat): (r: NodeState)
    ensures |r.fragments| == |s.fragments|
  {
    var (s1, ran) := RunFragmentSpec(s, i);
    if ran then s1.(nodeActivationCount := s1.nodeActivationCount + 1)
    else s1.(runningFragmentIndex := IndexNone).Log(Output(BypassPinName, true))
  }

  /**
   * The node counts an activation exactly when the chosen fragment counts one; a choice that
   * does not run leaves the count alone, nothing running, and the node through Bypass.
   */
  lemma RunPromptCountsOnlyRuns(s: NodeState, i: nat)
    ensures var r := RunPromptCountingRunsSpec(s, i);
      && (i < |s.fragments| ==>
            r.nodeActivationCount - s.nodeActivationCount == r.fragments[i].activationCount - s.fragments[i].activationCount)
      && (r.nodeActivationCount == s.nodeActivationCount + 1 <==> i < |s.fragments| && Eligible(s.fragments[i]))
      && (!(i < |s.fragments| && Eligible(s.fragments[i])) ==>
            && r.nodeActivationCount == s.nodeActivationCount && r.runningFragmentIndex == IndexNone
            && |r.events| > 0 && r.events[|r.events| - 1] == Output(BypassPinName, true))
  {
    if i < |s.fragments| && Eligible(s.fragments[i]) {
      RunFragmentRuns(s, i);
    } else {
      RunFragmentFails(s, i);
    }
  }

  // ----------------------------------------------------------------------------------------
  // Deleting a fragment

  /** DeleteFragmentByIndex returning after it reports an invalid index. */
  function DeleteFragmentCheckedSpec(s: NodeState, i: int): (r: NodeState)
    ensures !(0 <= i < |s.fragments|) ==> r.fragments == s.fragments
  {
    if !(0 <= i < |s.fragments|) then s.Log(LogError(InvalidDeletionIndexMessage))
    else DeleteFragmentSpec(s, i)
  }

  /**
   * The checked deletion never reaches an out-of-range access: a bad index is only reported,
   * a valid one removes exactly that fragment and renumbers the rest.
   */
  lemma DeleteCheckedNeverFaults(s: NodeState, i: int)
    requires |s.fragments| <= MaxFragments
    ensures var r := DeleteFragmentCheckedSpec(s, i);
      && |s.events| <= |r.events|
      && (forall k :: |s.events| <= k < |r.events| ==> !r.events[k].RangeCheckFailure?)
      && (!(0 <= i < |s.fragments|) ==> r.events == s.events + [LogError(InvalidDeletionIndexMessage)])
      && (0 <= i < |s.fragments| ==>
            && |r.fragments| == |s.fragments| - 1
            && (forall k :: 0 <= k < i ==> r.fragments[k] == s.fragments[k].SetIndexInDialogue(k))
            && (forall k :: i <= k < |r.fragments| ==> r.fragments[k] == s.fragments[k + 1].SetIndexInDialogue(k)))
  {
    if 0 <= i < |s.fragments| {
      DeleteRemovesOne(s, i);
    }
  }

  // ----------------------------------------------------------------------------------------
  // Activation limits

  /** ActivationLimitsMet built on the fragment's own test, IsActivationLimitMet. */
  predicate ActivationLimitsMetByFragmentTest(s: NodeState) {
    || (s.activationLimit > 0 && s.nodeActivationCount >= s.activationLimit)
    || (forall k :: 0 <= k < |s.fragments| ==> s.fragments[k].IsActivationLimitMet())
  }

  /**
   * With the fragment's own test, the node reports its limits met only when its own limit is
   * reached or no fragment could run; an unlimited fragment (limit zero or negative) keeps it open.
   */
  lemma LimitsMetOnlyWhenNothingCanRun(s: NodeState)
    ensures ActivationLimitsMetByFragmentTest(s) && !(s.activationLimit > 0 && s.nodeActivationCount >= s.activationLimit) ==>
      forall k :: 0 <= k < |s.fragments| ==> !Eligible(s.fragments[k]) && !RunFragmentSpec(s, k).1
    ensures (exists k :: 0 <= k < |s.fragments| && s.fragments[k].activationLimit <= 0) ==>
      (ActivationLimitsMetByFragmentTest(s) <==> s.activationLimit > 0 && s.nodeActivationCount >= s.activationLimit)
  {
    if ActivationLimitsMetByFragmentTest(s) && !(s.activationLimit > 0 && s.nodeActivationCount >= s.activationLimit) {
      forall k | 0 <= k < |s.fragments|
        ensures !Eligible(s.fragments[k]) && !RunFragmentSpec(s, k).1
      {
        RunFragmentFails(s, k);
      }
    }
  }

  /**
   * As written, a node whose fragments all carry negative limits (unlimited for the fragment)
   * leaves through Bypass on entry, although a fragment whose conditions pass could run.
   */
  lemma NegativeLimitsBypassPlayableFragment(s: NodeState, k: nat)
    requires AllPass(s.conditions) && s.activationLimit <= 0
    requires forall j :: 0 <= j < |s.fragments| ==> s.fragments[j].activationLimit < 0 && s.fragments[j].activationCount >= 0
    requires k < |s.fragments| && AllPass(s.fragments[k].conditions)
    ensures Eligible(s.fragments[k]) && RunFragmentSpec(s, k).1
    ensures ActivationLimitsMet(s) && !ActivationLimitsMetByFragmentTest(s)
    ensures ExecuteInputSpec(s) == s.Log(Output(BypassPinName, true))
  {
    RunFragmentRuns(s, k);
    assert !s.fragments[k].IsActivationLimitMet();
  }
}
