// What the playback operations of a dialogue node promise, stated over the specification
// functions of DialogueSpec: which fragment runs, what is counted, which pins fire and in
// what order, and which inputs leave through Bypass.
module DialogueProperties {
  import opened Conditions
  import opened YapProjectSettings
  import opened YapFragment
  import opened Handles
  import opened DialogueSpec
  import opened DialogueInvariants

  // ----------------------------------------------------------------------------------------
  // Reference definitions

  /** The first eligible fragment at or after i, or |frags| when there is none. */
  function FirstEligible(frags: seq<Fragment>, i: nat): (j: nat)
    requires i <= |frags|
    ensures i <= j <= |frags|
    ensures forall k :: i <= k < j ==> !Eligible(frags[k])
    ensures j < |frags| ==> Eligible(frags[j])
    decreases |frags| - i
  {
    if i == |frags| || Eligible(frags[i]) then i else FirstEligible(frags, i + 1)
  }

  /** What a fragment that starts sends out: the start broadcast, then its start pin when enabled. */
  function StartEvents(f: Fragment, i: nat): (es: seq<Event>)
    ensures |es| >= 1 && es[0] == DialogueStart(i)
    ensures forall e | e in es :: e == DialogueStart(i) || (e.Output? && !e.finish)
  {
    [DialogueStart(i)] + (if f.UsesStartPin() then [Output(f.GetStartPin().0.name, false)] else [])
  }

  /** Only the fragments from i on decide the first eligible one. */
  lemma {:induction false} FirstEligibleFromSuffix(a: seq<Fragment>, b: seq<Fragment>, i: nat)
    requires |a| == |b| && i <= |a|
    requires forall k :: i <= k < |a| ==> Eligible(a[k]) == Eligible(b[k])
    ensures FirstEligible(a, i) == FirstEligible(b, i)
    decreases |a| - i
  {
    if i < |a| && !Eligible(a[i]) {
      FirstEligibleFromSuffix(a, b, i + 1);
    }
  }

  // ----------------------------------------------------------------------------------------
  // RunFragment

  /**
   * A fragment that is out of range, fails its conditions or has met its limit does not run:
   * only its own start time and entry state change (Failed, no start time), or an error is
   * logged for a bad index; nothing is counted and the running index stays.
   */
  lemma RunFragmentFails(s: NodeState, i: nat)
    requires !(i < |s.fragments| && Eligible(s.fragments[i]))
    ensures !RunFragmentSpec(s, i).1
    ensures i < |s.fragments| ==>
      RunFragmentSpec(s, i).0 == s.(fragments := s.fragments[i := s.fragments[i].SetStartTime(-1.0).SetEntryState(Failed)])
    ensures i >= |s.fragments| ==> RunFragmentSpec(s, i).0 == s.Log(LogError(InvalidRunIndexMessage))
  {
  }

  /**
   * An eligible fragment runs: it is counted once, becomes the running fragment with the
   * current time as start time and Success as entry state, its start broadcast and start pin
   * go out, and its speech timer is armed exactly when it has a speaking time.
   */
  lemma RunFragmentRuns(s: NodeState, i: nat)
    requires i < |s.fragments| && Eligible(s.fragments[i])
    ensures var (r, ran) := RunFragmentSpec(s, i);
      var f := s.fragments[i];
      && ran
      && r.runningFragmentIndex == i
      && r.nodeActivationCount == s.nodeActivationCount
      && |r.fragments| == |s.fragments|
      && r.fragments[i].activationCount == f.activationCount + 1
      && r.fragments[i].startTime == s.now && r.fragments[i].lastEntryState == Success
      && (forall k :: 0 <= k < |s.fragments| && k != i ==> r.fragments[k] == s.fragments[k])
      && r.events == s.events + StartEvents(f, i)
      && r.speechTimer == (if f.speechTime.Some? then SetTimer(f.speechTime.value) else s.speechTimer)
      && r.paddingTimer == s.paddingTimer && r.awaitingManualAdvance == s.awaitingManualAdvance
      && r.dialogueHandle.IsValid() && r.dialogueHandle.fragmentIndex == i
  {
    var f := s.fragments[i];
    var (s1, b) := TryBroadcastSpec(s, i);
    var s2 := WithFragment(s1, i, s1.fragments[i].IncrementActivations());
    assert s2.fragments[i].GetStartPin().0 == f.GetStartPin().0;
  }

  // ----------------------------------------------------------------------------------------
  // FindStartingFragment

  /**
   * FindStartingFragment from i on runs exactly the first eligible fragment and counts one
   * node activation; when no fragment is eligible the node leaves through Bypass and nothing
   * is counted.
   */
  lemma StartScanRunsFirstEligible(s: NodeState, i: nat)
    requires i <= |s.fragments|
    ensures var r := StartScanSpec(s, i);
      var j := FirstEligible(s.fragments, i);
      && (j < |s.fragments| ==>
            && r.runningFragmentIndex == j
            && r.nodeActivationCount == s.nodeActivationCount + 1
            && r.fragments[j].activationCount == s.fragments[j].activationCount + 1
            && r.events == s.events + StartEvents(s.fragments[j], j))
      && (j == |s.fragments| ==>
            && r.runningFragmentIndex == s.runningFragmentIndex
            && r.nodeActivationCount == s.nodeActivationCount
            && r.events == s.events + [Output(BypassPinName, true)]
            && (forall k :: 0 <= k < |s.fragments| ==> r.fragments[k].activationCount == s.fragments[k].activationCount))
  {
    if FirstEligible(s.fragments, i) < |s.fragments| {
      StartScanFinds(s, i);
    } else {
      StartScanFindsNone(s, i);
    }
  }

  /** With an eligible fragment at or after i, the scan runs the first one and counts once. */
  lemma {:induction false} StartScanFinds(s: NodeState, i: nat)
    requires i <= |s.fragments| && FirstEligible(s.fragments, i) < |s.fragments|
    ensures var r := StartScanSpec(s, i);
      var j := FirstEligible(s.fragments, i);
      && r.runningFragmentIndex == j
      && r.nodeActivationCount == s.nodeActivationCount + 1
      && r.fragments[j].activationCount == s.fragments[j].activationCount + 1
      && r.events == s.events + StartEvents(s.fragments[j], j)
    decreases |s.fragments| - i
  {
    if Eligible(s.fragments[i]) {
      StartScanHits(s, i);
    } else {
      var s1 := RunFragmentSpec(s, i).0;
      StartScanMisses(s, i);
      FirstEligibleFromSuffix(s.fragments, s1.fragments, i + 1);
      var j := FirstEligible(s.fragments, i);
      assert j == FirstEligible(s1.fragments, i + 1) && j != i;
      StartScanFinds(s1, i + 1);
      assert s1.fragments[j] == s.fragments[j];
    }
  }

  /** With no eligible fragment at or after i, the scan leaves through Bypass and counts nothing. */
  lemma {:induction false} StartScanFindsNone(s: NodeState, i: nat)
    requires i <= |s.fragments| && FirstEligible(s.fragments, i) == |s.fragments|
    ensures var r := StartScanSpec(s, i);
      && r.runningFragmentIndex == s.runningFragmentIndex
      && r.nodeActivationCount == s.nodeActivationCount
      && r.events == s.events + [Output(BypassPinName, true)]
      && (forall k :: 0 <= k < |s.fragments| ==> r.fragments[k].activationCount == s.fragments[k].activationCount)
    decreases |s.fragments| - i
  {
    if i < |s.fragments| {
      var s1 := RunFragmentSpec(s, i).0;
      StartScanMisses(s, i);
      FirstEligibleFromSuffix(s.fragments, s1.fragments, i + 1);
      StartScanFindsNone(s1, i + 1);
    }
  }

  /** The scan stops at an eligible fragment: it runs, and the node counts one activation. */
  lemma StartScanHits(s: NodeState, i: nat)
    requires i < |s.fragments| && Eligible(s.fragments[i])
    ensures var r := StartScanSpec(s, i);
      && r.runningFragmentIndex == i
      && r.nodeActivationCount == s.nodeActivationCount + 1
      && r.fragments[i].activationCount == s.fragments[i].activationCount + 1
      && r.events == s.events + StartEvents(s.fragments[i], i)
  {
    RunFragmentRuns(s, i);
    var r1 := RunFragmentSpec(s, i).0;
    assert StartScanSpec(s, i) == r1.(nodeActivationCount := r1.nodeActivationCount + 1);
  }

  /** The scan passes over a fragment that does not run and goes on from the next one. */
  lemma StartScanMisses(s: NodeState, i: nat)
    requires i < |s.fragments| && !Eligible(s.fragments[i])
    ensures var s1 := RunFragmentSpec(s, i).0;
      && StartScanSpec(s, i) == StartScanSpec(s1, i + 1)
      && FirstEligible(s.fragments, i) == FirstEligible(s.fragments, i + 1)
      && s1.events == s.events
      && s1.runningFragmentIndex == s.runningFragmentIndex
      && s1.nodeActivationCount == s.nodeActivationCount
      && |s1.fragments| == |s.fragments|
      && (forall k :: 0 <= k < |s.fragments| ==> s1.fragments[k].activationCount == s.fragments[k].activationCount)
      && (forall k :: 0 <= k < |s.fragments| && k != i ==> s1.fragments[k] == s.fragments[k])
  {
    FailedRunKeeps(s, i);
  }

  /** A fragment that fails to run changes nothing the scan reads except its own times. */
  lemma FailedRunKeeps(s: NodeState, i: nat)
    requires i < |s.fragments| && !Eligible(s.fragments[i])
    ensures var r := RunFragmentSpec(s, i);
      && !r.1
      && r.0.events == s.events
      && r.0.runningFragmentIndex == s.runningFragmentIndex
      && r.0.nodeActivationCount == s.nodeActivationCount
      && |r.0.fragments| == |s.fragments|
      && r.0.fragments[i].activationCount == s.fragments[i].activationCount
      && (forall k :: 0 <= k < |s.fragments| && k != i ==> r.0.fragments[k] == s.fragments[k])
  {
    RunFragmentFails(s, i);
  }

  // ----------------------------------------------------------------------------------------
  // AdvanceFromFragment

  /**
   * The scan of AdvanceFromFragment under any policy but RunUntilFailure skips the fragments
   * that do not run and starts the first eligible one; when none is left the node ends
   * through Out, once. The node activation count never changes.
   */
  lemma {:induction false} ScanSkipsFailures(s: NodeState, next: nat)
    requires next <= |s.fragments| && s.talkSequencing != RunUntilFailure
    ensures var r := ScanSpec(s, next);
      var j := FirstEligible(s.fragments, next);
      && r.nodeActivationCount == s.nodeActivationCount
      && (j < |s.fragments| ==>
            && r.runningFragmentIndex == j
            && r.fragments[j].activationCount == s.fragments[j].activationCount + 1
            && r.events == s.events + StartEvents(s.fragments[j], j))
      && (j == |s.fragments| ==>
            && r.runningFragmentIndex == s.runningFragmentIndex
            && r.events == s.events + [Output(OutputPinName, true)])
    decreases |s.fragments| - next
  {
    if next < |s.fragments| {
      if Eligible(s.fragments[next]) {
        RunFragmentRuns(s, next);
      } else {
        RunFragmentFails(s, next);
        var s1 := RunFragmentSpec(s, next).0;
        FirstEligibleFromSuffix(s.fragments, s1.fragments, next + 1);
        ScanSkipsFailures(s1, next + 1);
      }
    }
  }

  /** Under RunUntilFailure only the next fragment is tried: it runs, or the node ends through Out. */
  lemma ScanStopsAtFailure(s: NodeState, next: nat)
    requires s.talkSequencing == RunUntilFailure
    ensures var r := ScanSpec(s, next);
      && r.nodeActivationCount == s.nodeActivationCount
      && (next < |s.fragments| && Eligible(s.fragments[next]) ==>
            r.runningFragmentIndex == next && r.events == s.events + StartEvents(s.fragments[next], next))
      && (next < |s.fragments| && !Eligible(s.fragments[next]) ==>
            r.runningFragmentIndex == s.runningFragmentIndex && r.events == s.events + [Output(OutputPinName, true)])
      && (next >= |s.fragments| ==>
            r.runningFragmentIndex == s.runningFragmentIndex && r.events == s.events + [Output(OutputPinName, true)])
  {
    if next < |s.fragments| {
      if Eligible(s.fragments[next]) {
        RunFragmentRuns(s, next);
      } else {
        RunFragmentFails(s, next);
      }
    }
  }

  /**
   * AdvanceFromFragment by node type and policy: a prompt node leaves through the fragment's
   * prompt pin, SelectOne through Out, RunUntilFailure tries only the next fragment and RunAll
   * the first eligible later one. A new running fragment always lies after the finished one.
   */
  lemma AdvancePolicies(s: NodeState, idx: nat)
    requires idx < |s.fragments|
    ensures var r := AdvanceFromFragmentSpec(s, idx);
      var n := |s.fragments|;
      && r.nodeActivationCount == s.nodeActivationCount
      && (r.runningFragmentIndex == s.runningFragmentIndex || idx < r.runningFragmentIndex < n)
      && (s.IsPlayerPrompt() ==>
            r.events == s.events + [Output(s.fragments[idx].GetPromptPin().0.name, true)]
            && r.runningFragmentIndex == s.runningFragmentIndex)
      && (!s.IsPlayerPrompt() && s.talkSequencing == SelectOne ==>
            r.events == s.events + [Output(OutputPinName, true)] && r.runningFragmentIndex == s.runningFragmentIndex)
      && (!s.IsPlayerPrompt() && s.talkSequencing == RunUntilFailure ==>
            if idx + 1 < n && Eligible(s.fragments[idx + 1]) then r.runningFragmentIndex == idx + 1
            else r.events == s.events + [Output(OutputPinName, true)] && r.runningFragmentIndex == s.runningFragmentIndex)
      && (!s.IsPlayerPrompt() && s.talkSequencing == RunAll ==>
            var j := FirstEligible(s.fragments, idx + 1);
            if j < n then r.runningFragmentIndex == j
            else r.events == s.events + [Output(OutputPinName, true)] && r.runningFragmentIndex == s.runningFragmentIndex)
  {
    var s1 := WithFragment(s, idx, s.fragments[idx].SetRunState(Idle));
    assert s1.fragments[idx].GetPromptPin().0 == s.fragments[idx].GetPromptPin().0;
    if !s.IsPlayerPrompt() && s.talkSequencing != SelectOne {
      FirstEligibleFromSuffix(s.fragments, s1.fragments, idx + 1);
      if s.talkSequencing == RunUntilFailure {
        ScanStopsAtFailure(s1, idx + 1);
      } else {
        ScanSkipsFailures(s1, idx + 1);
      }
    }
  }

  // ----------------------------------------------------------------------------------------
  // The end of speech and the end of padding

  /** What OnSpeakingComplete sends before the padding phase: the end broadcast, then the end pin when enabled. */
  function SpeechEndEvents(f: Fragment, idx: nat): (es: seq<Event>)
    ensures |es| >= 1 && es[0] == DialogueEnd(idx)
    ensures |es| == 2 <==> f.UsesEndPin()
  {
    [DialogueEnd(idx)] + (if f.UsesEndPin() then [Output(f.GetEndPin().0.name, false)] else [])
  }

  /**
   * OnPaddingComplete: the finished fragment (the old running index as a uint8) is announced
   * first; an auto-advancing fragment then advances, so that nothing runs or a later fragment
   * does, and any other leaves the node awaiting a manual advance with nothing running. A
   * running index that does not name a fragment faults.
   */
  lemma PaddingCompleteOutcome(s: NodeState)
    ensures var idx := ToUint8(s.runningFragmentIndex);
      var r := OnPaddingCompleteSpec(s);
      var n := |s.fragments|;
      && |s.events| < |r.events| && r.events[..|s.events| + 1] == s.events + [PaddingTimeOver(idx)]
      && r.nodeActivationCount == s.nodeActivationCount
      && (r.runningFragmentIndex == IndexNone || idx < r.runningFragmentIndex < n)
      && (idx >= n ==> r.events == s.events + [PaddingTimeOver(idx), RangeCheckFailure(idx)])
      && (idx < n && !s.fragments[idx].GetAutoAdvance(s.GetAutoAdvance()) ==>
            && r.awaitingManualAdvance && r.runningFragmentIndex == IndexNone
            && r.events == s.events + [PaddingTimeOver(idx)])
  {
    var idx := ToUint8(s.runningFragmentIndex);
    var s1 := EndPaddingSpec(s);
    if idx < |s1.fragments| && s1.fragments[idx].GetAutoAdvance(s1.GetAutoAdvance()) {
      AdvancePolicies(s1, idx);
      AdvanceEvolves(s1, idx);
      var r := AdvanceFromFragmentSpec(s1, idx);
      assert r.events[..|s1.events|] == s1.events;
    }
  }

  /**
   * OnSpeakingComplete for a running fragment: its end broadcast and end pin come first; a
   * positive padding arms the padding timer and keeps the fragment running, any other padding
   * completes in the same call, announcing the end of padding right after the end pin. The
   * fragment's end time is the current time either way.
   */
  lemma SpeakingCompleteOrder(s: NodeState)
    requires Inv(s) && 0 <= s.runningFragmentIndex < |s.fragments|
    ensures var idx := s.runningFragmentIndex;
      var f := s.fragments[idx];
      var r := OnSpeakingCompleteSpec(s);
      var head := s.events + SpeechEndEvents(f, idx);
      var pad := f.GetPaddingToNextFragment(s.settings);
      && |r.fragments| == |s.fragments| && r.fragments[idx].endTime == s.now
      && r.nodeActivationCount == s.nodeActivationCount
      && |head| <= |r.events| && r.events[..|head|] == head
      && (pad > 0.0 ==>
            && r.events == head && r.paddingTimer == TimerSlot.Pending(pad)
            && r.runningFragmentIndex == idx
            && r.speechTimer == (if s.speechTimer.Exists() then Cleared else s.speechTimer))
      && (pad <= 0.0 ==>
            && |head| < |r.events| && r.events[..|head| + 1] == head + [PaddingTimeOver(idx)]
            && (r.runningFragmentIndex == IndexNone || idx < r.runningFragmentIndex < |s.fragments|))
  {
    var idx := s.runningFragmentIndex;
    var pad := s.fragments[idx].GetPaddingToNextFragment(s.settings);
    if pad > 0.0 {
      SpeakingCompleteArmsPadding(s);
    } else {
      SpeakingCompleteEndsPadding(s);
      var r := OnSpeakingCompleteSpec(s);
      var head := s.events + SpeechEndEvents(s.fragments[idx], idx);
      assert r.events[..|head|] == r.events[..|head| + 1][..|head|];
    }
  }

  /** The node as OnSpeakingComplete leaves it just before the padding step. */
  function SpeechEnded(s: NodeState): NodeState
    requires 0 <= s.runningFragmentIndex < |s.fragments|
  {
    var idx := s.runningFragmentIndex;
    var s1 := if s.speechTimer.Exists() then s.(speechTimer := Cleared) else s;
    FireEndPinSpec(s1.Log(DialogueEnd(idx)), idx)
  }

  /** Up to the padding step, OnSpeakingComplete only clears the speech timer and sends its end events. */
  lemma SpeechEndedFacts(s: NodeState)
    requires Inv(s) && 0 <= s.runningFragmentIndex < |s.fragments|
    ensures var idx := s.runningFragmentIndex;
      var s3 := SpeechEnded(s);
      var pad := s.fragments[idx].GetPaddingToNextFragment(s.settings);
      var s4 := StartPaddingSpec(s3, pad);
      && s3.events == s.events + SpeechEndEvents(s.fragments[idx], idx)
      && s3.runningFragmentIndex == idx && s3.now == s.now && s3.settings == s.settings
      && s3.nodeActivationCount == s.nodeActivationCount
      && |s3.fragments| == |s.fragments|
      && s3.speechTimer == (if s.speechTimer.Exists() then Cleared else s.speechTimer)
      && OnSpeakingCompleteSpec(s) == WithFragment(s4, idx, s4.fragments[idx].SetEndTime(s4.now))
  {
    var idx := s.runningFragmentIndex;
    var s1 := if s.speechTimer.Exists() then s.(speechTimer := Cleared) else s;
    var s2 := s1.Log(DialogueEnd(idx));
    assert s2.fragments[idx].GetPaddingToNextFragment(s2.settings) == s.fragments[idx].GetPaddingToNextFragment(s.settings);
  }

  lemma SpeakingCompleteArmsPadding(s: NodeState)
    requires Inv(s) && 0 <= s.runningFragmentIndex < |s.fragments|
    requires s.fragments[s.runningFragmentIndex].GetPaddingToNextFragment(s.settings) > 0.0
    ensures var idx := s.runningFragmentIndex;
      var r := OnSpeakingCompleteSpec(s);
      var pad := s.fragments[idx].GetPaddingToNextFragment(s.settings);
      && |r.fragments| == |s.fragments| && r.fragments[idx].endTime == s.now
      && r.nodeActivationCount == s.nodeActivationCount
      && r.events == s.events + SpeechEndEvents(s.fragments[idx], idx)
      && r.paddingTimer == TimerSlot.Pending(pad)
      && r.runningFragmentIndex == idx
      && r.speechTimer == (if s.speechTimer.Exists() then Cleared else s.speechTimer)
  {
    SpeechEndedFacts(s);
  }

  lemma SpeakingCompleteEndsPadding(s: NodeState)
    requires Inv(s) && 0 <= s.runningFragmentIndex < |s.fragments|
    requires s.fragments[s.runningFragmentIndex].GetPaddingToNextFragment(s.settings) <= 0.0
    ensures var idx := s.runningFragmentIndex;
      var r := OnSpeakingCompleteSpec(s);
      var head := s.events + SpeechEndEvents(s.fragments[idx], idx);
      && |r.fragments| == |s.fragments| && r.fragments[idx].endTime == s.now
      && r.nodeActivationCount == s.nodeActivationCount
      && |head| < |r.events| && r.events[..|head| + 1] == head + [PaddingTimeOver(idx)]
      && (r.runningFragmentIndex == IndexNone || idx < r.runningFragmentIndex < |s.fragments|)
  {
    SpeechEndedFacts(s);
    var s3 := SpeechEnded(s);
    PaddingCompleteOutcome(s3);
    OnPaddingCompleteEvolves(s3);
  }

  // ----------------------------------------------------------------------------------------
  // Prompts

  /** Strictly increasing, hence sorted and free of repetitions. */
  predicate Ascending(r: seq<nat>) {
    forall a, b :: 0 <= a < b < |r| ==> r[a] < r[b]
  }

  /** BroadcastedFragments holds exactly the eligible fragments, in ascending index order. */
  lemma {:induction false} EligibleUpToExact(frags: seq<Fragment>, n: nat)
    requires n <= |frags|
    ensures forall k: nat :: k in EligibleUpTo(frags, n) <==> k < n && Eligible(frags[k])
    ensures Ascending(EligibleUpTo(frags, n))
  {
    if n > 0 {
      EligibleUpToExact(frags, n - 1);
      var prev := EligibleUpTo(frags, n - 1);
      var r := EligibleUpTo(frags, n);
      if Eligible(frags[n - 1]) {
        assert r == prev + [n - 1];
        forall a, b | 0 <= a < b < |r|
          ensures r[a] < r[b]
        {
          assert r[a] == prev[a] && prev[a] in prev;
          if b < |prev| {
            assert r[b] == prev[b];
          }
        }
      } else {
        assert r == prev;
      }
    }
  }

  /** One PromptOptionAdded per offered fragment, in the order offered. */
  lemma {:induction false} PromptEventsContents(indices: seq<nat>)
    ensures forall j :: 0 <= j < |indices| ==> PromptEvents(indices)[j] == PromptOptionAdded(indices[j])
  {
    if indices != [] {
      PromptEventsContents(indices[..|indices| - 1]);
    }
  }

  /**
   * RunPrompt on a fragment that runs: it becomes the running fragment and the node
   * activation is counted once.
   */
  lemma RunPromptRuns(s: NodeState, i: nat)
    requires i < |s.fragments| && Eligible(s.fragments[i])
    ensures var r := RunPromptSpec(s, i);
      && r.runningFragmentIndex == i && r.nodeActivationCount == s.nodeActivationCount + 1
      && r.events == s.events + StartEvents(s.fragments[i], i)
  {
    RunFragmentRuns(s, i);
  }

  /**
   * Defect kept as written: RunPrompt counts a node activation even when the chosen fragment
   * does not run; nothing is left running and the node leaves through Bypass.
   */
  lemma RunPromptCountsFailures(s: NodeState, i: nat)
    requires !(i < |s.fragments| && Eligible(s.fragments[i]))
    ensures var r := RunPromptSpec(s, i);
      && r.nodeActivationCount == s.nodeActivationCount + 1
      && r.runningFragmentIndex == IndexNone
      && r.events == s.events + (if i < |s.fragments| then [] else [LogError(InvalidRunIndexMessage)]) + [Output(BypassPinName, true)]
  {
    RunFragmentFails(s, i);
  }

  /**
   * BroadcastPrompts offers every eligible fragment in index order and then announces the end
   * of the list, once. No offer leaves through Bypass; a single offer with auto-select runs
   * that fragment and counts the node; otherwise the node waits for the player's choice.
   */
  lemma BroadcastPromptsOutcome(s: NodeState)
    ensures var e := EligibleUpTo(s.fragments, |s.fragments|);
      var r := BroadcastPromptsSpec(s);
      var offered := s.events + PromptEvents(e) + [PromptOptionsAllAdded];
      && (|e| == 0 ==>
            && r.events == offered + [Output(BypassPinName, true)]
            && r.nodeActivationCount == s.nodeActivationCount && r.fragments == s.fragments
            && r.runningFragmentIndex == s.runningFragmentIndex)
      && (|e| == 1 && s.settings.autoSelectLastPrompt ==>
            && r.runningFragmentIndex == e[0]
            && r.nodeActivationCount == s.nodeActivationCount + 1
            && r.events == offered + StartEvents(s.fragments[e[0]], e[0]))
      && (|e| >= 2 || (|e| == 1 && !s.settings.autoSelectLastPrompt) ==> r == s.(events := offered))
  {
    var e := EligibleUpTo(s.fragments, |s.fragments|);
    var s1 := s.(events := s.events + PromptEvents(e)).Log(PromptOptionsAllAdded);
    if |e| == 1 {
      EligibleUpToExact(s.fragments, |s.fragments|);
      assert e[0] in e;
      RunPromptRuns(s1, e[0]);
    }
  }

  // ----------------------------------------------------------------------------------------
  // ExecuteInput

  /** Failing node conditions or met activation limits leave through Bypass and change nothing else. */
  lemma ExecuteInputBypass(s: NodeState)
    requires !AllPass(s.conditions) || ActivationLimitsMet(s)
    ensures ExecuteInputSpec(s) == s.Log(Output(BypassPinName, true))
  {
  }

  /** One entry counts at most one node activation. */
  lemma ExecuteInputCountsAtMostOnce(s: NodeState)
    ensures s.nodeActivationCount <= ExecuteInputSpec(s).nodeActivationCount <= s.nodeActivationCount + 1
  {
    if AllPass(s.conditions) && !ActivationLimitsMet(s) {
      if s.IsPlayerPrompt() {
        BroadcastPromptsOutcome(s);
      } else {
        StartScanRunsFirstEligible(s, 0);
      }
    }
  }

  /** A positive node activation limit is never exceeded by entering the node. */
  lemma NodeLimitNeverExceeded(s: NodeState)
    requires s.activationLimit > 0 && s.nodeActivationCount <= s.activationLimit
    ensures ExecuteInputSpec(s).nodeActivationCount <= s.activationLimit
  {
    ExecuteInputCountsAtMostOnce(s);
  }

  /** A node whose Bypass pin is not required passes its gates and has an eligible fragment. */
  lemma BypassNotRequiredGates(s: NodeState) returns (k: nat)
    requires !BypassRequired(s)
    ensures AllPass(s.conditions) && !ActivationLimitsMet(s)
    ensures k < |s.fragments| && Eligible(s.fragments[k])
  {
    k :| 0 <= k < |s.fragments| && |s.fragments[k].conditions| == 0 && s.fragments[k].activationLimit == 0;
    assert !FragmentExhausted(s.fragments[k]);
  }

  /** Offers never include a Bypass output. */
  lemma PromptEventsAreOffers(indices: seq<nat>)
    ensures Output(BypassPinName, true) !in PromptEvents(indices)
  {
    PromptEventsContents(indices);
  }

  /** With an eligible fragment, BroadcastPrompts sends out only offers, the end of the list and a start. */
  lemma PromptsWithOfferAvoidBypass(s: NodeState, k: nat)
    requires k < |s.fragments| && Eligible(s.fragments[k])
    ensures var r := BroadcastPromptsSpec(s);
      |s.events| <= |r.events| && Output(BypassPinName, true) !in r.events[|s.events|..]
  {
    var n := |s.fragments|;
    var e := EligibleUpTo(s.fragments, n);
    EligibleUpToExact(s.fragments, n);
    assert k in e;
    PromptEventsAreOffers(e);
    var offered := PromptEvents(e) + [PromptOptionsAllAdded];
    assert Output(BypassPinName, true) !in offered;
    var s1 := s.(events := s.events + PromptEvents(e)).Log(PromptOptionsAllAdded);
    assert s1.events == s.events + offered;
    if |e| == 1 && s.settings.autoSelectLastPrompt {
      assert e[0] in e;
      RunPromptRuns(s1, e[0]);
      var st := StartEvents(s1.fragments[e[0]], e[0]);
      var r := RunPromptSpec(s1, e[0]);
      assert r.events == s.events + (offered + st);
      assert r.events[|s.events|..] == offered + st;
    } else {
      assert BroadcastPromptsSpec(s) == s1;
      assert s1.events[|s.events|..] == offered;
    }
  }

  /** With an eligible fragment, FindStartingFragment sends out only a start. */
  lemma TalkWithEligibleAvoidsBypass(s: NodeState, k: nat)
    requires k < |s.fragments| && Eligible(s.fragments[k])
    ensures var r := FindStartingFragmentSpec(s);
      |s.events| <= |r.events| && Output(BypassPinName, true) !in r.events[|s.events|..]
  {
    StartScanRunsFirstEligible(s, 0);
    var j := FirstEligible(s.fragments, 0);
    var r := FindStartingFragmentSpec(s);
    assert r.events[|s.events|..] == StartEvents(s.fragments[j], j);
  }

  /**
   * The Bypass pin is shown whenever entering the node can use it: a node whose Bypass pin is
   * not required never leaves through Bypass on entry.
   */
  lemma BypassOnlyWhenRequired(s: NodeState)
    requires !BypassRequired(s)
    ensures var r := ExecuteInputSpec(s);
      |s.events| <= |r.events| && Output(BypassPinName, true) !in r.events[|s.events|..]
  {
    var k := BypassNotRequiredGates(s);
    if s.IsPlayerPrompt() {
      PromptsWithOfferAvoidBypass(s, k);
    } else {
      TalkWithEligibleAvoidsBypass(s, k);
    }
  }

  // ----------------------------------------------------------------------------------------
  // Skipping

  /** A permitted skip with no timer handle and no manual advance pending still succeeds, changing nothing. */
  lemma SkipWithoutTimersSucceeds(s: NodeState)
    requires RunningOk(s) && CanSkipSpec(s)
    requires s.speechTimer == Cleared && s.paddingTimer == Cleared && !s.awaitingManualAdvance
    ensures SkipCurrentSpec(s) == (s, true)
  {
  }

  /**
   * A skip during speech with a positive padding ends the speech and then, in the same call,
   * the padding it has just armed: the end broadcast, the end pin and the end of padding go
   * out in that order, and afterwards nothing runs or a later fragment does.
   */
  lemma SkipDuringSpeechEndsPadding(s: NodeState)
    requires Inv(s) && 0 <= s.runningFragmentIndex < |s.fragments| && CanSkipSpec(s)
    requires s.speechTimer.IsValid()
    requires s.fragments[s.runningFragmentIndex].GetPaddingToNextFragment(s.settings) > 0.0
    ensures var idx := s.runningFragmentIndex;
      var r := SkipCurrentSpec(s);
      var head := s.events + SpeechEndEvents(s.fragments[idx], idx) + [PaddingTimeOver(idx)];
      && r.1
      && |head| <= |r.0.events| && r.0.events[..|head|] == head
      && (r.0.runningFragmentIndex == IndexNone || idx < r.0.runningFragmentIndex < |s.fragments|)
  {
    var idx := s.runningFragmentIndex;
    var s1 := OnSpeakingCompleteSpec(s);
    SpeakingCompleteOrder(s);
    var s2 := OnPaddingCompleteSpec(s1);
    PaddingCompleteOutcome(s1);
    assert SkipPhasesSpec(s) == s2;
    var head := s.events + SpeechEndEvents(s.fragments[idx], idx) + [PaddingTimeOver(idx)];
    assert s2.events[..|head|] == head;
    if s2.awaitingManualAdvance {
      var s3 := s2.(awaitingManualAdvance := false);
      var from := ToUint8(s2.runningFragmentIndex);
      AdvanceEvolves(s3, from);
      var r := AdvanceFromFragmentSpec(s3, from);
      assert r.events[..|s3.events|] == s3.events;
      assert r.events[..|head|] == head;
      if from < |s3.fragments| {
        AdvancePolicies(s3, from);
      }
    }
  }

  /**
   * Defect kept as written: a fragment left awaiting a manual advance cannot be skipped,
   * because OnPaddingComplete has already set the running index to INDEX_NONE.
   */
  lemma AwaitingManualAdvanceIsNotSkippable(s: NodeState)
    requires Inv(s) && 0 <= s.runningFragmentIndex < |s.fragments|
    requires !s.fragments[s.runningFragmentIndex].GetAutoAdvance(s.GetAutoAdvance())
    ensures var r := OnPaddingCompleteSpec(s);
      r.awaitingManualAdvance && RunningOk(r) && !CanSkipSpec(r)
  {
    PaddingCompleteOutcome(s);
  }

  /**
   * Defect kept as written: when a skip ends the padding of a fragment that does not
   * auto-advance, SkipCurrent advances from INDEX_NONE truncated to a uint8, an index no
   * node has, and the access faults.
   */
  lemma SkipIntoManualAdvanceFaults(s: NodeState)
    requires Inv(s) && 0 <= s.runningFragmentIndex < |s.fragments| && CanSkipSpec(s)
    requires s.speechTimer == Cleared && s.paddingTimer.IsValid() && !s.awaitingManualAdvance
    requires !s.fragments[s.runningFragmentIndex].GetAutoAdvance(s.GetAutoAdvance())
    ensures var r := SkipCurrentSpec(s);
      && r.1 && !r.0.awaitingManualAdvance && r.0.runningFragmentIndex == IndexNone
      && r.0.events == s.events + [PaddingTimeOver(s.runningFragmentIndex), RangeCheckFailure(255)]
  {
    PaddingCompleteOutcome(s);
  }

  /**
   * The same defect reached from the speech phase: a skip ends the speech of a fragment with
   * no padding that does not auto-advance, the padding completes inside OnSpeakingComplete and
   * leaves the node waiting with INDEX_NONE running, and SkipCurrent then advances from 255.
   */
  lemma SkipDuringSpeechIntoManualAdvanceFaults(s: NodeState)
    requires Inv(s) && 0 <= s.runningFragmentIndex < |s.fragments| && CanSkipSpec(s)
    requires s.speechTimer.IsValid() && s.paddingTimer == Cleared && !s.awaitingManualAdvance
    requires !s.fragments[s.runningFragmentIndex].GetAutoAdvance(s.GetAutoAdvance())
    requires s.fragments[s.runningFragmentIndex].GetPaddingToNextFragment(s.settings) <= 0.0
    ensures var idx := s.runningFragmentIndex;
      var t := OnSpeakingCompleteSpec(s);
      var r := SkipCurrentSpec(s);
      && t.awaitingManualAdvance && t.runningFragmentIndex == IndexNone && t.paddingTimer == Cleared
      && t.events == s.events + SpeechEndEvents(s.fragments[idx], idx) + [PaddingTimeOver(idx)]
      && SkipPhasesSpec(s) == t
      && r.1 && !r.0.awaitingManualAdvance && r.0.runningFragmentIndex == IndexNone
      && r.0.events == t.events + [RangeCheckFailure(255)]
  {
    var idx := s.runningFragmentIndex;
    SpeechEndedFacts(s);
    var s3 := SpeechEnded(s);
    assert s3.fragments[idx].GetAutoAdvance(s3.GetAutoAdvance()) == s.fragments[idx].GetAutoAdvance(s.GetAutoAdvance());
    PaddingCompleteOutcome(s3);
  }

  /** A skip that starts by ending the speech keeps everything that ending sent out. */
  lemma SkipExtendsSpeechEnd(s: NodeState)
    requires RunningOk(s) && CanSkipSpec(s) && s.speechTimer.IsValid()
    ensures var t1 := OnSpeakingCompleteSpec(s);
      var r := SkipCurrentSpec(s).0;
      |t1.events| <= |r.events| && r.events[..|t1.events|] == t1.events
  {
    var t1 := OnSpeakingCompleteSpec(s);
    var t2 := SkipPhasesSpec(s);
    if t1.paddingTimer.IsValid() {
      OnPaddingCompleteEvolves(t1);
    }
    assert t1.events <= t2.events;
    if t2.awaitingManualAdvance {
      var t3 := t2.(awaitingManualAdvance := false);
      AdvanceEvolves(t3, ToUint8(t2.runningFragmentIndex));
      assert t3.events <= SkipCurrentSpec(s).0.events;
    }
  }

  /** RunFragment never touches the padding timer, and a fragment that does not run leaves the speech timer alone. */
  lemma RunFragmentTimers(s: NodeState, i: nat)
    ensures var (r, ran) := RunFragmentSpec(s, i);
      r.paddingTimer == s.paddingTimer && (!ran ==> r.speechTimer == s.speechTimer)
  {
  }

  /** The advance scan keeps the padding timer; the speech timer changes only for a fragment the scan starts. */
  lemma {:induction false} ScanTimers(s: NodeState, next: nat)
    ensures var r := ScanSpec(s, next);
      && r.paddingTimer == s.paddingTimer
      && (r.speechTimer == s.speechTimer || next <= r.runningFragmentIndex < |s.fragments|)
    decreases |s.fragments| - next
  {
    if next < |s.fragments| {
      var (s1, ran) := RunFragmentSpec(s, next);
      RunFragmentTimers(s, next);
      if !ran && s1.talkSequencing != RunUntilFailure {
        ScanTimers(s1, next + 1);
      }
    }
  }

  /** Advancing keeps the padding timer; the speech timer changes only for a later fragment that starts. */
  lemma AdvanceTimers(s: NodeState, idx: nat)
    ensures var r := AdvanceFromFragmentSpec(s, idx);
      && r.paddingTimer == s.paddingTimer
      && (r.speechTimer == s.speechTimer || idx < r.runningFragmentIndex < |s.fragments|)
  {
    if idx < |s.fragments| && !s.IsPlayerPrompt() && s.talkSequencing != SelectOne {
      ScanTimers(WithFragment(s, idx, s.fragments[idx].SetRunState(Idle)), idx + 1);
    }
  }

  /**
   * OnPaddingComplete leaves the padding handle cleared, whatever follows it, and the speech
   * handle as it found it unless a later fragment has started.
   */
  lemma PaddingCompleteTimers(s: NodeState)
    ensures var r := OnPaddingCompleteSpec(s);
      && r.paddingTimer == Cleared
      && (r.speechTimer == s.speechTimer || ToUint8(s.runningFragmentIndex) < r.runningFragmentIndex < |s.fragments|)
  {
    var idx := ToUint8(s.runningFragmentIndex);
    var s1 := EndPaddingSpec(s);
    if idx < |s1.fragments| && s1.fragments[idx].GetAutoAdvance(s1.GetAutoAdvance()) {
      AdvanceTimers(s1, idx);
    }
  }

  /**
   * The speech timer coming due leaves no stale handle: its callback clears the speech handle.
   * A positive padding then arms a fresh padding timer with the fragment still running; any
   * other padding ends at once, leaving the padding handle cleared and the speech handle set
   * only by a later fragment that has started.
   */
  lemma SpeechTimerFireClearsHandles(s: NodeState)
    requires Inv(s) && 0 <= s.runningFragmentIndex < |s.fragments|
    requires s.speechTimer.Pending? && s.speechTimer.remaining <= 0.0
    ensures var idx := s.runningFragmentIndex;
      var r := FireSpeechTimerSpec(s);
      var pad := s.fragments[idx].GetPaddingToNextFragment(s.settings);
      && (pad > 0.0 ==> r.speechTimer == Cleared && r.paddingTimer == TimerSlot.Pending(pad) && r.runningFragmentIndex == idx)
      && (pad <= 0.0 ==> r.paddingTimer == Cleared && (r.speechTimer.IsValid() ==> idx < r.runningFragmentIndex < |s.fragments|))
  {
    var idx := s.runningFragmentIndex;
    if s.fragments[idx].GetPaddingToNextFragment(s.settings) > 0.0 {
      SpeakingCompleteArmsPadding(s);
    } else {
      SpeechEndedFacts(s);
      PaddingCompleteTimers(SpeechEnded(s));
    }
  }

  /**
   * The padding timer coming due leaves no stale handle: the padding handle is cleared, and a
   * speech handle that was clear is set again only by a later fragment that has started.
   */
  lemma PaddingTimerFireClearsHandles(s: NodeState)
    requires s.paddingTimer.Pending? && s.paddingTimer.remaining <= 0.0 && s.speechTimer == Cleared
    ensures var r := FirePaddingTimerSpec(s);
      && r.paddingTimer == Cleared
      && (r.speechTimer.IsValid() ==> ToUint8(s.runningFragmentIndex) < r.runningFragmentIndex < |s.fragments|)
  {
    PaddingCompleteTimers(s);
  }

  // ----------------------------------------------------------------------------------------
  // Activation limits

  /**
   * The node-level test counts a fragment with any non-zero limit as used up once its count
   * reaches the limit, while the fragment's own test only honours positive limits: the two
   * agree on positive and zero limits and disagree on negative ones.
   */
  lemma ExhaustedVersusLimitMet(f: Fragment)
    ensures f.activationLimit >= 0 ==> (FragmentExhausted(f) <==> f.IsActivationLimitMet())
    ensures f.activationLimit < 0 && f.activationCount >= 0 ==> FragmentExhausted(f) && !f.IsActivationLimitMet()
  {
  }

  // ----------------------------------------------------------------------------------------
  // Editing

  /** CycleFragmentSequencingMode visits RunAll, RunUntilFailure, SelectOne and returns after three steps. */
  lemma CycleVisitsAllModes(t: TalkSequencing)
    ensures CycleSpec(RunAll) == RunUntilFailure && CycleSpec(RunUntilFailure) == SelectOne && CycleSpec(SelectOne) == RunAll
    ensures CycleSpec(t) != t && CycleSpec(CycleSpec(t)) != t
    ensures CycleSpec(CycleSpec(CycleSpec(t))) == t
  {
  }

  /** ToggleNodeType turns a talk node into a prompt node and back. */
  lemma ToggleAlternates(s: NodeState)
    ensures s.(nodeType := ToggleSpec(s.nodeType)).IsPlayerPrompt() <==> !s.IsPlayerPrompt()
    ensures ToggleSpec(ToggleSpec(s.nodeType)) == s.nodeType
  {
  }

  /**
   * SwapFragments on two valid indices: the two fragments trade places, no other fragment
   * moves, and every fragment's IndexInDialogue is its new position.
   */
  lemma SwapMovesOnlyTwo(s: NodeState, a: uint8, b: uint8)
    requires |s.fragments| <= MaxFragments && a < |s.fragments| && b < |s.fragments|
    ensures var r := SwapFragmentsSpec(s, a, b);
      && |r.fragments| == |s.fragments|
      && (forall k :: 0 <= k < |r.fragments| ==> r.fragments[k].indexInDialogue == k)
      && r.fragments[a] == s.fragments[b].SetIndexInDialogue(a)
      && r.fragments[b] == s.fragments[a].SetIndexInDialogue(b)
      && (forall k :: 0 <= k < |s.fragments| && k != a && k != b ==> r.fragments[k] == s.fragments[k].SetIndexInDialogue(k))
      && r.events == s.events + [ReconstructionRequested]
  {
  }

  /** Swapping the same two fragments twice restores the order, with every fragment renumbered. */
  lemma SwapTwiceRestoresOrder(s: NodeState, a: uint8, b: uint8)
    requires |s.fragments| <= MaxFragments && a < |s.fragments| && b < |s.fragments|
    ensures SwapFragmentsSpec(SwapFragmentsSpec(s, a, b), a, b).fragments == ReindexSpec(s.fragments)
  {
    var once := ReindexSpec(SwapAt(s.fragments, a, b));
    var twice := ReindexSpec(SwapAt(once, a, b));
    assert SwapFragmentsSpec(SwapFragmentsSpec(s, a, b), a, b).fragments == twice;
    forall k | 0 <= k < |s.fragments|
      ensures twice[k] == ReindexSpec(s.fragments)[k]
    {
      var j := if k == a then b else if k == b then a else k;
      assert SwapAt(once, a, b)[k] == once[j];
      assert SwapAt(s.fragments, a, b)[j] == s.fragments[k];
    }
  }

  /** A swap index past the end is an out-of-range access; the fragments do not change. */
  lemma SwapBadIndexFaults(s: NodeState, a: uint8, b: uint8)
    requires a >= |s.fragments| || b >= |s.fragments|
    ensures var r := SwapFragmentsSpec(s, a, b);
      r.fragments == s.fragments && r.events == s.events + [RangeCheckFailure(if a >= |s.fragments| then a else b)]
  {
  }

  /** DeleteFragmentByIndex on a valid index removes that fragment, keeps the others in order and renumbers them. */
  lemma DeleteRemovesOne(s: NodeState, i: int)
    requires |s.fragments| <= MaxFragments && 0 <= i < |s.fragments|
    ensures var r := DeleteFragmentSpec(s, i);
      && |r.fragments| == |s.fragments| - 1
      && (forall k :: 0 <= k < i ==> r.fragments[k] == s.fragments[k].SetIndexInDialogue(k))
      && (forall k :: i <= k < |r.fragments| ==> r.fragments[k] == s.fragments[k + 1].SetIndexInDialogue(k))
      && r.events == s.events + [ReconstructionRequested]
  {
  }

  /**
   * Defect kept as written: DeleteFragmentByIndex reports an invalid index and still hands it
   * to RemoveAt, which rejects it as an out-of-range access.
   */
  lemma DeleteBadIndexFaults(s: NodeState, i: int)
    requires !(0 <= i < |s.fragments|)
    ensures var r := DeleteFragmentSpec(s, i);
      r.fragments == s.fragments && r.events == s.events + [LogError(InvalidDeletionIndexMessage), RangeCheckFailure(i)]
  {
  }

  /** After UpdateFragmentIndices (on a node of at most 255 fragments) every fragment knows its position. */
  lemma ReindexNumbersPositions(frags: seq<Fragment>)
    requires |frags| <= MaxFragments
    ensures forall k :: 0 <= k < |frags| ==> ReindexSpec(frags)[k].indexInDialogue == k
    ensures forall k :: 0 <= k < |frags| ==> SameAuthoring(frags[k].SetIndexInDialogue(k), ReindexSpec(frags)[k])
  {
  }

  /**
   * GetContextOutputs: the base pins come first, a talk node adds Out right after them, and a
   * node whose Bypass pin is required ends with it. Caching pin names changes no authored
   * data, so the requirement is the node's own.
   */
  lemma ContextOutputsLayout(s: NodeState, basePins: seq<Pin>)
    ensures var (pins, r) := ContextOutputsSpec(s, basePins);
      && |basePins| <= |pins| && pins[..|basePins|] == basePins
      && (!s.IsPlayerPrompt() ==> |basePins| < |pins| && pins[|basePins|] == Pin(OutputPinName, ""))
      && (BypassRequired(s) ==> pins[|pins| - 1] == Pin(BypassPinName, ""))
      && |r.fragments| == |s.fragments|
      && (forall k :: 0 <= k < |s.fragments| ==> SameAuthoring(s.fragments[k], r.fragments[k]))
  {
    ContextPinsKeepAuthoring(s.fragments, s.IsPlayerPrompt(), |s.fragments|);
    var (pins, r) := ContextOutputsSpec(s, basePins);
    assert BypassRequired(r) == BypassRequired(s);
  }

  /** Caching the pin names of the first n fragments changes no authored data. */
  lemma {:induction false} ContextPinsKeepAuthoring(frags: seq<Fragment>, isPrompt: bool, n: nat)
    requires n <= |frags|
    ensures var fs := ContextPinsUpTo(frags, isPrompt, n).1;
      forall k :: 0 <= k < |frags| ==> SameAuthoring(frags[k], fs[k])
  {
    if n > 0 {
      ContextPinsKeepAuthoring(frags, isPrompt, n - 1);
    }
  }

  // ----------------------------------------------------------------------------------------
  // Construction

  /**
   * A node as constructed: a talk node with RunAll, no node limit, no activations, nothing
   * running, no timer, and one fresh fragment with the fragment defaults.
   */
  lemma InitialStateDefaults(id: NodeId, settings: ProjectSettings, now: real, lastGuid: nat)
    ensures var s := InitialState(id, settings, now, lastGuid);
      && !s.IsPlayerPrompt() && s.talkSequencing == RunAll && s.activationLimit == 0
      && s.nodeActivationCount == 0 && s.runningFragmentIndex == IndexNone
      && s.speechTimer == Cleared && s.paddingTimer == Cleared && !s.awaitingManualAdvance
      && s.GetNumFragments() == 1 && s.fragments[0].activationCount == 0
      && s.fragments[0].runState == Idle && s.fragments[0].lastEntryState == NeverRan
      && s.fragments[0].startTime == -1.0 && s.fragments[0].endTime == -1.0
      && !ActivationLimitsMet(s) && !BypassRequired(s)
  {
  }
}
