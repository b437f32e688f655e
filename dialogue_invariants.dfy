// What every playback step of a dialogue node preserves: the node's settings and the authored
// part of its fragments stay as they are, activation counters and the guid counter only grow,
// events are only appended, a kept activation limit stays kept, and the running index stays
// INDEX_NONE or a valid fragment index.
module DialogueInvariants {
  import opened Conditions
  import opened YapFragment
  import opened DialogueSpec

  lemma WithFragmentEvolves(s: NodeState, i: nat, g: Fragment)
    requires i < |s.fragments| && FragmentEvolves(s.fragments[i], g)
    ensures Evolves(s, WithFragment(s, i, g))
    ensures RunningOk(s) ==> RunningOk(WithFragment(s, i, g))
  {
    EvolvesAt(s, i, g);
  }

  lemma LogEvolves(s: NodeState, e: Event)
    ensures Evolves(s, s.Log(e))
    ensures RunningOk(s) ==> RunningOk(s.Log(e))
  {
  }

  lemma TryBroadcastEvolves(s: NodeState, i: nat)
    requires i < |s.fragments|
    ensures Evolves(s, TryBroadcastSpec(s, i).0)
    ensures RunningOk(s) ==> RunningOk(TryBroadcastSpec(s, i).0)
  {
  }

  /** Activating a fragment whose limit is not met keeps every invariant. */
  lemma ActivateEvolves(s: NodeState, i: nat)
    requires i < |s.fragments| && !s.fragments[i].IsActivationLimitMet()
    ensures Evolves(s, ActivateSpec(s, i))
    ensures RunningOk(ActivateSpec(s, i))
  {
    var f := s.fragments[i];
    var s1 := WithFragment(s, i, f.IncrementActivations());
    IncrementActivationsByOne(f);
    WithFragmentEvolves(s, i, f.IncrementActivations());
    var s2 := FireStartPinSpec(s1, i);
    FireStartPinEvolves(s1, i);
    var s3 := ArmSpeechTimerSpec(s2, i);
    ArmSpeechTimerEvolves(s2, i);
    EvolvesTransitive(s, s1, s2);
    EvolvesTransitive(s, s2, s3);
    var g := s3.fragments[i].SetStartTime(s3.now).SetEntryState(Success);
    WithFragmentEvolves(s3.(runningFragmentIndex := i), i, g);
    EvolvesTransitive(s, s3, ActivateSpec(s, i));
  }

  lemma FireStartPinEvolves(s: NodeState, i: nat)
    requires i < |s.fragments|
    ensures Evolves(s, FireStartPinSpec(s, i))
  {
    if s.fragments[i].UsesStartPin() {
      var (pin, g) := s.fragments[i].GetStartPin();
      WithFragmentEvolves(s, i, g);
      EvolvesTransitive(s, WithFragment(s, i, g), FireStartPinSpec(s, i));
    }
  }

  lemma ArmSpeechTimerEvolves(s: NodeState, i: nat)
    requires i < |s.fragments|
    ensures Evolves(s, ArmSpeechTimerSpec(s, i))
  {
  }

  lemma RunFragmentEvolves(s: NodeState, i: nat)
    ensures Evolves(s, RunFragmentSpec(s, i).0)
    ensures RunningOk(s) ==> RunningOk(RunFragmentSpec(s, i).0)
  {
    if i < |s.fragments| {
      var (s1, broadcast) := TryBroadcastSpec(s, i);
      TryBroadcastEvolves(s, i);
      if broadcast {
        ActivateEvolves(s1, i);
        EvolvesTransitive(s, s1, ActivateSpec(s1, i));
      } else {
        WithFragmentEvolves(s, i, s.fragments[i].SetStartTime(-1.0).SetEntryState(Failed));
      }
    }
  }

  lemma ScanEvolves(s: NodeState, next: nat)
    ensures Evolves(s, ScanSpec(s, next))
    ensures RunningOk(s) ==> RunningOk(ScanSpec(s, next))
  {
    ScanKeepsEvolving(s, next);
    if RunningOk(s) {
      ScanKeepsRunningOk(s, next);
    }
  }

  lemma {:induction false} ScanKeepsEvolving(s: NodeState, next: nat)
    ensures Evolves(s, ScanSpec(s, next))
    decreases |s.fragments| - next
  {
    if next < |s.fragments| {
      var (s1, ran) := RunFragmentSpec(s, next);
      RunFragmentEvolves(s, next);
      if !ran && s1.talkSequencing == RunUntilFailure {
        EvolvesTransitive(s, s1, s1.Log(Output(OutputPinName, true)));
      } else if !ran {
        ScanKeepsEvolving(s1, next + 1);
        EvolvesTransitive(s, s1, ScanSpec(s1, next + 1));
      }
    }
  }

  lemma {:induction false} ScanKeepsRunningOk(s: NodeState, next: nat)
    requires RunningOk(s)
    ensures RunningOk(ScanSpec(s, next))
    decreases |s.fragments| - next
  {
    if next < |s.fragments| {
      var (s1, ran) := RunFragmentSpec(s, next);
      RunFragmentEvolves(s, next);
      if !ran && s1.talkSequencing != RunUntilFailure {
        ScanKeepsRunningOk(s1, next + 1);
      }
    }
  }

  lemma AdvanceEvolves(s: NodeState, idx: nat)
    ensures Evolves(s, AdvanceFromFragmentSpec(s, idx))
    ensures RunningOk(s) ==> RunningOk(AdvanceFromFragmentSpec(s, idx))
  {
    if idx < |s.fragments| {
      var s1 := WithFragment(s, idx, s.fragments[idx].SetRunState(Idle));
      WithFragmentEvolves(s, idx, s.fragments[idx].SetRunState(Idle));
      if s1.IsPlayerPrompt() {
        FirePromptPinEvolves(s1, idx);
        var (pin, g) := s1.fragments[idx].GetPromptPin();
        var r := WithFragment(s1, idx, g).Log(Output(pin.name, true));
        assert AdvanceFromFragmentSpec(s, idx) == r;
        EvolvesTransitive(s, s1, r);
      } else if s1.talkSequencing != SelectOne {
        assert AdvanceFromFragmentSpec(s, idx) == ScanSpec(s1, idx + 1);
        ScanEvolves(s1, idx + 1);
        EvolvesTransitive(s, s1, ScanSpec(s1, idx + 1));
      } else {
        assert AdvanceFromFragmentSpec(s, idx) == s1.Log(Output(OutputPinName, true));
      }
    }
  }

  lemma FirePromptPinEvolves(s: NodeState, idx: nat)
    requires idx < |s.fragments|
    ensures var (pin, g) := s.fragments[idx].GetPromptPin();
      var r := WithFragment(s, idx, g).Log(Output(pin.name, true));
      Evolves(s, r) && (RunningOk(s) ==> RunningOk(r))
  {
    var (pin, g) := s.fragments[idx].GetPromptPin();
    WithFragmentEvolves(s, idx, g);
    EvolvesTransitive(s, WithFragment(s, idx, g), WithFragment(s, idx, g).Log(Output(pin.name, true)));
  }

  /** After the padding phase nothing is running, or a valid later fragment has taken over. */
  lemma OnPaddingCompleteEvolves(s: NodeState)
    ensures Evolves(s, OnPaddingCompleteSpec(s))
    ensures RunningOk(OnPaddingCompleteSpec(s))
  {
    var idx := ToUint8(s.runningFragmentIndex);
    var s1 := EndPaddingSpec(s);
    if idx < |s1.fragments| && s1.fragments[idx].GetAutoAdvance(s1.GetAutoAdvance()) {
      AdvanceEvolves(s1, idx);
      EvolvesTransitive(s, s1, AdvanceFromFragmentSpec(s1, idx));
    }
  }

  lemma FireEndPinEvolves(s: NodeState, idx: nat)
    requires idx < |s.fragments|
    ensures Evolves(s, FireEndPinSpec(s, idx))
    ensures RunningOk(s) ==> RunningOk(FireEndPinSpec(s, idx))
  {
    if s.fragments[idx].UsesEndPin() {
      var (pin, g) := s.fragments[idx].GetEndPin();
      WithFragmentEvolves(s, idx, g);
      EvolvesTransitive(s, WithFragment(s, idx, g), FireEndPinSpec(s, idx));
    }
  }

  lemma StartPaddingEvolves(s: NodeState, paddingTime: real)
    ensures Evolves(s, StartPaddingSpec(s, paddingTime))
    ensures RunningOk(s) ==> RunningOk(StartPaddingSpec(s, paddingTime))
  {
    if paddingTime <= 0.0 {
      OnPaddingCompleteEvolves(s);
    }
  }

  lemma OnSpeakingCompleteEvolves(s: NodeState)
    ensures Evolves(s, OnSpeakingCompleteSpec(s))
    ensures RunningOk(s) ==> RunningOk(OnSpeakingCompleteSpec(s))
  {
    var idx := ToUint8(s.runningFragmentIndex);
    var s1 := if s.speechTimer.Exists() then s.(speechTimer := Cleared) else s;
    if idx < |s1.fragments| {
      var s2 := s1.Log(DialogueEnd(idx));
      var paddingTime := s2.fragments[idx].GetPaddingToNextFragment(s2.settings);
      var s3 := FireEndPinSpec(s2, idx);
      FireEndPinEvolves(s2, idx);
      var s4 := StartPaddingSpec(s3, paddingTime);
      StartPaddingEvolves(s3, paddingTime);
      WithFragmentEvolves(s4, idx, s4.fragments[idx].SetEndTime(s4.now));
      assert Evolves(s, s2);
      EvolvesTransitive(s, s2, s3);
      EvolvesTransitive(s, s3, s4);
      EvolvesTransitive(s, s4, OnSpeakingCompleteSpec(s));
    }
  }

  lemma {:induction false} StartScanEvolves(s: NodeState, i: nat)
    ensures Evolves(s, StartScanSpec(s, i))
    ensures RunningOk(s) ==> RunningOk(StartScanSpec(s, i))
    decreases |s.fragments| - i
  {
    if i < |s.fragments| {
      var (s1, ran) := RunFragmentSpec(s, i);
      RunFragmentEvolves(s, i);
      if !ran {
        StartScanEvolves(s1, i + 1);
        EvolvesTransitive(s, s1, StartScanSpec(s1, i + 1));
      }
    }
  }

  lemma RunPromptEvolves(s: NodeState, i: nat)
    ensures Evolves(s, RunPromptSpec(s, i))
    ensures RunningOk(s) ==> RunningOk(RunPromptSpec(s, i))
  {
    RunFragmentEvolves(s, i);
  }

  lemma BroadcastPromptsEvolves(s: NodeState)
    ensures Evolves(s, BroadcastPromptsSpec(s))
    ensures RunningOk(s) ==> RunningOk(BroadcastPromptsSpec(s))
  {
    var eligible := EligibleUpTo(s.fragments, |s.fragments|);
    var s1 := s.(events := s.events + PromptEvents(eligible)).Log(PromptOptionsAllAdded);
    if |eligible| == 1 && s1.settings.autoSelectLastPrompt {
      RunPromptEvolves(s1, eligible[0]);
      EvolvesTransitive(s, s1, RunPromptSpec(s1, eligible[0]));
    }
  }

  /** Entering a node keeps every invariant, whichever route it takes. */
  lemma ExecuteInputEvolves(s: NodeState)
    ensures Evolves(s, ExecuteInputSpec(s))
    ensures RunningOk(s) ==> RunningOk(ExecuteInputSpec(s))
  {
    if AllPass(s.conditions) && !ActivationLimitsMet(s) {
      if s.IsPlayerPrompt() {
        BroadcastPromptsEvolves(s);
      } else {
        StartScanEvolves(s, 0);
      }
    }
  }

  /** A skip keeps every invariant and leaves the running index valid. */
  lemma SkipCurrentEvolves(s: NodeState)
    requires RunningOk(s)
    ensures Evolves(s, SkipCurrentSpec(s).0)
    ensures RunningOk(SkipCurrentSpec(s).0)
  {
    if CanSkipSpec(s) {
      var s2 := SkipPhasesSpec(s);
      SkipPhasesEvolves(s);
      if s2.awaitingManualAdvance {
        var s3 := s2.(awaitingManualAdvance := false);
        var idx := ToUint8(s2.runningFragmentIndex);
        AdvanceEvolves(s3, idx);
        EvolvesTransitive(s, s3, AdvanceFromFragmentSpec(s3, idx));
      }
    }
  }

  /** Cutting the speech and padding phases short keeps every invariant. */
  lemma SkipPhasesEvolves(s: NodeState)
    requires RunningOk(s)
    ensures Evolves(s, SkipPhasesSpec(s))
    ensures RunningOk(SkipPhasesSpec(s))
  {
    var s1 := if s.speechTimer.IsValid() then OnSpeakingCompleteSpec(s) else s;
    OnSpeakingCompleteEvolves(s);
    if s1.paddingTimer.IsValid() {
      OnPaddingCompleteEvolves(s1);
      EvolvesTransitive(s, s1, OnPaddingCompleteSpec(s1));
    }
  }

  lemma FireTimersEvolve(s: NodeState)
    ensures s.speechTimer.Pending? && s.speechTimer.remaining <= 0.0 ==> Evolves(s, FireSpeechTimerSpec(s))
    ensures s.speechTimer.Pending? && s.speechTimer.remaining <= 0.0 && RunningOk(s) ==> RunningOk(FireSpeechTimerSpec(s))
    ensures s.paddingTimer.Pending? && s.paddingTimer.remaining <= 0.0 ==>
      Evolves(s, FirePaddingTimerSpec(s)) && RunningOk(FirePaddingTimerSpec(s))
  {
    OnSpeakingCompleteEvolves(s);
    OnPaddingCompleteEvolves(s);
  }

  /** No playback step adds or removes fragments, so the node invariant is kept by every one of them. */
  lemma PlaybackKeepsInv(s: NodeState, i: nat)
    requires Inv(s)
    ensures Inv(ExecuteInputSpec(s))
    ensures Inv(RunFragmentSpec(s, i).0)
    ensures Inv(OnSpeakingCompleteSpec(s))
    ensures Inv(OnPaddingCompleteSpec(s))
    ensures Inv(AdvanceFromFragmentSpec(s, i))
    ensures Inv(SkipCurrentSpec(s).0)
  {
    ExecuteInputEvolves(s);
    RunFragmentEvolves(s, i);
    OnSpeakingCompleteEvolves(s);
    OnPaddingCompleteEvolves(s);
    AdvanceEvolves(s, i);
    SkipCurrentEvolves(s);
  }
}
