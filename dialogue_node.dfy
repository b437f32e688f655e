// UFlowNode_YapDialogue as a class whose fields the methods update in place. Every method
// that changes the node ends in the state its DialogueSpec function describes; the queries
// that only read the node are proved against the predicates they compute.
module YapDialogueNode {
  import opened Wrappers
  import opened Guids
  import opened GameplayTags
  import opened Conditions
  import opened YapProjectSettings
  import opened YapFragment
  import opened Handles
  import opened DialogueSpec

  class DialogueNode {
    const id: NodeId
    const settings: ProjectSettings
    var dialogueNodeType: DialogueNodeType
    var nodeActivationLimit: int
    var talkSequencing: TalkSequencing
    var skippable: Option<bool>
    var autoAdvance: Option<bool>
    var dialogueTag: Tag
    var conditions: seq<Condition>
    var audioID: string
    var fragments: seq<Fragment>
    var nodeActivationCount: int
    var runningFragmentIndex: int
    var fragmentTimerHandle: TimerSlot
    var paddingTimerHandle: TimerSlot
    var fragmentAwaitingManualAdvance: bool
    var dialogueHandle: DialogueHandle
    /** The world clock (GetWorld()->GetTimeSeconds()). */
    var worldTime: real
    /** The last guid handed out; the next one is larger. */
    var lastGuid: nat
    /** Everything the node has sent out so far. */
    var events: seq<Event>

    /** The node as a value. */
    function State(): NodeState
      reads this
    {
      NodeState(id, settings, dialogueNodeType, nodeActivationLimit, talkSequencing, skippable,
                autoAdvance, dialogueTag, conditions, audioID, fragments, nodeActivationCount,
                runningFragmentIndex, fragmentTimerHandle, paddingTimerHandle,
                fragmentAwaitingManualAdvance, dialogueHandle, worldTime, lastGuid, events)
    }

    /** A talk node, unlimited, RunAll, always with one fragment. */
    constructor(id: NodeId, settings: ProjectSettings, now: real, last: nat)
      ensures State() == InitialState(id, settings, now, last)
    {
      this.id := id;
      this.settings := settings;
      dialogueNodeType := Talk;
      nodeActivationLimit := 0;
      talkSequencing := RunAll;
      skippable := None;
      autoAdvance := None;
      dialogueTag := EmptyTag;
      conditions := [];
      audioID := "";
      var (g, next) := NewGuid(last);
      fragments := [NewFragment(g)];
      nodeActivationCount := 0;
      runningFragmentIndex := IndexNone;
      fragmentTimerHandle := Cleared;
      paddingTimerHandle := Cleared;
      fragmentAwaitingManualAdvance := false;
      dialogueHandle := NoDialogueHandle;
      worldTime := now;
      lastGuid := next;
      events := [];
    }

    /** Appends one event to the log (a broadcast, a log line or a failed range check). */
    method Emit(e: Event)
      modifies this`events
      ensures State() == old(State()).Log(e)
    {
      events := events + [e];
    }

    /** TriggerOutput */
    method TriggerOutput(pin: string, finish: bool)
      modifies this`events
      ensures State() == old(State()).Log(Output(pin, finish))
    {
      Emit(Output(pin, finish));
    }

    // --------------------------------------------------------------------------------------
    // Queries

    /** CheckConditions: every node condition that is set passes. */
    method CheckConditions() returns (pass: bool)
      ensures pass <==> AllPass(conditions)
    {
      var stoppedAt;
      pass, stoppedAt := Evaluate(conditions);
    }

    /** ActivationLimitsMet: the node limit is reached, or no fragment can run again. */
    method ActivationLimitsMet() returns (met: bool)
      ensures met <==> DialogueSpec.ActivationLimitsMet(State())
    {
      if nodeActivationLimit > 0 && nodeActivationCount >= nodeActivationLimit {
        return true;
      }
      var i := 0;
      while i < |fragments|
        invariant 0 <= i <= |fragments|
        invariant forall k :: 0 <= k < i ==> FragmentExhausted(fragments[k])
      {
        var limit := fragments[i].activationLimit;
        var count := fragments[i].activationCount;
        if limit == 0 || count < limit {
          return false;
        }
        i := i + 1;
      }
      return true;
    }

    /** IsBypassPinRequired */
    method IsBypassPinRequired() returns (required: bool)
      ensures required <==> BypassRequired(State())
    {
      if |conditions| > 0 || nodeActivationLimit > 0 {
        return true;
      }
      var i := 0;
      while i < |fragments|
        invariant 0 <= i <= |fragments|
        invariant forall k :: 0 <= k < i ==> !(|fragments[k].conditions| == 0 && fragments[k].activationLimit == 0)
      {
        if |fragments[i].conditions| == 0 && fragments[i].activationLimit == 0 {
          return false;
        }
        i := i + 1;
      }
      return true;
    }

    /** FindFragmentIndex: the first fragment with the guid, or INDEX_NONE. */
    method FindFragmentIndex(guid: Guid) returns (index: int)
      requires |fragments| <= MaxFragments
      ensures index == IndexNone || 0 <= index < |fragments|
      ensures index == IndexNone <==> forall k :: 0 <= k < |fragments| ==> fragments[k].guid != guid
      ensures index != IndexNone ==> fragments[index].guid == guid
      ensures forall k :: 0 <= k < index ==> fragments[k].guid != guid
    {
      var i := 0;
      while i < |fragments|
        invariant 0 <= i <= |fragments|
        invariant forall k :: 0 <= k < i ==> fragments[k].guid != guid
      {
        if fragments[i].guid == guid {
          return i;
        }
        i := i + 1;
      }
      return IndexNone;
    }

    /** FindTaggedFragment: the first fragment carrying the tag, if any. */
    method FindTaggedFragment(tag: Tag) returns (found: Option<nat>)
      ensures found.None? <==> forall k :: 0 <= k < |fragments| ==> fragments[k].fragmentTag != tag
      ensures found.Some? ==> found.value < |fragments| && fragments[found.value].fragmentTag == tag
      ensures found.Some? ==> forall k :: 0 <= k < found.value ==> fragments[k].fragmentTag != tag
    {
      var i := 0;
      while i < |fragments|
        invariant 0 <= i <= |fragments|
        invariant forall k :: 0 <= k < i ==> fragments[k].fragmentTag != tag
      {
        if fragments[i].fragmentTag == tag {
          return Some(i);
        }
        i := i + 1;
      }
      return None;
    }

    /** CanSkipCurrentFragment, guard by guard. */
    method CanSkipCurrentFragment() returns (canSkip: bool)
      requires RunningOk(State())
      ensures canSkip <==> CanSkipSpec(State())
    {
      if runningFragmentIndex == IndexNone {
        return false;
      }
      var fragment := fragments[runningFragmentIndex];
      if fragmentAwaitingManualAdvance {
        return true;
      }
      var preventSkippingTimers := !fragment.GetSkippable(State().GetSkippable());
      if preventSkippingTimers && (fragmentTimerHandle.IsValid() || paddingTimerHandle.IsValid()) {
        return false;
      }
      var willAutoAdvance := fragment.GetAutoAdvance(State().GetAutoAdvance());
      if willAutoAdvance {
        var minTimeRemaining := settings.minimumTimeRemainingToAllowSkip;
        if minTimeRemaining > 0.0 {
          var speechTimeRemaining := if fragmentTimerHandle.IsValid() then fragmentTimerHandle.Remaining() else 0.0;
          var paddingTimeRemaining := if paddingTimerHandle.IsValid() then paddingTimerHandle.Remaining() else 0.0;
          if speechTimeRemaining + paddingTimeRemaining < minTimeRemaining {
            return false;
          }
        }
      }
      var minTimeElapsed := settings.minimumTimeElapsedToAllowSkip;
      if minTimeElapsed > 0.0 {
        var speechTimeElapsed := worldTime - fragment.startTime;
        if speechTimeElapsed < minTimeElapsed {
          return false;
        }
      }
      return true;
    }

    // --------------------------------------------------------------------------------------
    // Playback

    /** ExecuteInput */
    method ExecuteInput()
      requires |fragments| <= MaxFragments
      modifies this
      ensures State() == ExecuteInputSpec(old(State()))
    {
      var pass := CheckConditions();
      if !pass {
        TriggerOutput(BypassPinName, true);
        return;
      }
      var met := ActivationLimitsMet();
      if met {
        TriggerOutput(BypassPinName, true);
        return;
      }
      if dialogueNodeType == PlayerPrompt {
        BroadcastPrompts();
      } else {
        FindStartingFragment();
      }
    }

    /** OnPassThrough */
    method OnPassThrough()
      modifies this
      ensures State() == OnPassThroughSpec(old(State()))
    {
      if dialogueNodeType == PlayerPrompt {
        Emit(PassThroughOutput(BypassPinName));
      } else {
        Emit(PassThroughOutput(OutputPinName));
      }
    }

    /** TryBroadcastFragment */
    method TryBroadcastFragment(i: nat) returns (broadcast: bool)
      requires i < |fragments|
      modifies this
      ensures (State(), broadcast) == TryBroadcastSpec(old(State()), i)
    {
      var fragment := fragments[i];
      var pass, stoppedAt := Evaluate(fragment.conditions);
      if !pass {
        return false;
      }
      if fragment.IsActivationLimitMet() {
        return false;
      }
      var (handle, last) := NewDialogueHandle(id, i, ResolvedSkippable(State(), fragment), lastGuid);
      dialogueHandle := handle;
      lastGuid := last;
      Emit(DialogueStart(i));
      return true;
    }

    /** Writes fragment i back (the source updates it through a reference into Fragments). */
    method SetFragment(i: nat, g: Fragment)
      requires i < |fragments|
      modifies this`fragments
      ensures State() == WithFragment(old(State()), i, g)
    {
      fragments := fragments[i := g];
    }

    /** The start-pin step of RunFragment. */
    method FireStartPin(i: nat)
      requires i < |fragments|
      modifies this`fragments, this`events
      ensures State() == FireStartPinSpec(old(State()), i)
    {
      if fragments[i].UsesStartPin() {
        var (startPin, cached) := fragments[i].GetStartPin();
        SetFragment(i, cached);
        TriggerOutput(startPin.name, false);
      }
    }

    /** The timer step of RunFragment: only a fragment with a time arms the speech timer. */
    method ArmSpeechTimer(i: nat)
      requires i < |fragments|
      modifies this`fragmentTimerHandle
      ensures State() == ArmSpeechTimerSpec(old(State()), i)
    {
      var time := fragments[i].speechTime;
      if time.Some? {
        fragmentTimerHandle := SetTimer(time.value);
      }
    }

    /** RunFragment */
    method RunFragment(i: nat) returns (ran: bool)
      modifies this
      ensures (State(), ran) == RunFragmentSpec(old(State()), i)
    {
      if i >= |fragments| {
        Emit(LogError(InvalidRunIndexMessage));
        return false;
      }
      ran := TryBroadcastFragment(i);
      if ran {
        ghost var s1 := State();
        SetFragment(i, fragments[i].IncrementActivations());
        FireStartPin(i);
        ArmSpeechTimer(i);
        runningFragmentIndex := i;
        SetFragment(i, fragments[i].SetStartTime(worldTime).SetEntryState(Success));
        assert State() == ActivateSpec(s1, i);
      } else {
        SetFragment(i, fragments[i].SetStartTime(-1.0).SetEntryState(Failed));
      }
    }

    /** The end-pin step of OnSpeakingComplete. */
    method FireEndPin(i: nat)
      requires i < |fragments|
      modifies this`fragments, this`events
      ensures State() == FireEndPinSpec(old(State()), i)
    {
      if fragments[i].UsesEndPin() {
        var (endPin, cached) := fragments[i].GetEndPin();
        SetFragment(i, cached);
        TriggerOutput(endPin.name, false);
      }
    }

    /** OnSpeakingComplete */
    method OnSpeakingComplete()
      requires |fragments| <= MaxFragments
      modifies this
      ensures State() == OnSpeakingCompleteSpec(old(State()))
    {
      var fragmentIndex := ToUint8(runningFragmentIndex);
      if fragmentTimerHandle.Exists() {
        fragmentTimerHandle := Cleared;
      }
      if fragmentIndex >= |fragments| {
        Emit(RangeCheckFailure(fragmentIndex));
        return;
      }
      Emit(DialogueEnd(fragmentIndex));
      var paddingTime := fragments[fragmentIndex].GetPaddingToNextFragment(settings);
      FireEndPin(fragmentIndex);
      StartPadding(paddingTime);
      SetFragment(fragmentIndex, fragments[fragmentIndex].SetEndTime(worldTime));
    }

    /** The padding step of OnSpeakingComplete: arm the padding timer, or finish padding now. */
    method StartPadding(paddingTime: real)
      requires |fragments| <= MaxFragments
      modifies this
      ensures State() == StartPaddingSpec(old(State()), paddingTime)
    {
      if paddingTime > 0.0 {
        paddingTimerHandle := SetTimer(paddingTime);
      } else {
        OnPaddingComplete();
      }
    }

    /** OnPaddingComplete */
    method OnPaddingComplete()
      requires |fragments| <= MaxFragments
      modifies this
      ensures State() == OnPaddingCompleteSpec(old(State()))
    {
      var finishedFragmentIndex := EndPadding();
      if finishedFragmentIndex >= |fragments| {
        Emit(RangeCheckFailure(finishedFragmentIndex));
        return;
      }
      if fragments[finishedFragmentIndex].GetAutoAdvance(State().GetAutoAdvance()) {
        AdvanceFromFragment(finishedFragmentIndex);
      } else {
        fragmentAwaitingManualAdvance := true;
      }
    }

    /** The first half of OnPaddingComplete: nothing runs any more and the end is announced. */
    method EndPadding() returns (finishedFragmentIndex: nat)
      modifies this
      ensures finishedFragmentIndex == ToUint8(old(runningFragmentIndex))
      ensures State() == EndPaddingSpec(old(State()))
    {
      finishedFragmentIndex := ToUint8(runningFragmentIndex);
      runningFragmentIndex := IndexNone;
      if paddingTimerHandle.Exists() {
        paddingTimerHandle := Cleared;
      }
      dialogueHandle := dialogueHandle.Invalidate();
      Emit(PaddingTimeOver(finishedFragmentIndex));
    }

    /** AdvanceFromFragment */
    method AdvanceFromFragment(fragmentIndex: nat)
      requires |fragments| <= MaxFragments
      modifies this
      ensures State() == AdvanceFromFragmentSpec(old(State()), fragmentIndex)
    {
      if fragmentIndex >= |fragments| {
        Emit(RangeCheckFailure(fragmentIndex));
        return;
      }
      SetFragment(fragmentIndex, fragments[fragmentIndex].SetRunState(Idle));
      if dialogueNodeType == PlayerPrompt {
        var (promptPin, cached) := fragments[fragmentIndex].GetPromptPin();
        SetFragment(fragmentIndex, cached);
        TriggerOutput(promptPin.name, true);
      } else if talkSequencing == SelectOne {
        TriggerOutput(OutputPinName, true);
      } else {
        RunLaterFragments(fragmentIndex + 1);
      }
    }

    /** The loop of AdvanceFromFragment over the fragments after the finished one. */
    method RunLaterFragments(next: nat)
      requires |fragments| <= MaxFragments
      modifies this
      ensures State() == ScanSpec(old(State()), next)
    {
      ghost var target := ScanSpec(State(), next);
      var nextIndex: nat := next;
      while nextIndex < |fragments|
        invariant ScanSpec(State(), nextIndex) == target
        decreases |fragments| - nextIndex
      {
        ghost var before := State();
        var ranNextFragment := RunFragment(nextIndex);
        ghost var after := State();
        assert (after, ranNextFragment) == RunFragmentSpec(before, nextIndex);
        if !ranNextFragment && talkSequencing == RunUntilFailure {
          TriggerOutput(OutputPinName, true);
          return;
        } else if ranNextFragment {
          return;
        }
        assert ScanSpec(before, nextIndex) == ScanSpec(after, nextIndex + 1);
        nextIndex := nextIndex + 1;
      }
      TriggerOutput(OutputPinName, true);
    }

    /** FindStartingFragment */
    method FindStartingFragment()
      requires |fragments| <= MaxFragments
      modifies this
      ensures State() == FindStartingFragmentSpec(old(State()))
    {
      ghost var target := StartScanSpec(State(), 0);
      var i := 0;
      while i < |fragments|
        invariant StartScanSpec(State(), i) == target
        decreases |fragments| - i
      {
        ghost var before := State();
        var startedSuccessfully := RunFragment(i);
        ghost var after := State();
        assert (after, startedSuccessfully) == RunFragmentSpec(before, i);
        if startedSuccessfully {
          nodeActivationCount := nodeActivationCount + 1;
          assert State() == after.(nodeActivationCount := after.nodeActivationCount + 1);
          return;
        }
        assert StartScanSpec(before, i) == StartScanSpec(after, i + 1);
        i := i + 1;
      }
      TriggerOutput(BypassPinName, true);
    }

    /** The loop of BroadcastPrompts: offers every eligible fragment, in index order. */
    method OfferEligibleFragments() returns (broadcastedFragments: seq<nat>)
      requires |fragments| <= MaxFragments
      modifies this`events
      ensures broadcastedFragments == EligibleUpTo(fragments, |fragments|)
      ensures events == old(events) + PromptEvents(broadcastedFragments)
    {
      var frags := fragments;
      var log := events;
      broadcastedFragments := [];
      var i := 0;
      while i < |frags|
        invariant 0 <= i <= |frags|
        invariant broadcastedFragments == EligibleUpTo(frags, i)
        invariant log == old(events) + PromptEvents(broadcastedFragments)
      {
        if Eligible(frags[i]) {
          log := log + [PromptOptionAdded(i)];
          PromptEventsSnoc(broadcastedFragments, i);
          broadcastedFragments := broadcastedFragments + [i];
        }
        i := i + 1;
      }
      events := log;
    }

    /** BroadcastPrompts */
    method BroadcastPrompts()
      requires |fragments| <= MaxFragments
      modifies this
      ensures State() == BroadcastPromptsSpec(old(State()))
    {
      var broadcastedFragments := OfferEligibleFragments();
      Emit(PromptOptionsAllAdded);
      if |broadcastedFragments| == 0 {
        TriggerOutput(BypassPinName, true);
      } else if |broadcastedFragments| == 1 {
        if settings.autoSelectLastPrompt {
          RunPrompt(broadcastedFragments[0]);
        }
      }
    }

    /** RunPrompt */
    method RunPrompt(fragmentIndex: nat)
      modifies this
      ensures State() == RunPromptSpec(old(State()), fragmentIndex)
    {
      var ran := RunFragment(fragmentIndex);
      if !ran {
        runningFragmentIndex := IndexNone;
        TriggerOutput(BypassPinName, true);
      }
      nodeActivationCount := nodeActivationCount + 1;
    }

    /** SkipCurrent */
    method SkipCurrent() returns (skipped: bool)
      requires |fragments| <= MaxFragments
      requires RunningOk(State())
      modifies this
      ensures (State(), skipped) == SkipCurrentSpec(old(State()))
    {
      var canSkip := CanSkipCurrentFragment();
      if !canSkip {
        return false;
      }
      if fragmentTimerHandle.IsValid() {
        OnSpeakingComplete();
      }
      if paddingTimerHandle.IsValid() {
        OnPaddingComplete();
      }
      assert State() == SkipPhasesSpec(old(State()));
      if fragmentAwaitingManualAdvance {
        fragmentAwaitingManualAdvance := false;
        AdvanceFromFragment(ToUint8(runningFragmentIndex));
      }
      return true;
    }

    // --------------------------------------------------------------------------------------
    // The timer manager and the clock

    /** Time passes; no pending timer is overtaken. */
    method Tick(dt: real)
      requires dt >= 0.0
      requires fragmentTimerHandle.Pending? ==> dt <= fragmentTimerHandle.remaining
      requires paddingTimerHandle.Pending? ==> dt <= paddingTimerHandle.remaining
      modifies this
      ensures State() == TickSpec(old(State()), dt)
    {
      worldTime := worldTime + dt;
      if fragmentTimerHandle.Pending? {
        fragmentTimerHandle := TimerSlot.Pending(fragmentTimerHandle.remaining - dt);
      }
      if paddingTimerHandle.Pending? {
        paddingTimerHandle := TimerSlot.Pending(paddingTimerHandle.remaining - dt);
      }
    }

    /** The speech timer comes due: OnSpeakingComplete runs with the timer still in place. */
    method FireFragmentTimer()
      requires |fragments| <= MaxFragments
      requires fragmentTimerHandle.Pending? && fragmentTimerHandle.remaining <= 0.0
      modifies this
      ensures State() == FireSpeechTimerSpec(old(State()))
    {
      OnSpeakingComplete();
    }

    /** The padding timer comes due: OnPaddingComplete runs with the timer still in place. */
    method FirePaddingTimer()
      requires |fragments| <= MaxFragments
      requires paddingTimerHandle.Pending? && paddingTimerHandle.remaining <= 0.0
      modifies this
      ensures State() == FirePaddingTimerSpec(old(State()))
    {
      OnPaddingComplete();
    }

    // --------------------------------------------------------------------------------------
    // Editing

    /** UpdateFragmentIndices */
    method UpdateFragmentIndices()
      modifies this
      ensures State() == old(State()).(fragments := ReindexSpec(old(fragments)))
    {
      var i := 0;
      while i < |fragments|
        invariant 0 <= i <= |fragments| == |old(fragments)|
        invariant forall k :: 0 <= k < i ==> fragments[k] == old(fragments)[k].SetIndexInDialogue(ToUint8(k))
        invariant forall k :: i <= k < |fragments| ==> fragments[k] == old(fragments)[k]
        invariant State() == old(State()).(fragments := fragments)
      {
        fragments := fragments[i := fragments[i].SetIndexInDialogue(ToUint8(i))];
        i := i + 1;
      }
      assert fragments == ReindexSpec(old(fragments));
    }

    /** SwapFragments */
    method SwapFragments(indexA: uint8, indexB: uint8)
      modifies this
      ensures State() == SwapFragmentsSpec(old(State()), indexA, indexB)
    {
      if indexA >= |fragments| {
        Emit(RangeCheckFailure(indexA));
        return;
      }
      if indexB >= |fragments| {
        Emit(RangeCheckFailure(indexB));
        return;
      }
      fragments := SwapAt(fragments, indexA, indexB);
      UpdateFragmentIndices();
      Emit(ReconstructionRequested);
    }

    /** DeleteFragmentByIndex */
    method DeleteFragmentByIndex(deleteIndex: int)
      modifies this
      ensures State() == DeleteFragmentSpec(old(State()), deleteIndex)
    {
      if !(0 <= deleteIndex < |fragments|) {
        Emit(LogError(InvalidDeletionIndexMessage));
        Emit(RangeCheckFailure(deleteIndex));
        return;
      }
      fragments := RemoveAt(fragments, deleteIndex);
      UpdateFragmentIndices();
      Emit(ReconstructionRequested);
    }

    /** SetNodeActivationLimit */
    method SetNodeActivationLimit(newValue: int)
      modifies this
      ensures State() == SetNodeActivationLimitSpec(old(State()), newValue)
    {
      var bypassRequired := IsBypassPinRequired();
      nodeActivationLimit := newValue;
      var bypassRequiredNow := IsBypassPinRequired();
      if bypassRequired != bypassRequiredNow {
        Emit(ReconstructionRequested);
      }
    }

    /** CycleFragmentSequencingMode */
    method CycleFragmentSequencingMode()
      modifies this
      ensures State() == old(State()).(talkSequencing := CycleSpec(old(talkSequencing)))
    {
      var asInt := TalkSequencingValue(talkSequencing) + 1;
      if asInt >= TalkSequencingCount {
        asInt := 0;
      }
      talkSequencing := TalkSequencingOf(asInt);
    }

    /** ToggleNodeType */
    method ToggleNodeType()
      modifies this
      ensures State() == old(State()).(nodeType := ToggleSpec(old(dialogueNodeType)))
    {
      var asInt := NodeTypeValue(dialogueNodeType) + 1;
      if asInt >= NodeTypeCount {
        asInt := 0;
      }
      dialogueNodeType := NodeTypeOf(asInt);
    }

    /** InvalidateFragmentTags */
    method InvalidateFragmentTags()
      requires |fragments| <= MaxFragments
      modifies this
      ensures State() == old(State()).(fragments := InvalidateTagsSpec(old(fragments)))
    {
      var i := 0;
      while i < |fragments|
        invariant 0 <= i <= |fragments| == |old(fragments)|
        invariant forall k :: 0 <= k < i ==> fragments[k] == old(fragments)[k].InvalidateFragmentTag()
        invariant forall k :: i <= k < |fragments| ==> fragments[k] == old(fragments)[k]
        invariant State() == old(State()).(fragments := fragments)
      {
        fragments := fragments[i := fragments[i].InvalidateFragmentTag()];
        i := i + 1;
      }
      assert fragments == InvalidateTagsSpec(old(fragments));
    }

    /** PostEditImport: a pasted node gives every fragment a new guid and drops its optional pins. */
    method PostEditImport()
      modifies this
      ensures State() == PostEditImportSpec(old(State()))
    {
      var frags, last := fragments, lastGuid;
      var i := 0;
      while i < |frags|
        invariant 0 <= i <= |frags| == |old(fragments)|
        invariant last == old(lastGuid) + i
        invariant forall k :: 0 <= k < i ==> frags[k] == old(fragments)[k].ResetGUID(old(lastGuid) + k + 1).ResetOptionalPins()
        invariant forall k :: i <= k < |frags| ==> frags[k] == old(fragments)[k]
      {
        var (guid, next) := NewGuid(last);
        last := next;
        frags := frags[i := frags[i].ResetGUID(guid).ResetOptionalPins()];
        i := i + 1;
      }
      assert frags == ReGuidSpec(old(fragments), old(lastGuid));
      fragments, lastGuid := frags, last;
    }

    /** The pins GetContextOutputs adds for fragment i: end, start, then prompt on a prompt node. */
    method FragmentPins(i: nat, isPrompt: bool) returns (pins: seq<Pin>)
      requires i < |fragments|
      modifies this`fragments
      ensures |fragments| == |old(fragments)|
      ensures (pins, fragments[i]) == FragmentContextPins(old(fragments[i]), isPrompt)
      ensures fragments == old(fragments)[i := fragments[i]]
    {
      var fragment := fragments[i];
      var endPins, startPins, promptPins := [], [], [];
      if fragment.UsesEndPin() {
        var endPin := fragment.GetEndPin();
        fragment := endPin.1;
        endPins := [endPin.0];
      }
      if fragment.UsesStartPin() {
        var startPin := fragment.GetStartPin();
        fragment := startPin.1;
        startPins := [startPin.0];
      }
      if isPrompt {
        var promptPin := fragment.GetPromptPin();
        fragment := promptPin.1;
        promptPins := [promptPin.0];
      }
      fragments := fragments[i := fragment];
      pins := endPins + startPins + promptPins;
    }

    /** The fragment loop of GetContextOutputs. */
    method CollectFragmentPins(isPrompt: bool) returns (fragmentPins: seq<Pin>)
      requires |fragments| <= MaxFragments
      modifies this`fragments
      ensures (fragmentPins, fragments) == ContextPinsUpTo(old(fragments), isPrompt, |old(fragments)|)
    {
      fragmentPins := [];
      var i := 0;
      while i < |fragments|
        invariant 0 <= i <= |fragments| == |old(fragments)|
        invariant (fragmentPins, fragments) == ContextPinsUpTo(old(fragments), isPrompt, i)
      {
        ContextPinsStep(old(fragments), isPrompt, i);
        var more := FragmentPins(i, isPrompt);
        fragmentPins := fragmentPins + more;
        i := i + 1;
      }
    }

    /** GetContextOutputs: the pin getters cache each pin's name on its fragment as they go. */
    method GetContextOutputs(basePins: seq<Pin>) returns (pins: seq<Pin>)
      requires |fragments| <= MaxFragments
      modifies this`fragments
      ensures (pins, State()) == ContextOutputsSpec(old(State()), basePins)
    {
      ghost var s0 := State();
      var isPrompt := dialogueNodeType == PlayerPrompt;
      pins := basePins;
      if !isPrompt {
        pins := pins + [Pin(OutputPinName, "")];
      }
      ghost var head := pins;
      var fragmentPins := CollectFragmentPins(isPrompt);
      pins := pins + fragmentPins;
      ghost var s1 := s0.(fragments := fragments);
      assert State() == s1;
      assert (fragmentPins, fragments) == ContextPinsUpTo(s0.fragments, s0.IsPlayerPrompt(), |s0.fragments|);
      var bypassRequired := IsBypassPinRequired();
      if bypassRequired {
        pins := pins + [Pin(BypassPinName, "")];
      }
      assert head == basePins + (if !s0.IsPlayerPrompt() then [Pin(OutputPinName, "")] else []);
      assert pins == head + fragmentPins + (if BypassRequired(s1) then [Pin(BypassPinName, "")] else []);
      assert ContextOutputsSpec(s0, basePins) == (pins, s1);
    }
  }
}
