// The playback state machine of UFlowNode_YapDialogue, as pure functions over a snapshot of
// the node. Each function here is the specification that the corresponding method of the
// DialogueNode class is proved against; the properties of the node are lemmas about them.
//
// Collaborators are replaced by plain state: the timer manager by one TimerSlot per timer
// handle, the world clock by `now`, every broadcast to the subsystem and every TriggerOutput
// by an entry in the event log, FGuid::NewGuid by a counter. An array access the engine
// would reject (a uint8-truncated INDEX_NONE, a bad index given to RemoveAt or Swap) is
// logged as RangeCheckFailure; the source never returns from such an access.
module DialogueSpec {
  import opened Wrappers
  import opened Guids
  import opened GameplayTags
  import opened Conditions
  import opened YapProjectSettings
  import opened YapFragment
  import opened Handles

  type uint8 = x: int | 0 <= x < 256

  /** INDEX_NONE */
  const IndexNone: int := -1

  /** GetNumFragments returns a uint8 and every fragment loop counts with one. */
  const MaxFragments: nat := 255

  /** An int stored into a uint8: wrap-around modulo 256 (INDEX_NONE becomes 255). */
  function ToUint8(x: int): (r: uint8)
    ensures 0 <= x < 256 ==> r == x
    ensures x == IndexNone ==> r == 255
  {
    x % 256
  }

  const OutputPinName: string := "Out"
  const BypassPinName: string := "Bypass"
  const InvalidRunIndexMessage: string := "Attempted run invalid fragment index!"
  const InvalidDeletionIndexMessage: string := "Invalid deletion index!"

  /** EYapDialogueTalkSequencing (COUNT is only the cycling bound). */
  datatype TalkSequencing = RunAll | RunUntilFailure | SelectOne

  const TalkSequencingCount: nat := 3

  function TalkSequencingValue(t: TalkSequencing): (v: nat)
    ensures v < TalkSequencingCount
  {
    match t
    case RunAll => 0
    case RunUntilFailure => 1
    case SelectOne => 2
  }

  function TalkSequencingOf(v: nat): (t: TalkSequencing)
    requires v < TalkSequencingCount
    ensures TalkSequencingValue(t) == v
  {
    if v == 0 then RunAll else if v == 1 then RunUntilFailure else SelectOne
  }

  /** EYapDialogueNodeType (COUNT is only the cycling bound). */
  datatype DialogueNodeType = Talk | PlayerPrompt

  const NodeTypeCount: nat := 2

  function NodeTypeValue(t: DialogueNodeType): (v: nat)
    ensures v < NodeTypeCount
  {
    match t
    case Talk => 0
    case PlayerPrompt => 1
  }

  function NodeTypeOf(v: nat): (t: DialogueNodeType)
    requires v < NodeTypeCount
    ensures NodeTypeValue(t) == v
  {
    if v == 0 then Talk else PlayerPrompt
  }

  /**
   * An FTimerHandle together with what the timer manager knows of it: never set or cleared,
   * or a timer still pending with the given time remaining. A one-shot timer that comes due
   * runs its callback while it still exists, and the callbacks here clear their own handle
   * (ClearTimer also invalidates it), so a handle is valid exactly while its timer exists.
   */
  datatype TimerSlot = Cleared | Pending(remaining: real) {
    /** FTimerHandle::IsValid */
    predicate IsValid() { Pending? }

    /** FTimerManager::TimerExists */
    predicate Exists() { Pending? }

    /** FTimerManager::GetTimerRemaining: -1 for a timer that does not exist. */
    function Remaining(): real { if Pending? then remaining else -1.0 }
  }

  /** FTimerManager::SetTimer: a positive rate arms the timer; any other rate clears the handle. */
  function SetTimer(rate: real): (t: TimerSlot)
    ensures t.Exists() <==> rate > 0.0
  {
    if rate > 0.0 then TimerSlot.Pending(rate) else Cleared
  }

  /** Everything the node sends out, in order. */
  datatype Event =
    | Output(pin: string, finish: bool)        // TriggerOutput
    | PassThroughOutput(pin: string)           // TriggerOutput with pass-through activation
    | DialogueStart(fragment: nat)             // subsystem BroadcastDialogueStart
    | DialogueEnd(fragment: nat)               // subsystem BroadcastDialogueEnd
    | PaddingTimeOver(fragment: nat)           // subsystem BroadcastPaddingTimeOver
    | PromptOptionAdded(fragment: nat)         // subsystem BroadcastPrompt
    | PromptOptionsAllAdded                    // subsystem OnFinishedBroadcastingPrompts
    | ReconstructionRequested                  // OnReconstructionRequested
    | LogError(message: string)                // UE_LOG at Error verbosity
    | RangeCheckFailure(index: int)            // an out-of-range array access

  /** A snapshot of one dialogue node: its settings, its fragments and its playback state. */
  datatype NodeState = NodeState(
    id: NodeId,
    settings: ProjectSettings,
    nodeType: DialogueNodeType,
    activationLimit: int,
    talkSequencing: TalkSequencing,
    skippable: Option<bool>,
    autoAdvance: Option<bool>,
    dialogueTag: Tag,
    conditions: seq<Condition>,
    audioID: string,
    fragments: seq<Fragment>,
    nodeActivationCount: int,
    runningFragmentIndex: int,
    speechTimer: TimerSlot,
    paddingTimer: TimerSlot,
    awaitingManualAdvance: bool,
    dialogueHandle: DialogueHandle,
    now: real,
    lastGuid: nat,
    events: seq<Event>)
  {
    predicate IsPlayerPrompt() { nodeType == PlayerPrompt }

    function GetNumFragments(): nat { |fragments| }

    /** GetSkippable: the node override, else the project default. */
    function GetSkippable(): bool { skippable.GetOr(settings.GetDefaultSkippableSetting()) }

    /** GetAutoAdvance: the node override, else the project default. */
    function GetAutoAdvance(): bool { autoAdvance.GetOr(settings.GetDefaultAutoAdvanceSetting()) }

    function Log(e: Event): (r: NodeState)
      ensures r.events == events + [e]
    {
      this.(events := events + [e])
    }
  }

  /** The running index is INDEX_NONE or names a fragment. */
  predicate RunningOk(s: NodeState) {
    s.runningFragmentIndex == IndexNone || 0 <= s.runningFragmentIndex < |s.fragments|
  }

  /** What every playback operation preserves. */
  predicate Inv(s: NodeState) {
    |s.fragments| <= MaxFragments && RunningOk(s)
  }

  /**
   * A fragment during playback: authored data fixed, activations only grow, a kept limit stays
   * kept, and no fragment is ever put into the Running state.
   */
  predicate FragmentEvolves(f: Fragment, g: Fragment) {
    && SameAuthoring(f, g) && f.activationCount <= g.activationCount
    && (LimitRespected(f) ==> LimitRespected(g))
    && (g.runState == Running ==> f.runState == Running)
  }

  /**
   * What a playback operation may do to a node: settings unchanged, the same fragments
   * (only their playback state changes), counters only grow, events are only appended.
   */
  predicate Evolves(s: NodeState, r: NodeState) {
    && r.id == s.id && r.settings == s.settings
    && r.nodeType == s.nodeType && r.activationLimit == s.activationLimit
    && r.talkSequencing == s.talkSequencing && r.skippable == s.skippable
    && r.autoAdvance == s.autoAdvance && r.dialogueTag == s.dialogueTag
    && r.conditions == s.conditions && r.audioID == s.audioID && r.now == s.now
    && |r.fragments| == |s.fragments|
    && (forall k :: 0 <= k < |s.fragments| ==> FragmentEvolves(s.fragments[k], r.fragments[k]))
    && s.nodeActivationCount <= r.nodeActivationCount
    && s.events <= r.events
    && s.lastGuid <= r.lastGuid
  }

  lemma EvolvesTransitive(a: NodeState, b: NodeState, c: NodeState)
    requires Evolves(a, b) && Evolves(b, c)
    ensures Evolves(a, c)
  {
    forall k | 0 <= k < |a.fragments|
      ensures FragmentEvolves(a.fragments[k], c.fragments[k])
    {
      assert FragmentEvolves(a.fragments[k], b.fragments[k]);
      assert FragmentEvolves(b.fragments[k], c.fragments[k]);
    }
  }

  /** Updating one fragment in a way FragmentEvolves allows is an evolution of the node. */
  lemma EvolvesAt(s: NodeState, i: nat, g: Fragment)
    requires i < |s.fragments| && FragmentEvolves(s.fragments[i], g)
    ensures Evolves(s, s.(fragments := s.fragments[i := g]))
  {
  }

  // ----------------------------------------------------------------------------------------
  // Gates

  /** A fragment can start: its conditions pass and its activation limit is not met. */
  predicate Eligible(f: Fragment) {
    AllPass(f.conditions) && !f.IsActivationLimitMet()
  }

  /** The per-fragment test of ActivationLimitsMet: a non-zero limit reached. */
  predicate FragmentExhausted(f: Fragment) {
    f.activationLimit != 0 && f.activationCount >= f.activationLimit
  }

  /** ActivationLimitsMet: the node's own positive limit is reached, or every fragment is exhausted. */
  predicate ActivationLimitsMet(s: NodeState) {
    || (s.activationLimit > 0 && s.nodeActivationCount >= s.activationLimit)
    || (forall k :: 0 <= k < |s.fragments| ==> FragmentExhausted(s.fragments[k]))
  }

  /** IsBypassPinRequired: node conditions or a node limit, or no fragment that is unconditional and unlimited. */
  predicate BypassRequired(s: NodeState) {
    || |s.conditions| > 0
    || s.activationLimit > 0
    || (forall k :: 0 <= k < |s.fragments| ==> !(|s.fragments[k].conditions| == 0 && s.fragments[k].activationLimit == 0))
  }

  /** The skippable flag BroadcastDialogueStart resolves: the bit's override, else the node's setting. */
  function ResolvedSkippable(s: NodeState, f: Fragment): bool {
    if f.matureBit.skippable == SkippableDefault then s.GetSkippable() else f.matureBit.skippable == SkippableYes
  }

  // ----------------------------------------------------------------------------------------
  // Talk sequencing
  //
  // These functions carry only the facts their own definitions and the methods need; what
  // every playback step preserves (Evolves, RunningOk) is proved in module DialogueInvariants.

  /** Fragment i replaced by g. */
  function WithFragment(s: NodeState, i: nat, g: Fragment): (r: NodeState)
    requires i < |s.fragments|
    ensures r.fragments == s.fragments[i := g]
  {
    s.(fragments := s.fragments[i := g])
  }

  /**
   * TryBroadcastFragment: an eligible fragment gets a new dialogue handle and a DialogueStart
   * broadcast; an ineligible one changes nothing.
   */
  function TryBroadcastSpec(s: NodeState, i: nat): (r: (NodeState, bool))
    requires i < |s.fragments|
    ensures r.1 <==> Eligible(s.fragments[i])
    ensures !r.1 ==> r.0 == s
    ensures r.1 ==> r.0 == s.(dialogueHandle := r.0.dialogueHandle, lastGuid := r.0.lastGuid).Log(DialogueStart(i))
    ensures r.1 ==> r.0.dialogueHandle.IsValid() && r.0.dialogueHandle.fragmentIndex == i && r.0.lastGuid > s.lastGuid
  {
    var f := s.fragments[i];
    if !AllPass(f.conditions) then (s, false)
    else if f.IsActivationLimitMet() then (s, false)
    else
      var (handle, last) := NewDialogueHandle(s.id, i, ResolvedSkippable(s, f), s.lastGuid);
      (s.(dialogueHandle := handle, lastGuid := last).Log(DialogueStart(i)), true)
  }

  /** The start pin of fragment i fires when it is enabled (its name cached on the fragment). */
  function FireStartPinSpec(s: NodeState, i: nat): (r: NodeState)
    requires i < |s.fragments|
    ensures |r.fragments| == |s.fragments|
  {
    if s.fragments[i].UsesStartPin() then
      var (pin, g) := s.fragments[i].GetStartPin();
      WithFragment(s, i, g).Log(Output(pin.name, false))
    else s
  }

  /** The speech timer is armed with the fragment's time when it has one. */
  function ArmSpeechTimerSpec(s: NodeState, i: nat): (r: NodeState)
    requires i < |s.fragments|
    ensures r.fragments == s.fragments
  {
    if s.fragments[i].speechTime.Some? then s.(speechTimer := SetTimer(s.fragments[i].speechTime.value)) else s
  }

  /** The broadcast fragment i starts: counted, start pin, speech timer, running, start time, Success. */
  function ActivateSpec(s: NodeState, i: nat): (r: NodeState)
    requires i < |s.fragments|
    ensures |r.fragments| == |s.fragments| && r.runningFragmentIndex == i
  {
    var s1 := WithFragment(s, i, s.fragments[i].IncrementActivations());
    var s2 := ArmSpeechTimerSpec(FireStartPinSpec(s1, i), i);
    WithFragment(s2.(runningFragmentIndex := i), i, s2.fragments[i].SetStartTime(s2.now).SetEntryState(Success))
  }

  /** Fragment i did not start: no start time, entry state Failed. */
  function MarkFailedSpec(s: NodeState, i: nat): (r: NodeState)
    requires i < |s.fragments|
    ensures |r.fragments| == |s.fragments|
  {
    WithFragment(s, i, s.fragments[i].SetStartTime(-1.0).SetEntryState(Failed))
  }

  /**
   * RunFragment: an invalid index logs an error; a fragment that fails TryBroadcastFragment is
   * marked Failed with no start time; otherwise the fragment is activated, its start pin fired
   * when enabled, its speech timer armed when it has a time, and it becomes the running fragment.
   */
  function RunFragmentSpec(s: NodeState, i: nat): (r: (NodeState, bool))
    ensures |r.0.fragments| == |s.fragments|
    ensures r.1 ==> i < |s.fragments| && r.0.runningFragmentIndex == i
    ensures !r.1 ==> r.0.runningFragmentIndex == s.runningFragmentIndex
  {
    if i >= |s.fragments| then (s.Log(LogError(InvalidRunIndexMessage)), false)
    else
      var (s1, broadcast) := TryBroadcastSpec(s, i);
      if broadcast then (ActivateSpec(s1, i), true)
      else (MarkFailedSpec(s, i), false)
  }

  /** The end pin of fragment idx fires when it is enabled (its name cached on the fragment). */
  function FireEndPinSpec(s: NodeState, idx: nat): (r: NodeState)
    requires idx < |s.fragments|
    ensures |r.fragments| == |s.fragments|
  {
    if s.fragments[idx].UsesEndPin() then
      var (pin, g) := s.fragments[idx].GetEndPin();
      WithFragment(s, idx, g).Log(Output(pin.name, false))
    else s
  }

  /** The padding phase: a positive padding arms the padding timer, any other completes at once. */
  function StartPaddingSpec(s: NodeState, paddingTime: real): (r: NodeState)
    ensures |r.fragments| == |s.fragments|
  {
    if paddingTime > 0.0 then s.(paddingTimer := SetTimer(paddingTime)) else OnPaddingCompleteSpec(s)
  }

  /**
   * OnSpeakingComplete: the fragment whose speech ended (the running index, as a uint8) is
   * announced, its end pin fires when enabled, then either the padding timer is armed or the
   * padding phase completes at once; finally its end time is recorded.
   */
  function OnSpeakingCompleteSpec(s: NodeState): (r: NodeState)
    ensures |r.fragments| == |s.fragments|
  {
    var idx := ToUint8(s.runningFragmentIndex);
    var s1 := if s.speechTimer.Exists() then s.(speechTimer := Cleared) else s;
    if idx >= |s1.fragments| then s1.Log(RangeCheckFailure(idx))
    else
      var s2 := s1.Log(DialogueEnd(idx));
      var paddingTime := s2.fragments[idx].GetPaddingToNextFragment(s2.settings);
      var s4 := StartPaddingSpec(FireEndPinSpec(s2, idx), paddingTime);
      WithFragment(s4, idx, s4.fragments[idx].SetEndTime(s4.now))
  }

  /** The first steps of OnPaddingComplete: nothing runs, the timer and the handle are dropped, the end of padding is announced. */
  function EndPaddingSpec(s: NodeState): (r: NodeState)
    ensures r.fragments == s.fragments && r.runningFragmentIndex == IndexNone
  {
    s.(runningFragmentIndex := IndexNone,
       paddingTimer := if s.paddingTimer.Exists() then Cleared else s.paddingTimer,
       dialogueHandle := s.dialogueHandle.Invalidate()).Log(PaddingTimeOver(ToUint8(s.runningFragmentIndex)))
  }

  /**
   * OnPaddingComplete: nothing is running any more; the finished fragment (the old running
   * index, as a uint8) is announced, then the node advances when the fragment auto-advances
   * and otherwise waits for a manual advance.
   */
  function OnPaddingCompleteSpec(s: NodeState): (r: NodeState)
    ensures |r.fragments| == |s.fragments|
  {
    var idx := ToUint8(s.runningFragmentIndex);
    var s1 := EndPaddingSpec(s);
    if idx >= |s1.fragments| then s1.Log(RangeCheckFailure(idx))
    else if s1.fragments[idx].GetAutoAdvance(s1.GetAutoAdvance()) then AdvanceFromFragmentSpec(s1, idx)
    else s1.(awaitingManualAdvance := true)
  }

  /**
   * AdvanceFromFragment: the fragment goes idle; a prompt node leaves through the fragment's
   * prompt pin, SelectOne through Out, and the other policies try the later fragments in order.
   */
  function AdvanceFromFragmentSpec(s: NodeState, idx: nat): (r: NodeState)
    ensures |r.fragments| == |s.fragments|
  {
    if idx >= |s.fragments| then s.Log(RangeCheckFailure(idx))
    else
      var s1 := WithFragment(s, idx, s.fragments[idx].SetRunState(Idle));
      if s1.IsPlayerPrompt() then
        var (pin, g) := s1.fragments[idx].GetPromptPin();
        WithFragment(s1, idx, g).Log(Output(pin.name, true))
      else if s1.talkSequencing == SelectOne then s1.Log(Output(OutputPinName, true))
      else ScanSpec(s1, idx + 1)
  }

  /**
   * The loop of AdvanceFromFragment from `next` on: the first fragment that runs takes over;
   * under RunUntilFailure the first one that fails ends the node through Out; when no
   * fragment is left the node ends through Out.
   */
  function ScanSpec(s: NodeState, next: nat): (r: NodeState)
    ensures |r.fragments| == |s.fragments|
    decreases |s.fragments| - next
  {
    if next >= |s.fragments| then s.Log(Output(OutputPinName, true))
    else
      var (s1, ran) := RunFragmentSpec(s, next);
      if !ran && s1.talkSequencing == RunUntilFailure then s1.Log(Output(OutputPinName, true))
      else if ran then s1
      else ScanSpec(s1, next + 1)
  }

  /**
   * FindStartingFragment from fragment `i` on: the first fragment that runs starts the node and
   * counts one node activation; when none runs the node leaves through Bypass.
   */
  function StartScanSpec(s: NodeState, i: nat): (r: NodeState)
    ensures |r.fragments| == |s.fragments|
    decreases |s.fragments| - i
  {
    if i >= |s.fragments| then s.Log(Output(BypassPinName, true))
    else
      var (s1, ran) := RunFragmentSpec(s, i);
      if ran then s1.(nodeActivationCount := s1.nodeActivationCount + 1)
      else StartScanSpec(s1, i + 1)
  }

  function FindStartingFragmentSpec(s: NodeState): (r: NodeState)
    ensures |r.fragments| == |s.fragments|
  {
    StartScanSpec(s, 0)
  }

  // ----------------------------------------------------------------------------------------
  // Prompts

  /** The eligible fragments among the first n, in ascending order (BroadcastedFragments). */
  function EligibleUpTo(frags: seq<Fragment>, n: nat): (r: seq<nat>)
    requires n <= |frags|
    ensures |r| <= n
  {
    if n == 0 then []
    else EligibleUpTo(frags, n - 1) + (if Eligible(frags[n - 1]) then [n - 1] else [])
  }

  /** One PromptOptionAdded broadcast per index, in order. */
  function PromptEvents(indices: seq<nat>): (es: seq<Event>)
    ensures |es| == |indices|
  {
    if indices == [] then [] else PromptEvents(indices[..|indices| - 1]) + [PromptOptionAdded(indices[|indices| - 1])]
  }

  /** Offering one more fragment appends exactly its broadcast. */
  lemma PromptEventsSnoc(indices: seq<nat>, i: nat)
    ensures PromptEvents(indices + [i]) == PromptEvents(indices) + [PromptOptionAdded(i)]
  {
    assert (indices + [i])[..|indices|] == indices;
  }

  /**
   * RunPrompt: runs the chosen fragment; if it does not run, nothing is running and the node
   * leaves through Bypass. The node activation count grows by one either way.
   */
  function RunPromptSpec(s: NodeState, i: nat): (r: NodeState)
    ensures |r.fragments| == |s.fragments|
    ensures r.nodeActivationCount == s.nodeActivationCount + 1
  {
    var (s1, ran) := RunFragmentSpec(s, i);
    var s2 := if !ran then s1.(runningFragmentIndex := IndexNone).Log(Output(BypassPinName, true)) else s1;
    s2.(nodeActivationCount := s2.nodeActivationCount + 1)
  }

  /**
   * BroadcastPrompts: every eligible fragment is offered in index order, then the end of the
   * list is announced; no offer means Bypass, a single offer with auto-select runs it.
   */
  function BroadcastPromptsSpec(s: NodeState): (r: NodeState)
    ensures |r.fragments| == |s.fragments|
  {
    var eligible := EligibleUpTo(s.fragments, |s.fragments|);
    var s1 := s.(events := s.events + PromptEvents(eligible)).Log(PromptOptionsAllAdded);
    if |eligible| == 0 then s1.Log(Output(BypassPinName, true))
    else if |eligible| == 1 && s1.settings.autoSelectLastPrompt then RunPromptSpec(s1, eligible[0])
    else s1
  }

  // ----------------------------------------------------------------------------------------
  // Entry, skipping and the timer manager

  /** ExecuteInput: failing node conditions or met limits leave through Bypass; otherwise prompts or talk. */
  function ExecuteInputSpec(s: NodeState): (r: NodeState)
    ensures |r.fragments| == |s.fragments|
  {
    if !AllPass(s.conditions) then s.Log(Output(BypassPinName, true))
    else if ActivationLimitsMet(s) then s.Log(Output(BypassPinName, true))
    else if s.IsPlayerPrompt() then BroadcastPromptsSpec(s)
    else FindStartingFragmentSpec(s)
  }

  /** OnPassThrough: a prompt node passes through Bypass, a talk node through Out. */
  function OnPassThroughSpec(s: NodeState): (r: NodeState)
    ensures r == s.Log(PassThroughOutput(if s.IsPlayerPrompt() then BypassPinName else OutputPinName))
  {
    if s.IsPlayerPrompt() then s.Log(PassThroughOutput(BypassPinName)) else s.Log(PassThroughOutput(OutputPinName))
  }

  /** What CanSkipCurrentFragment reads for a timer: its remaining time when the handle is valid, else 0. */
  function TimeLeft(t: TimerSlot): real {
    if t.IsValid() then t.Remaining() else 0.0
  }

  /**
   * CanSkipCurrentFragment: a running fragment can be skipped when it awaits a manual advance,
   * or when none of the three guards (not skippable while a timer is valid, too little time
   * left on an auto-advancing fragment, too little time elapsed) holds.
   */
  predicate CanSkipSpec(s: NodeState)
    requires RunningOk(s)
  {
    if s.runningFragmentIndex == IndexNone then false
    else
      var f := s.fragments[s.runningFragmentIndex];
      if s.awaitingManualAdvance then true
      else if !f.GetSkippable(s.GetSkippable()) && (s.speechTimer.IsValid() || s.paddingTimer.IsValid()) then false
      else if f.GetAutoAdvance(s.GetAutoAdvance()) && s.settings.minimumTimeRemainingToAllowSkip > 0.0
              && TimeLeft(s.speechTimer) + TimeLeft(s.paddingTimer) < s.settings.minimumTimeRemainingToAllowSkip then false
      else if s.settings.minimumTimeElapsedToAllowSkip > 0.0 && s.now - f.startTime < s.settings.minimumTimeElapsedToAllowSkip then false
      else true
  }

  /** The phases a permitted skip cuts short: speech if its handle is valid, then padding if its handle is valid. */
  function SkipPhasesSpec(s: NodeState): (r: NodeState)
    ensures |r.fragments| == |s.fragments|
  {
    var s1 := if s.speechTimer.IsValid() then OnSpeakingCompleteSpec(s) else s;
    if s1.paddingTimer.IsValid() then OnPaddingCompleteSpec(s1) else s1
  }

  /**
   * SkipCurrent: when skipping is allowed, completes the speech phase if its handle is valid,
   * then the padding phase if its handle is valid, then a pending manual advance from the
   * running index (as a uint8); the result says whether skipping was allowed.
   */
  function SkipCurrentSpec(s: NodeState): (r: (NodeState, bool))
    requires RunningOk(s)
    ensures r.1 == CanSkipSpec(s)
    ensures !r.1 ==> r.0 == s
  {
    if !CanSkipSpec(s) then (s, false)
    else
      var s2 := SkipPhasesSpec(s);
      if s2.awaitingManualAdvance then
        (AdvanceFromFragmentSpec(s2.(awaitingManualAdvance := false), ToUint8(s2.runningFragmentIndex)), true)
      else (s2, true)
  }

  /** The clock moves on by dt; pending timers count down, none past zero. */
  function TickSpec(s: NodeState, dt: real): (r: NodeState)
    requires dt >= 0.0
    requires s.speechTimer.Pending? ==> dt <= s.speechTimer.remaining
    requires s.paddingTimer.Pending? ==> dt <= s.paddingTimer.remaining
    ensures r.now == s.now + dt && r.fragments == s.fragments && r.events == s.events
    ensures r.speechTimer.Exists() == s.speechTimer.Exists() && r.paddingTimer.Exists() == s.paddingTimer.Exists()
    ensures r.speechTimer.Exists() ==> r.speechTimer.remaining >= 0.0
    ensures r.paddingTimer.Exists() ==> r.paddingTimer.remaining >= 0.0
  {
    s.(now := s.now + dt,
       speechTimer := if s.speechTimer.Pending? then TimerSlot.Pending(s.speechTimer.remaining - dt) else s.speechTimer,
       paddingTimer := if s.paddingTimer.Pending? then TimerSlot.Pending(s.paddingTimer.remaining - dt) else s.paddingTimer)
  }

  /**
   * The speech timer comes due: OnSpeakingComplete runs while the timer still exists, so its
   * own TimerExists test holds and it clears the timer and the handle.
   */
  function FireSpeechTimerSpec(s: NodeState): (r: NodeState)
    requires s.speechTimer.Pending? && s.speechTimer.remaining <= 0.0
    ensures |r.fragments| == |s.fragments|
  {
    OnSpeakingCompleteSpec(s)
  }

  /**
   * The padding timer comes due: OnPaddingComplete runs while the timer still exists, so it
   * clears the timer and the handle.
   */
  function FirePaddingTimerSpec(s: NodeState): (r: NodeState)
    requires s.paddingTimer.Pending? && s.paddingTimer.remaining <= 0.0
    ensures |r.fragments| == |s.fragments|
  {
    OnPaddingCompleteSpec(s)
  }

  // ----------------------------------------------------------------------------------------
  // Editing

  /** CycleFragmentSequencingMode: the next policy in declaration order, wrapping at COUNT. */
  function CycleSpec(t: TalkSequencing): (r: TalkSequencing)
    ensures TalkSequencingValue(r) == (TalkSequencingValue(t) + 1) % TalkSequencingCount
  {
    var v := TalkSequencingValue(t) + 1;
    TalkSequencingOf(if v >= TalkSequencingCount then 0 else v)
  }

  /** ToggleNodeType: the other node type, wrapping at COUNT. */
  function ToggleSpec(t: DialogueNodeType): (r: DialogueNodeType)
    ensures NodeTypeValue(r) == (NodeTypeValue(t) + 1) % NodeTypeCount
  {
    var v := NodeTypeValue(t) + 1;
    NodeTypeOf(if v >= NodeTypeCount then 0 else v)
  }

  /** UpdateFragmentIndices: every fragment learns its position (stored as a uint8). */
  function ReindexSpec(frags: seq<Fragment>): (r: seq<Fragment>)
    ensures |r| == |frags|
    ensures forall k :: 0 <= k < |r| ==> r[k] == frags[k].SetIndexInDialogue(ToUint8(k))
  {
    seq(|frags|, k requires 0 <= k < |frags| => frags[k].SetIndexInDialogue(ToUint8(k)))
  }

  /** TArray::Swap */
  function SwapAt<T>(xs: seq<T>, a: nat, b: nat): (r: seq<T>)
    requires a < |xs| && b < |xs|
    ensures |r| == |xs| && r[a] == xs[b] && r[b] == xs[a]
    ensures forall k :: 0 <= k < |xs| && k != a && k != b ==> r[k] == xs[k]
  {
    xs[a := xs[b]][b := xs[a]]
  }

  /** TArray::RemoveAt */
  function RemoveAt<T>(xs: seq<T>, i: nat): (r: seq<T>)
    requires i < |xs|
    ensures |r| == |xs| - 1
    ensures forall k :: 0 <= k < i ==> r[k] == xs[k]
    ensures forall k :: i <= k < |r| ==> r[k] == xs[k + 1]
  {
    xs[..i] + xs[i + 1..]
  }

  /** SwapFragments: the two fragments trade places, indices are renumbered, the graph node is rebuilt. */
  function SwapFragmentsSpec(s: NodeState, a: uint8, b: uint8): (r: NodeState)
  {
    if a >= |s.fragments| then s.Log(RangeCheckFailure(a))
    else if b >= |s.fragments| then s.Log(RangeCheckFailure(b))
    else s.(fragments := ReindexSpec(SwapAt(s.fragments, a, b))).Log(ReconstructionRequested)
  }

  /**
   * DeleteFragmentByIndex: an invalid index is reported and is still handed to RemoveAt,
   * which rejects it; a valid one removes the fragment, renumbers and rebuilds.
   */
  function DeleteFragmentSpec(s: NodeState, i: int): (r: NodeState)
  {
    if !(0 <= i < |s.fragments|) then s.Log(LogError(InvalidDeletionIndexMessage)).Log(RangeCheckFailure(i))
    else s.(fragments := ReindexSpec(RemoveAt(s.fragments, i))).Log(ReconstructionRequested)
  }

  /** SetNodeActivationLimit: stores the limit; the graph node is rebuilt when the bypass pin comes or goes. */
  function SetNodeActivationLimitSpec(s: NodeState, v: int): (r: NodeState)
    ensures r.activationLimit == v && r.fragments == s.fragments
    ensures r.events == s.events + (if BypassRequired(s) != BypassRequired(s.(activationLimit := v)) then [ReconstructionRequested] else [])
  {
    var s1 := s.(activationLimit := v);
    if BypassRequired(s) != BypassRequired(s1) then s1.Log(ReconstructionRequested) else s1
  }

  /** PostEditImport: each fragment, in order, draws a new guid and drops its optional pins. */
  function ReGuidSpec(frags: seq<Fragment>, last: nat): (r: seq<Fragment>)
    ensures |r| == |frags|
    ensures forall k :: 0 <= k < |r| ==> r[k] == frags[k].ResetGUID(last + k + 1).ResetOptionalPins()
  {
    seq(|frags|, k requires 0 <= k < |frags| => frags[k].ResetGUID(last + k + 1).ResetOptionalPins())
  }

  /** PostEditImport on the node: the fragments draw consecutive new guids from the counter. */
  function PostEditImportSpec(s: NodeState): (r: NodeState)
    ensures r.lastGuid == s.lastGuid + |s.fragments|
  {
    s.(fragments := ReGuidSpec(s.fragments, s.lastGuid), lastGuid := s.lastGuid + |s.fragments|)
  }

  /** InvalidateFragmentTags: every fragment loses its tag. */
  function InvalidateTagsSpec(frags: seq<Fragment>): (r: seq<Fragment>)
    ensures |r| == |frags|
    ensures forall k :: 0 <= k < |r| ==> r[k] == frags[k].InvalidateFragmentTag()
  {
    seq(|frags|, k requires 0 <= k < |frags| => frags[k].InvalidateFragmentTag())
  }

  /**
   * The pins GetContextOutputs adds for one fragment, and the fragment after the pin getters
   * have cached their names: end pin if used, start pin if used, prompt pin on a prompt node.
   */
  function FragmentContextPins(f: Fragment, isPrompt: bool): (r: (seq<Pin>, Fragment))
    ensures |r.0| == (if f.UsesEndPin() then 1 else 0) + (if f.UsesStartPin() then 1 else 0) + (if isPrompt then 1 else 0)
    ensures SameAuthoring(f, r.1) && r.1.activationCount == f.activationCount
  {
    var e := if f.UsesEndPin() then [f.GetEndPin().0] else [];
    var f1 := if f.UsesEndPin() then f.GetEndPin().1 else f;
    var st := if f1.UsesStartPin() then [f1.GetStartPin().0] else [];
    var f2 := if f1.UsesStartPin() then f1.GetStartPin().1 else f1;
    var pr := if isPrompt then [f2.GetPromptPin().0] else [];
    var f3 := if isPrompt then f2.GetPromptPin().1 else f2;
    (e + st + pr, f3)
  }

  /** The per-fragment pins of the first n fragments, and those fragments after caching. */
  function ContextPinsUpTo(frags: seq<Fragment>, isPrompt: bool, n: nat): (r: (seq<Pin>, seq<Fragment>))
    requires n <= |frags|
    ensures |r.1| == |frags|
    ensures forall k :: n <= k < |frags| ==> r.1[k] == frags[k]
  {
    if n == 0 then ([], frags)
    else
      var (pins, fs) := ContextPinsUpTo(frags, isPrompt, n - 1);
      var (more, g) := FragmentContextPins(fs[n - 1], isPrompt);
      (pins + more, fs[n - 1 := g])
  }

  /** One more fragment: its pins are appended and it alone is replaced by its cached form. */
  lemma ContextPinsStep(frags: seq<Fragment>, isPrompt: bool, n: nat)
    requires n < |frags|
    ensures var (pins, fs) := ContextPinsUpTo(frags, isPrompt, n);
            var (more, g) := FragmentContextPins(frags[n], isPrompt);
            ContextPinsUpTo(frags, isPrompt, n + 1) == (pins + more, fs[n := g])
  {
  }

  /** GetContextOutputs: the base pins, Out on a talk node, every fragment's pins, then Bypass when required. */
  function ContextOutputsSpec(s: NodeState, basePins: seq<Pin>): (r: (seq<Pin>, NodeState))
  {
    var (pins, fs) := ContextPinsUpTo(s.fragments, s.IsPlayerPrompt(), |s.fragments|);
    var head := basePins + (if !s.IsPlayerPrompt() then [Pin(OutputPinName, "")] else []);
    var s1 := s.(fragments := fs);
    var tail := if BypassRequired(s1) then [Pin(BypassPinName, "")] else [];
    (head + pins + tail, s1)
  }

  /** A node as constructed: a talk node, unlimited, RunAll, with one fresh fragment and nothing running. */
  function InitialState(id: NodeId, settings: ProjectSettings, now: real, lastGuid: nat): (s: NodeState)
    ensures Inv(s) && |s.fragments| == 1 && s.fragments[0].guid > lastGuid
  {
    var (g, last) := NewGuid(lastGuid);
    NodeState(
      id := id, settings := settings, nodeType := Talk, activationLimit := 0,
      talkSequencing := RunAll, skippable := None, autoAdvance := None,
      dialogueTag := EmptyTag, conditions := [], audioID := "",
      fragments := [NewFragment(g)],
      nodeActivationCount := 0, runningFragmentIndex := IndexNone,
      speechTimer := Cleared, paddingTimer := Cleared, awaitingManualAdvance := false,
      dialogueHandle := NoDialogueHandle, now := now, lastGuid := last, events := [])
  }
}
