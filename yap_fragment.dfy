// FYapFragment: one segment of speech inside a dialogue node. The node keeps its fragments
// by value in a TArray and changes them in place; here a fragment is a value and every
// mutator returns the updated fragment, which the node writes back at the same position.
module YapFragment {
  import opened Wrappers
  import opened Guids
  import opened GameplayTags
  import opened Conditions
  import opened YapProjectSettings

  /** EYapFragmentRunState. */
  datatype RunState = Idle | Running | InPadding

  /** The uint8 value behind each run state. */
  function RunStateValue(s: RunState): (v: nat)
    ensures v < 3
  {
    match s
    case Idle => 0
    case Running => 1
    case InPadding => 2
  }

  /** EYapFragmentEntryStateFlags: a uint8 bit set. */
  type EntryStateFlags = bv8

  const NeverRan: EntryStateFlags := 0
  const Failed: EntryStateFlags := 1
  const Success: EntryStateFlags := 2
  const Skipped: EntryStateFlags := 4

  /** operator| on entry-state flags: bitwise OR of the underlying uint8 values. */
  function EntryOr(left: EntryStateFlags, right: EntryStateFlags): (r: EntryStateFlags)
    ensures r & left == left && r & right == right
    ensures r | left == r && r | right == r
  {
    left | right
  }

  /** EYapDialogueSkippable: a bit's own skippable override. */
  datatype BitSkippable = SkippableDefault | SkippableYes | SkippableNo

  /**
   * A TSoftObjectPtr: no path (null), a path whose object is not loaded (pending),
   * or a loaded object together with the classes it is an instance of.
   */
  datatype SoftRef = NullRef | Pending(path: string) | Loaded(path: string, classes: set<ClassId>) {
    predicate IsNull() { NullRef? }
    predicate IsPending() { Pending? }
    predicate IsLoaded() { Loaded? }
    function ToString(): string { if NullRef? then "" else path }
  }

  /** FYapBit: the text, audio and skippable override of one maturity variant of a fragment. */
  datatype Bit = Bit(dialogueText: string, titleText: string, audioAsset: SoftRef, skippable: BitSkippable) {
    predicate HasDialogueText() { dialogueText != "" }
    predicate HasTitleText() { titleText != "" }
    predicate HasAudioAsset() { !audioAsset.IsNull() }
  }

  const EmptyBit: Bit := Bit("", "", NullRef, SkippableDefault)

  /** FFlowPin: a pin name (the empty name is NAME_None, an unset pin) and its tooltip. */
  datatype Pin = Pin(name: string, toolTip: string) {
    predicate IsValid() { name != "" }
  }

  const NoPin: Pin := Pin("", "")

  const PromptPinPrefix: string := "Prompt_"
  const EndPinPrefix: string := "End_"
  const StartPinPrefix: string := "Start_"
  const PromptPinToolTip: string := "Out"
  const EndPinToolTip: string := "Runs before end-padding time begins"
  const StartPinToolTip: string := "Runs when fragment starts playback"

  datatype Fragment = Fragment(
    // settings
    conditions: seq<Condition>,
    matureBit: Bit,
    childSafeBit: Bit,
    activationLimit: int,
    fragmentTag: Tag,
    padding: Option<real>,
    skippable: Option<bool>,
    autoAdvance: Option<bool>,
    enableChildSafe: bool,
    showOnStartPin: bool,
    showOnEndPin: bool,
    moodTag: Tag,
    timeMode: TimeMode,
    /** What GetTime() yields: the speaking time, unset when the fragment has no timed playback. */
    speechTime: Option<real>,
    // state
    guid: Guid,
    indexInDialogue: nat,
    activationCount: int,
    promptPin: Pin,
    startPin: Pin,
    endPin: Pin,
    runState: RunState,
    lastEntryState: EntryStateFlags,
    startTime: real,
    endTime: real,
    awaitingManualAdvance: bool)
  {
    /** CheckActivationLimit: the fragment may still run. */
    predicate CheckActivationLimit() {
      if activationLimit <= 0 then true else activationCount < activationLimit
    }

    /** IsActivationLimitMet: a positive limit has been used up. */
    predicate IsActivationLimitMet() {
      if activationLimit <= 0 then false else activationCount >= activationLimit
    }

    predicate UsesStartPin() { showOnStartPin }

    predicate UsesEndPin() { showOnEndPin }

    function SetRunState(s: RunState): (f: Fragment) { this.(runState := s) }

    function SetEntryState(flags: EntryStateFlags): (f: Fragment) { this.(lastEntryState := flags) }

    function SetStartTime(t: real): (f: Fragment) { this.(startTime := t) }

    function SetEndTime(t: real): (f: Fragment) { this.(endTime := t) }

    function SetAwaitingManualAdvance(): (f: Fragment) { this.(awaitingManualAdvance := true) }

    predicate GetIsAwaitingManualAdvance() { awaitingManualAdvance }

    function SetPaddingToNextFragment(p: real): (f: Fragment) { this.(padding := Some(p)) }

    function SetIndexInDialogue(i: nat): (f: Fragment) { this.(indexInDialogue := i) }

    function IncrementActivations(): (f: Fragment) { this.(activationCount := activationCount + 1) }

    function ResetOptionalPins(): (f: Fragment) { this.(showOnStartPin := false, showOnEndPin := false) }

    function ResetGUID(newGuid: Guid): (f: Fragment) { this.(guid := newGuid) }

    function InvalidateFragmentTag(): (f: Fragment) { this.(fragmentTag := EmptyTag) }

    /** GetSkippable(Default): the fragment override, else the given fallback. */
    function GetSkippable(fallback: bool): bool { skippable.GetOr(fallback) }

    /** GetAutoAdvance(Default): the fragment override, else the given fallback. */
    function GetAutoAdvance(fallback: bool): bool { autoAdvance.GetOr(fallback) }

    /** The time mode in effect: the fragment's own, or the project default when set to Default. */
    function EffectiveTimeMode(ps: ProjectSettings): TimeMode {
      if timeMode == TimeModeDefault then ps.defaultTimeModeSetting else timeMode
    }

    predicate IsTimeModeNone(ps: ProjectSettings) { EffectiveTimeMode(ps) == TimeModeNone }

    /**
     * GetPaddingToNextFragment: no padding without timed playback; an unset (or negative)
     * stored padding uses the project default; otherwise the stored padding.
     */
    function GetPaddingToNextFragment(ps: ProjectSettings): (r: real)
      ensures IsTimeModeNone(ps) ==> r == 0.0
      ensures !IsTimeModeNone(ps) && (padding.None? || padding.value < 0.0) ==> r == ps.defaultFragmentPaddingTime
      ensures !IsTimeModeNone(ps) && padding.Some? && padding.value >= 0.0 ==> r == padding.value
    {
      if IsTimeModeNone(ps) then 0.0
      else match padding
        case None => ps.GetDefaultFragmentPaddingTime()
        case Some(p) => if p < 0.0 then ps.GetDefaultFragmentPaddingTime() else Max(p, 0.0)
    }

    /** GetPromptPin: names the prompt pin from the guid on first use and caches it. */
    function GetPromptPin(): (r: (Pin, Fragment))
      ensures r.0 == r.1.promptPin && r.0.IsValid()
      ensures promptPin.IsValid() ==> r.1 == this
      ensures !promptPin.IsValid() ==> r.0 == Pin(PromptPinPrefix + ToString(guid), PromptPinToolTip)
      ensures r.1 == this.(promptPin := r.0)
    {
      if promptPin.IsValid() then (promptPin, this)
      else
        var pin := Pin(PromptPinPrefix + ToString(guid), PromptPinToolTip);
        (pin, this.(promptPin := pin))
    }

    /**
     * GetEndPin: names the end pin from the guid on first use and caches it. Its tooltip text
     * is written onto the prompt pin, and the end pin keeps an empty tooltip.
     */
    function GetEndPin(): (r: (Pin, Fragment))
      ensures r.0 == r.1.endPin && r.0.IsValid()
      ensures endPin.IsValid() ==> r.1 == this
      ensures !endPin.IsValid() ==>
        r.0 == Pin(EndPinPrefix + ToString(guid), "") &&
        r.1 == this.(endPin := r.0, promptPin := promptPin.(toolTip := EndPinToolTip))
    {
      if endPin.IsValid() then (endPin, this)
      else
        var pin := Pin(EndPinPrefix + ToString(guid), "");
        (pin, this.(endPin := pin, promptPin := promptPin.(toolTip := EndPinToolTip)))
    }

    /** GetStartPin: names the start pin from the guid on first use and caches it. */
    function GetStartPin(): (r: (Pin, Fragment))
      ensures r.0 == r.1.startPin && r.0.IsValid()
      ensures startPin.IsValid() ==> r.1 == this
      ensures !startPin.IsValid() ==> r.0 == Pin(StartPinPrefix + ToString(guid), StartPinToolTip)
      ensures r.1 == this.(startPin := r.0)
    {
      if startPin.IsValid() then (startPin, this)
      else
        var pin := Pin(StartPinPrefix + ToString(guid), StartPinToolTip);
        (pin, this.(startPin := pin))
    }

    /**
     * GetOutputPins: the prompt pin when the owning node is a player prompt, then the end pin
     * and the start pin when they are enabled, read from the stored fields as they are.
     */
    function GetOutputPins(ownerIsPrompt: bool): (pins: seq<Pin>)
      ensures |pins| == (if ownerIsPrompt then 1 else 0) + (if UsesEndPin() then 1 else 0) + (if UsesStartPin() then 1 else 0)
      ensures ownerIsPrompt ==> pins[0] == promptPin
      ensures UsesStartPin() ==> pins[|pins| - 1] == startPin
      ensures UsesEndPin() ==> pins[if ownerIsPrompt then 1 else 0] == endPin
    {
      (if ownerIsPrompt then [promptPin] else [])
      + (if UsesEndPin() then [endPin] else [])
      + (if UsesStartPin() then [startPin] else [])
    }
  }

  function Max(a: real, b: real): real { if a >= b then a else b }

  /**
   * A freshly constructed fragment: FYapFragment() draws a new guid; every other member
   * takes its declared default (the time mode, which has none, starts at Default).
   */
  function NewFragment(g: Guid): (f: Fragment)
    ensures f.guid == g
  {
    Fragment(
      conditions := [], matureBit := EmptyBit, childSafeBit := EmptyBit,
      activationLimit := 0, fragmentTag := EmptyTag, padding := None,
      skippable := None, autoAdvance := None, enableChildSafe := false,
      showOnStartPin := false, showOnEndPin := false, moodTag := EmptyTag,
      timeMode := TimeModeDefault, speechTime := None,
      guid := g, indexInDialogue := 0, activationCount := 0,
      promptPin := NoPin, startPin := NoPin, endPin := NoPin,
      runState := Idle, lastEntryState := NeverRan,
      startTime := -1.0, endTime := -1.0, awaitingManualAdvance := false)
  }

  /** What a fragment may change while it plays: everything else is authored data. */
  predicate SameAuthoring(f: Fragment, g: Fragment) {
    && g.conditions == f.conditions
    && g.matureBit == f.matureBit
    && g.childSafeBit == f.childSafeBit
    && g.activationLimit == f.activationLimit
    && g.fragmentTag == f.fragmentTag
    && g.padding == f.padding
    && g.skippable == f.skippable
    && g.autoAdvance == f.autoAdvance
    && g.enableChildSafe == f.enableChildSafe
    && g.showOnStartPin == f.showOnStartPin
    && g.showOnEndPin == f.showOnEndPin
    && g.moodTag == f.moodTag
    && g.timeMode == f.timeMode
    && g.speechTime == f.speechTime
    && g.guid == f.guid
    && g.indexInDialogue == f.indexInDialogue
  }

  /** A positive activation limit is never exceeded. */
  predicate LimitRespected(f: Fragment) {
    f.activationLimit > 0 ==> f.activationCount <= f.activationLimit
  }

  // ----------------------------------------------------------------------------------------
  // Properties

  /** A new fragment: unlimited, never activated, idle, never ran, and no start or end time. */
  lemma NewFragmentDefaults(g: Guid)
    ensures var f := NewFragment(g);
      && f.activationLimit == 0 && f.activationCount == 0
      && f.runState == Idle && f.lastEntryState == NeverRan
      && f.startTime == -1.0 && f.endTime == -1.0
      && f.padding.None? && !f.UsesStartPin() && !f.UsesEndPin()
      && f.CheckActivationLimit() && !f.IsActivationLimitMet()
  {
  }

  /** IsActivationLimitMet holds exactly when a positive limit is reached, and CheckActivationLimit is its negation. */
  lemma ActivationLimitPredicates(f: Fragment)
    ensures f.IsActivationLimitMet() <==> f.activationLimit > 0 && f.activationCount >= f.activationLimit
    ensures f.CheckActivationLimit() <==> !f.IsActivationLimitMet()
  {
  }

  /** Run-state values are Idle=0, Running=1, InPadding=2, so the three are distinct. */
  lemma RunStateValues()
    ensures RunStateValue(Idle) == 0 && RunStateValue(Running) == 1 && RunStateValue(InPadding) == 2
    ensures forall a, b :: RunStateValue(a) == RunStateValue(b) ==> a == b
  {
  }

  /** The entry-state flags are distinct single bits, and NeverRan is the empty set. */
  lemma EntryFlagsAreBits()
    ensures NeverRan == 0
    ensures Failed & Success == 0 && Failed & Skipped == 0 && Success & Skipped == 0
    ensures Failed != 0 && Success != 0 && Skipped != 0
    ensures Failed & (Failed - 1) == 0 && Success & (Success - 1) == 0 && Skipped & (Skipped - 1) == 0
    ensures EntryOr(Failed, Success) & Skipped == 0
  {
  }

  /**
   * Each setter stores exactly the given value and changes nothing else: reading back gives
   * the value, and restoring the old value gives back the original fragment.
   */
  lemma SettersStoreExactly(f: Fragment, s: RunState, flags: EntryStateFlags, t: real, p: real)
    ensures f.SetRunState(s).runState == s && f.SetRunState(s).(runState := f.runState) == f
    ensures f.SetEntryState(flags).lastEntryState == flags && f.SetEntryState(flags).(lastEntryState := f.lastEntryState) == f
    ensures f.SetStartTime(t).startTime == t && f.SetStartTime(t).(startTime := f.startTime) == f
    ensures f.SetEndTime(t).endTime == t && f.SetEndTime(t).(endTime := f.endTime) == f
    ensures f.SetAwaitingManualAdvance().GetIsAwaitingManualAdvance()
    ensures f.SetAwaitingManualAdvance().(awaitingManualAdvance := f.awaitingManualAdvance) == f
    ensures f.SetPaddingToNextFragment(p).padding == Some(p)
    ensures f.SetPaddingToNextFragment(p).(padding := f.padding) == f
  {
  }

  /** IncrementActivations adds exactly one and touches nothing else; a limited fragment stays within its limit when it was allowed to run. */
  lemma IncrementActivationsByOne(f: Fragment)
    ensures f.IncrementActivations().activationCount == f.activationCount + 1
    ensures SameAuthoring(f, f.IncrementActivations())
    ensures f.IncrementActivations().(activationCount := f.activationCount) == f
    ensures LimitRespected(f) && !f.IsActivationLimitMet() ==> LimitRespected(f.IncrementActivations())
  {
  }

  /** ResetOptionalPins turns off both optional pins; InvalidateFragmentTag clears the tag. */
  lemma ResettersClear(f: Fragment)
    ensures !f.ResetOptionalPins().UsesStartPin() && !f.ResetOptionalPins().UsesEndPin()
    ensures f.ResetOptionalPins().(showOnStartPin := f.showOnStartPin, showOnEndPin := f.showOnEndPin) == f
    ensures !IsValidTag(f.InvalidateFragmentTag().fragmentTag)
    ensures f.InvalidateFragmentTag().(fragmentTag := f.fragmentTag) == f
  {
  }

  /** The resolved padding is never negative when the project default is not. */
  lemma PaddingNonNegative(f: Fragment, ps: ProjectSettings)
    requires ps.defaultFragmentPaddingTime >= 0.0
    ensures f.GetPaddingToNextFragment(ps) >= 0.0
  {
  }

  /** Asking for a pin a second time returns the same pin and leaves the fragment as the first call left it. */
  lemma PinGettersIdempotent(f: Fragment)
    ensures f.GetPromptPin().1.GetPromptPin() == f.GetPromptPin()
    ensures f.GetEndPin().1.GetEndPin() == f.GetEndPin()
    ensures f.GetStartPin().1.GetStartPin() == f.GetStartPin()
  {
  }

  /** The three pins of one fragment get pairwise distinct names. */
  lemma PinNamesDistinct(g: Guid)
    ensures PromptPinPrefix + ToString(g) != EndPinPrefix + ToString(g)
    ensures PromptPinPrefix + ToString(g) != StartPinPrefix + ToString(g)
    ensures EndPinPrefix + ToString(g) != StartPinPrefix + ToString(g)
  {
    assert (PromptPinPrefix + ToString(g))[0] == 'P';
    assert (EndPinPrefix + ToString(g))[0] == 'E';
    assert (StartPinPrefix + ToString(g))[0] == 'S';
  }

  /** Pins of the same kind on fragments with different guids get different names. */
  lemma {:induction false} PinNamesTellGuidsApart(prefix: string, g1: Guid, g2: Guid)
    requires g1 < GuidLimit() && g2 < GuidLimit() && g1 != g2
    ensures prefix + ToString(g1) != prefix + ToString(g2)
  {
    if prefix + ToString(g1) == prefix + ToString(g2) {
      assert ToString(g1) == (prefix + ToString(g1))[|prefix|..];
      assert ToString(g2) == (prefix + ToString(g2))[|prefix|..];
      ToStringInjective(g1, g2);
    }
  }

  /** Naming the end pin for the first time leaves the end pin's tooltip empty and sets the prompt pin's instead. */
  lemma EndPinTooltipLandsOnPromptPin(f: Fragment)
    requires !f.endPin.IsValid()
    ensures f.GetEndPin().1.endPin.toolTip == ""
    ensures f.GetEndPin().1.promptPin == f.promptPin.(toolTip := EndPinToolTip)
  {
  }
}
