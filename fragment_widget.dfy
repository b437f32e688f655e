// The pure helpers of the fragment editor widget (SFlowGraphNode_YapFragmentWidget): shift
// button visibility, the running indicator, child-safe completeness, audio error levels, the
// audio-ID check of an asset path and the speaker widget size. Widget construction and the
// editing transactions are not part of this model.
module FragmentWidget {
  import opened Wrappers
  import opened YapProjectSettings
  import opened YapFragment
  import opened DialogueSpec

  /** EYapErrorLevel. */
  datatype ErrorLevel = OK | Warning | Error | Unknown

  /** EYapFragmentControlsDirection. */
  datatype ControlsDirection = Up | Down

  /** EVisibility, as far as the shift buttons use it. */
  datatype Visibility = Visible | Hidden | Collapsed

  // ------------------------------------------------------------------------------------------
  // Shift buttons

  /** Visibility_FragmentShiftWidget: no "up" on the first fragment, no "down" on the last. */
  function ShiftVisibility(index: uint8, numFragments: nat, direction: ControlsDirection): Visibility {
    if index == 0 && direction == Up then Hidden
    else if index == numFragments - 1 && direction == Down then Hidden
    else Visible
  }

  /** OnClicked_FragmentShift: the neighbour to swap with, as the int32 the click computes. */
  function ShiftTarget(index: uint8, direction: ControlsDirection): int {
    if direction == Up then index - 1 else index + 1
  }

  /** A shown shift button names an in-range neighbour, and a hidden one would not. */
  lemma ShiftVisibleIffNeighbourInRange(index: uint8, numFragments: nat, direction: ControlsDirection)
    requires index < numFragments
    ensures ShiftVisibility(index, numFragments, direction) == Visible
        <==> 0 <= ShiftTarget(index, direction) < numFragments
    ensures ShiftVisibility(index, numFragments, direction) != Collapsed
  {
  }

  /**
   * Clicking a shown shift button swaps the fragment with its neighbour without an
   * out-of-range access: the node renumbers, rebuilds and logs nothing else.
   */
  lemma VisibleShiftSwapsNeighbours(s: NodeState, index: uint8, direction: ControlsDirection)
    requires Inv(s) && index < |s.fragments|
    requires ShiftVisibility(index, |s.fragments|, direction) == Visible
    ensures var other := ToUint8(ShiftTarget(index, direction));
      var r := SwapFragmentsSpec(s, index, other);
      other < |s.fragments| && other != index
      && r.events == s.events + [ReconstructionRequested]
      && |r.fragments| == |s.fragments|
      && r.fragments[index].guid == s.fragments[other].guid
      && r.fragments[other].guid == s.fragments[index].guid
  {
    var other := ToUint8(ShiftTarget(index, direction));
    assert other == ShiftTarget(index, direction);
    var swapped := SwapAt(s.fragments, index, other);
    assert swapped[index] == s.fragments[other] && swapped[other] == s.fragments[index];
    assert ReindexSpec(swapped)[index].guid == swapped[index].guid;
    assert ReindexSpec(swapped)[other].guid == swapped[other].guid;
  }

  /** An "up" click on the first fragment would ask for fragment 255, the int32 -1 cut to a uint8. */
  lemma HiddenUpShiftWouldFault(s: NodeState)
    requires Inv(s) && 0 < |s.fragments|
    ensures ShiftVisibility(0, |s.fragments|, Up) == Hidden
    ensures ToUint8(ShiftTarget(0, Up)) == 255
    ensures SwapFragmentsSpec(s, 0, 255).events == s.events + [RangeCheckFailure(255)]
  {
  }

  // ------------------------------------------------------------------------------------------
  // Running indicator and child-safe data

  /** FragmentIsRunning: the fragment started after it last ended. */
  predicate FragmentIsRunning(f: Fragment) {
    f.startTime > f.endTime
  }

  /**
   * The indicator follows the node's time stamps: starting at a later time than the last end
   * lights it, ending at the start time clears it, and a failed entry (start time -1) never
   * lights it once the fragment has ended at a non-negative time.
   */
  lemma RunningIndicatorFollowsTimes(f: Fragment, t: real)
    ensures FragmentIsRunning(f.SetStartTime(t)) <==> t > f.endTime
    ensures !FragmentIsRunning(f.SetStartTime(t).SetEndTime(t))
    ensures f.endTime >= 0.0 ==> !FragmentIsRunning(f.SetStartTime(-1.0))
  {
  }

  /** HasAnyChildSafeData: the child-safe bit has text, a title or audio. */
  predicate HasAnyChildSafeData(f: Fragment) {
    f.childSafeBit.HasDialogueText() || f.childSafeBit.HasTitleText() || f.childSafeBit.HasAudioAsset()
  }

  /**
   * HasCompleteChildSafeData: false without any child-safe data; true when child-safe data is
   * not needed; otherwise each of text, title and audio is present in both bits or in neither.
   */
  predicate HasCompleteChildSafeData(f: Fragment) {
    if !HasAnyChildSafeData(f) then false
    else if !f.enableChildSafe then true
    else
      var dialogueTextOK := f.matureBit.HasDialogueText() == f.childSafeBit.HasDialogueText();
      var titleTextOK := f.matureBit.HasTitleText() == f.childSafeBit.HasTitleText();
      var audioAssetOK := f.matureBit.HasAudioAsset() == f.childSafeBit.HasAudioAsset();
      dialogueTextOK && titleTextOK && audioAssetOK
  }

  /** Completeness in terms of the two bits, and the cases where it holds or fails outright. */
  lemma ChildSafeCompleteness(f: Fragment)
    ensures HasCompleteChildSafeData(f) ==> HasAnyChildSafeData(f)
    ensures !f.enableChildSafe ==> (HasCompleteChildSafeData(f) <==> HasAnyChildSafeData(f))
    ensures f.enableChildSafe ==>
      (HasCompleteChildSafeData(f) <==>
        HasAnyChildSafeData(f)
        && (f.matureBit.dialogueText == "" <==> f.childSafeBit.dialogueText == "")
        && (f.matureBit.titleText == "" <==> f.childSafeBit.titleText == "")
        && (f.matureBit.audioAsset.NullRef? <==> f.childSafeBit.audioAsset.NullRef?))
    ensures f.childSafeBit == EmptyBit ==> !HasCompleteChildSafeData(f)
  {
  }

  /** With child-safe data needed and complete, any mature content has a child-safe counterpart. */
  lemma CompleteChildSafeMirrorsMature(f: Fragment)
    requires f.enableChildSafe && HasCompleteChildSafeData(f)
    ensures f.matureBit.HasDialogueText() ==> f.childSafeBit.HasDialogueText()
    ensures f.matureBit.HasTitleText() ==> f.childSafeBit.HasTitleText()
    ensures f.matureBit.HasAudioAsset() ==> f.childSafeBit.HasAudioAsset()
  {
  }

  // ------------------------------------------------------------------------------------------
  // Audio error levels

  /** The fragment's time mode as stored, and the project default behind TimeModeDefault, ask for audio time. */
  predicate UsesAudioTime(f: Fragment, ps: ProjectSettings) {
    f.timeMode == AudioTime || (f.timeMode == TimeModeDefault && ps.GetDefaultTimeModeSetting() == AudioTime)
  }

  /** The audio-time test is the effective time mode the fragment plays with. */
  lemma UsesAudioTimeIsEffectiveMode(f: Fragment, ps: ProjectSettings)
    ensures UsesAudioTime(f, ps) <==> f.EffectiveTimeMode(ps) == AudioTime
  {
  }

  /** Whether a loaded asset is an instance of one of the allowed audio asset classes. */
  predicate IsAllowedAudioClass(classes: set<ClassId>, allowed: seq<ClassId>) {
    exists k :: 0 <= k < |allowed| && allowed[k] in classes
  }

  /**
   * GetAudioAssetErrorLevel: Unknown while the asset is not loaded; a loaded asset is OK when
   * it is of an allowed class and an Error otherwise; a missing asset on a fragment that plays
   * by audio time is flagged as the project's missing-audio setting says; anything else is OK.
   */
  function AudioAssetErrorLevel(asset: SoftRef, f: Fragment, ps: ProjectSettings): (level: ErrorLevel)
    ensures level == Unknown <==> asset.Pending?
    ensures asset.Loaded? ==> (level == OK <==> IsAllowedAudioClass(asset.classes, ps.audioAssetClasses))
    ensures asset.Loaded? ==> level in {OK, Error}
  {
    if asset.IsPending() then Unknown
    else if asset.IsLoaded() then
      if IsAllowedAudioClass(asset.classes, ps.audioAssetClasses) then OK else Error
    else if UsesAudioTime(f, ps) then
      match ps.GetMissingAudioBehavior()
      case MissingAudioOK => OK
      case MissingAudioWarning => Warning
      case MissingAudioError => Error
    else OK
  }

  /** A missing asset is flagged only on a fragment that plays by audio time, and then as the setting says. */
  lemma MissingAudioLevels(f: Fragment, ps: ProjectSettings)
    ensures !UsesAudioTime(f, ps) ==> AudioAssetErrorLevel(NullRef, f, ps) == OK
    ensures UsesAudioTime(f, ps) ==>
      (AudioAssetErrorLevel(NullRef, f, ps) == Error <==> ps.missingAudioErrorLevel == MissingAudioError)
      && (AudioAssetErrorLevel(NullRef, f, ps) == Warning <==> ps.missingAudioErrorLevel == MissingAudioWarning)
    ensures AudioAssetErrorLevel(NullRef, f, ps) != Unknown
  {
  }

  /**
   * GetFragmentAudioErrorLevel: when child-safe data is needed, audio on one bit only is an
   * Error; child-safe audio without mature audio is Unknown; otherwise the mature asset's level.
   */
  function FragmentAudioErrorLevel(f: Fragment, ps: ProjectSettings): (level: ErrorLevel)
  {
    var mature := f.matureBit.audioAsset;
    var safe := f.childSafeBit.audioAsset;
    if f.enableChildSafe && (!mature.IsNull() || !safe.IsNull()) && (mature.IsNull() || safe.IsNull()) then Error
    else if mature.IsNull() && !safe.IsNull() then Unknown
    else AudioAssetErrorLevel(mature, f, ps)
  }

  /** The fragment's audio level case by case. */
  lemma FragmentAudioLevelCases(f: Fragment, ps: ProjectSettings)
    ensures var mature := f.matureBit.audioAsset; var safe := f.childSafeBit.audioAsset;
      && (f.enableChildSafe && (mature.NullRef? != safe.NullRef?) ==> FragmentAudioErrorLevel(f, ps) == Error)
      && (!f.enableChildSafe && mature.NullRef? && !safe.NullRef? ==> FragmentAudioErrorLevel(f, ps) == Unknown)
      && (!mature.NullRef? && (!f.enableChildSafe || !safe.NullRef?) ==>
            FragmentAudioErrorLevel(f, ps) == AudioAssetErrorLevel(mature, f, ps))
      && (mature.NullRef? && safe.NullRef? ==> FragmentAudioErrorLevel(f, ps) == AudioAssetErrorLevel(NullRef, f, ps))
  {
  }

  /** The fragment is reported Unknown only for audio not loaded yet or for child-safe-only audio. */
  lemma FragmentAudioUnknownCauses(f: Fragment, ps: ProjectSettings)
    ensures FragmentAudioErrorLevel(f, ps) == Unknown ==>
      f.matureBit.audioAsset.Pending? || (f.matureBit.audioAsset.NullRef? && !f.childSafeBit.audioAsset.NullRef?)
  {
  }

  /** With child-safe data needed, complete child-safe audio never yields the one-sided Error. */
  lemma CompleteChildSafeAudioAgrees(f: Fragment, ps: ProjectSettings)
    requires f.enableChildSafe && HasCompleteChildSafeData(f)
    ensures FragmentAudioErrorLevel(f, ps) == AudioAssetErrorLevel(f.matureBit.audioAsset, f, ps)
  {
  }

  // ------------------------------------------------------------------------------------------
  // Audio ID in an asset path

  predicate IsAsciiLetter(c: char) { 'a' <= c <= 'z' || 'A' <= c <= 'Z' }

  predicate IsDigit(c: char) { '0' <= c <= '9' }

  /** The number of digits after the dash in an audio ID. */
  const FragmentIDLen: nat := 3

  /** An audio ID starts at position p: `len` letters, a dash, then three digits. */
  predicate AudioIdAt(path: string, len: nat, p: nat) {
    && p + len + 1 + FragmentIDLen <= |path|
    && (forall k :: p <= k < p + len ==> IsAsciiLetter(path[k]))
    && path[p + len] == '-'
    && (forall k :: p + len + 1 <= k < p + len + 1 + FragmentIDLen ==> IsDigit(path[k]))
  }

  /** The first position at or after `from` where an audio ID starts (the regex matcher's FindNext). */
  function FindAudioId(path: string, len: nat, from: nat): (r: Option<nat>)
    ensures r.Some? ==> from <= r.value && AudioIdAt(path, len, r.value)
    ensures r.Some? ==> forall p :: from <= p < r.value ==> !AudioIdAt(path, len, p)
    ensures r.None? ==> forall p :: from <= p ==> !AudioIdAt(path, len, p)
    decreases |path| - from
  {
    if from + len + 1 + FragmentIDLen > |path| then None
    else if AudioIdAt(path, len, from) then Some(from)
    else FindAudioId(path, len, from + 1)
  }

  /** ASCII upper case to lower case; FString comparison ignores case. */
  function ToLower(c: char): char {
    if 'A' <= c <= 'Z' then (c as int + 32) as char else c
  }

  /** FString operator==: equal length and equal characters up to case. */
  predicate EqualsIgnoreCase(a: string, b: string) {
    |a| == |b| && forall k :: 0 <= k < |a| ==> ToLower(a[k]) == ToLower(b[k])
  }

  /** The value of a string of decimal digits (FCString::Atoi on it). */
  function DigitsValue(ds: string): (v: nat)
    requires forall k :: 0 <= k < |ds| ==> IsDigit(ds[k])
  {
    if ds == [] then 0
    else
      assert IsDigit(ds[|ds| - 1]);
      DigitsValue(ds[..|ds| - 1]) * 10 + (ds[|ds| - 1] as int - '0' as int)
  }

  /**
   * CheckAudioAssetUsesAudioID: whether the asset path holds an audio ID for an audio ID of
   * this length, and if so whether its letters are the node's audio ID and its number the
   * fragment index (the out-parameter bCorrectMatch).
   */
  function CheckAudioAssetUsesAudioID(audioID: string, fragmentIndex: int, assetPath: string): (r: (bool, bool))
    ensures r.0 <==> exists p :: AudioIdAt(assetPath, |audioID|, p)
    ensures r.1 ==> r.0
  {
    var len := |audioID|;
    match FindAudioId(assetPath, len, 0)
    case None => (false, false)
    case Some(p) =>
      var id := assetPath[p .. p + len + 1 + FragmentIDLen];
      var letters := id[..len];
      var digits := id[len + 1 ..];
      assert forall k :: 0 <= k < |digits| ==> digits[k] == assetPath[p + len + 1 + k];
      (true, EqualsIgnoreCase(letters, audioID) && DigitsValue(digits) == fragmentIndex)
  }

  /** The three-digit, zero-padded decimal form of a fragment index below 1000. */
  function ThreeDigits(n: nat): (ds: string)
    requires n < 1000
    ensures |ds| == 3 && forall k :: 0 <= k < 3 ==> IsDigit(ds[k])
  {
    [('0' as int + n / 100) as char, ('0' as int + n / 10 % 10) as char, ('0' as int + n % 10) as char]
  }

  lemma ThreeDigitsValue(n: nat)
    requires n < 1000
    ensures DigitsValue(ThreeDigits(n)) == n
  {
    var ds := ThreeDigits(n);
    assert ds[..2][..1] == ds[..1];
    assert DigitsValue(ds[..1]) == n / 100;
    assert DigitsValue(ds[..2]) == n / 100 * 10 + n / 10 % 10;
  }

  /**
   * An asset named after the audio ID and the fragment index is recognised as a correct
   * match, whatever follows the name.
   */
  lemma {:induction false} NamedAssetMatches(audioID: string, index: nat, suffix: string)
    requires index < 1000 && forall k :: 0 <= k < |audioID| ==> IsAsciiLetter(audioID[k])
    ensures CheckAudioAssetUsesAudioID(audioID, index, audioID + "-" + ThreeDigits(index) + suffix) == (true, true)
  {
    var len := |audioID|;
    var path := audioID + "-" + ThreeDigits(index) + suffix;
    assert AudioIdAt(path, len, 0) by {
      forall k | len + 1 <= k < len + 1 + FragmentIDLen ensures IsDigit(path[k]) {
        assert path[k] == ThreeDigits(index)[k - len - 1];
      }
    }
    assert FindAudioId(path, len, 0) == Some(0);
    var id := path[0 .. len + 4];
    assert id[..len] == audioID;
    assert id[len + 1 ..] == ThreeDigits(index);
    ThreeDigitsValue(index);
  }

  /** An asset whose ID names another fragment is recognised but reported as a wrong match. */
  lemma OtherIndexDoesNotMatch(audioID: string, index: nat, other: int)
    requires index < 1000 && other != index && forall k :: 0 <= k < |audioID| ==> IsAsciiLetter(audioID[k])
    ensures CheckAudioAssetUsesAudioID(audioID, other, audioID + "-" + ThreeDigits(index) + "") == (true, false)
  {
    NamedAssetMatches(audioID, index, "");
    var path := audioID + "-" + ThreeDigits(index) + "";
    var len := |audioID|;
    assert path[0 .. len + 4][len + 1 ..] == ThreeDigits(index);
  }

  // ------------------------------------------------------------------------------------------
  // Speaker portrait

  /** The fixed minimum height that keeps pins on the graph's snapping grid. */
  const MinSpeakerHeight: int := 72

  /** GetSpeakerWidgetSize: the portrait plus its border on both sides, but never below the minimum. */
  function SpeakerWidgetSize(portraitSize: int, borderSize: int): (size: int)
    ensures size >= MinSpeakerHeight && size >= portraitSize + 2 * borderSize
    ensures size == MinSpeakerHeight || size == portraitSize + 2 * borderSize
  {
    if portraitSize + 2 * borderSize > MinSpeakerHeight then portraitSize + 2 * borderSize else MinSpeakerHeight
  }
}
