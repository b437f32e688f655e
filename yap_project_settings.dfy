// UYapProjectSettings: the project-wide defaults at the end of every override chain
// (fragment setting, else node setting, else project default), and the editor-side
// string helpers that live on the settings object.
module YapProjectSettings {
  import opened Wrappers
  import opened GameplayTags

  /** EYapTimeMode. */
  datatype TimeMode = TimeModeNone | TimeModeDefault | AudioTime | TextTime | ManualTime

  /** EYapMissingAudioErrorLevel: how a fragment that should have audio but has none is flagged. */
  datatype MissingAudioErrorLevel = MissingAudioOK | MissingAudioWarning | MissingAudioError

  /** EYap_TagFilter. */
  datatype TagFilter = ConditionsFilter | PromptsFilter

  /** A UClass, by identity. */
  type ClassId = nat

  /**
   * The configuration values of the settings default object. The last three fields
   * stand for getters the core calls whose declarations are not part of this model
   * (minimum time remaining / elapsed to allow a skip, auto-select of a lone prompt);
   * `audioAssetClasses` is what GetAudioAssetClasses returns.
   */
  datatype ProjectSettings = ProjectSettings(
    overrideAudioAssetClasses: seq<ClassId>,
    audioAssetClasses: seq<ClassId>,
    moodTagsParent: Tag,
    defaultMoodTag: Tag,
    defaultTimeModeSetting: TimeMode,
    missingAudioErrorLevel: MissingAudioErrorLevel,
    forcedDialogueDuration: bool,
    manualAdvanceOnly: bool,
    defaultFragmentPaddingTime: real,
    textWordsPerMinute: int,
    minimumAutoTextTimeLength: real,
    minimumAutoAudioTimeLength: real,
    minimumFragmentTime: real,
    fragmentPaddingSliderMax: real,
    preventCachingWordCount: bool,
    preventCachingAudioLength: bool,
    showTitleTextOnTalkNodes: bool,
    conditionTagsParent: Tag,
    dialogueTagsParent: Tag,
    suppressBrokerWarnings: bool,
    dialogueWidthAdjustment: int,
    hidePinEnableButtons: bool,
    portraitSize: int,
    dialogueTimeSliderMax: real,
    paddingTimeSliderMax: real,
    preventDialogueTextWrapping: bool,
    minimumTimeRemainingToAllowSkip: real,
    minimumTimeElapsedToAllowSkip: real,
    autoSelectLastPrompt: bool)
  {
    function GetDefaultTimeModeSetting(): TimeMode { defaultTimeModeSetting }

    /** Dialogue is skippable unless the project forces full dialogue duration. */
    function GetDefaultSkippableSetting(): bool { !forcedDialogueDuration }

    /** Dialogue auto-advances unless the project demands manual advance. */
    function GetDefaultAutoAdvanceSetting(): bool { !manualAdvanceOnly }

    function HasCustomAudioAssetClasses(): bool { |overrideAudioAssetClasses| > 0 }

    function GetShowTitleTextOnTalkNodes(): bool { showTitleTextOnTalkNodes }

    function CacheFragmentWordCountAutomatically(): bool { !preventCachingWordCount }

    function CacheFragmentAudioLengthAutomatically(): bool { !preventCachingAudioLength }

    function GetDefaultFragmentPaddingTime(): real { defaultFragmentPaddingTime }

    function GetMissingAudioBehavior(): MissingAudioErrorLevel { missingAudioErrorLevel }

    function GetPortraitSize(): int { portraitSize }

    /** Reads PaddingTimeSliderMax, not FragmentPaddingSliderMax. */
    function GetFragmentPaddingSliderMax(): real { paddingTimeSliderMax }

    function GetWrapDialogueText(): bool { !preventDialogueTextWrapping }

    function ShowPinEnableButtons(): bool { !hidePinEnableButtons }

    /** The parent tag registered for a filter (the TagContainers table). */
    function FilterParent(filter: TagFilter): Tag {
      match filter
      case ConditionsFilter => conditionTagsParent
      case PromptsFilter => dialogueTagsParent
    }
  }

  /**
   * The settings object as constructed: the member initialisers of the class
   * declaration, overridden where the constructor assigns a field (the time mode, the tag
   * parents, the two automatic minimum speaking times and the padding slider maximum), and
   * the abstract skip and prompt inputs at their neutral values.
   */
  function Defaults(): (ps: ProjectSettings)
    ensures ps.GetDefaultSkippableSetting() && ps.GetDefaultAutoAdvanceSetting()
    ensures ps.GetDefaultFragmentPaddingTime() == 0.25
  {
    ProjectSettings(
      overrideAudioAssetClasses := [],
      audioAssetClasses := [],
      moodTagsParent := "Yap.Mood",
      defaultMoodTag := EmptyTag,
      defaultTimeModeSetting := AudioTime,
      missingAudioErrorLevel := MissingAudioOK,
      forcedDialogueDuration := false,
      manualAdvanceOnly := false,
      defaultFragmentPaddingTime := 0.25,
      textWordsPerMinute := 120,
      minimumAutoTextTimeLength := 2.5,
      minimumAutoAudioTimeLength := 1.0,
      minimumFragmentTime := 0.25,
      fragmentPaddingSliderMax := 5.0,
      preventCachingWordCount := false,
      preventCachingAudioLength := false,
      showTitleTextOnTalkNodes := false,
      conditionTagsParent := "Yap.Condition",
      dialogueTagsParent := "Yap.Dialogue",
      suppressBrokerWarnings := false,
      dialogueWidthAdjustment := 0,
      hidePinEnableButtons := false,
      portraitSize := 64,
      dialogueTimeSliderMax := 5.0,
      paddingTimeSliderMax := 2.0,
      preventDialogueTextWrapping := true,
      minimumTimeRemainingToAllowSkip := 0.0,
      minimumTimeElapsedToAllowSkip := 0.0,
      autoSelectLastPrompt := false)
  }

  /** The boolean getters are the negations of the flags they read, for every configuration. */
  lemma GetterNegations(ps: ProjectSettings)
    ensures ps.GetDefaultSkippableSetting() <==> !ps.forcedDialogueDuration
    ensures ps.GetDefaultAutoAdvanceSetting() <==> !ps.manualAdvanceOnly
    ensures ps.HasCustomAudioAssetClasses() <==> ps.overrideAudioAssetClasses != []
    ensures ps.CacheFragmentWordCountAutomatically() <==> !ps.preventCachingWordCount
    ensures ps.CacheFragmentAudioLengthAutomatically() <==> !ps.preventCachingAudioLength
    ensures ps.GetWrapDialogueText() <==> !ps.preventDialogueTextWrapping
    ensures ps.ShowPinEnableButtons() <==> !ps.hidePinEnableButtons
  {
  }

  /** With the shipped defaults: dialogue is skippable, auto-advances and text wrapping is off. */
  lemma DefaultGetters()
    ensures Defaults().GetDefaultSkippableSetting()
    ensures Defaults().GetDefaultAutoAdvanceSetting()
    ensures !Defaults().HasCustomAudioAssetClasses()
    ensures Defaults().CacheFragmentWordCountAutomatically()
    ensures Defaults().CacheFragmentAudioLengthAutomatically()
    ensures !Defaults().GetWrapDialogueText()
    ensures Defaults().ShowPinEnableButtons()
    ensures Defaults().GetPortraitSize() == 64
  {
  }

  /**
   * GetTrimmedGameplayTagString: a tag under the filter's parent loses its "parent." prefix
   * (the parent itself becomes ""); every other tag, the empty one included, is returned whole.
   */
  function TrimmedGameplayTagString(ps: ProjectSettings, filter: TagFilter, tag: Tag): (r: string)
    ensures MatchesTag(tag, ps.FilterParent(filter)) ==>
              (tag == ps.FilterParent(filter) && r == "") || tag == ps.FilterParent(filter) + "." + r
    ensures !MatchesTag(tag, ps.FilterParent(filter)) ==> r == tag
  {
    var parent := ps.FilterParent(filter);
    if IsValidTag(parent) && parent != EmptyTag && MatchesTag(tag, parent) then
      var r := RightChop(tag, |parent| + 1);
      assert tag != parent ==> tag == (parent + ".") + r;
      r
    else if tag == EmptyTag then ""
    else tag
  }

  /** The file name of a mood key icon: the tag text after its last '.', or all of it. */
  function PortraitIconKey(tag: Tag): (key: string)
    ensures forall k :: 0 <= k < |key| ==> key[k] != '.'
    ensures FindLastChar(tag, '.') == -1 ==> key == tag
    ensures FindLastChar(tag, '.') >= 0 ==> tag == tag[..FindLastChar(tag, '.')] + "." + key
  {
    var i := FindLastChar(tag, '.');
    if i >= 0 then
      var key := RightChop(tag, i + 1);
      assert tag[..i + 1] == tag[..i] + ".";
      assert forall k :: 0 <= k < |key| ==> key[k] == tag[i + 1 + k];
      key
    else tag
  }

  /**
   * FString's path operator `/`: joins with a single '/' unless the left part is empty,
   * already ends in a separator, or the right part starts with '/'.
   */
  function PathJoin(left: string, right: string): (r: string)
    ensures left <= r && |r| >= |left| + |right|
    ensures r[|r| - |right|..] == right
  {
    if |left| > 0 && left[|left| - 1] != '/' && left[|left| - 1] != '\\' && (|right| == 0 || right[0] != '/')
    then left + "/" + right
    else left + right
  }

  const DefaultMoodKeysFolder: string := "Resources/DefaultMoodKeys"

  /** The mutable part of the settings default object that the editor rewrites. */
  class SettingsObject {
    /** MoodKeyIconPath.Path: folder of the mood key icons, relative to the project; "" for the plugin's own. */
    var moodKeyIconPath: string
    /** TagFilterSubscriptions: property name -> (class -> filter). */
    var tagFilterSubscriptions: map<string, map<ClassId, TagFilter>>

    constructor ()
      ensures moodKeyIconPath == "" && tagFilterSubscriptions == map[]
    {
      moodKeyIconPath := "";
      tagFilterSubscriptions := map[];
    }

    /**
     * GetPortraitIconPath: the icon of a mood key sits in the plugin's default folder when no
     * icon path is configured, otherwise in the configured folder under the project directory.
     */
    function PortraitIconPath(key: Tag, projectDir: string, pluginDir: string): (r: string)
      reads this
      ensures moodKeyIconPath == "" ==>
        pluginDir <= r && EndsWith(r, DefaultMoodKeysFolder + "/" + PortraitIconKey(key) + ".png")
      ensures moodKeyIconPath != "" ==>
        projectDir <= r && EndsWith(r, moodKeyIconPath + "/" + PortraitIconKey(key) + ".png")
    {
      var name := PortraitIconKey(key);
      if moodKeyIconPath == "" then PathJoin(pluginDir, DefaultMoodKeysFolder + "/" + name + ".png")
      else PathJoin(projectDir, moodKeyIconPath + "/" + name + ".png")
    }

    /**
     * RegisterTagFilter: FindOrAdd the property's class map, then Add (which replaces)
     * the class's filter.
     */
    method RegisterTagFilter(classId: ClassId, propertyName: string, filter: TagFilter)
      modifies this
      ensures tagFilterSubscriptions == WithTagFilter(old(tagFilterSubscriptions), propertyName, classId, filter)
      ensures moodKeyIconPath == old(moodKeyIconPath)
    {
      var classFilters := if propertyName in tagFilterSubscriptions then tagFilterSubscriptions[propertyName] else map[];
      tagFilterSubscriptions := tagFilterSubscriptions[propertyName := classFilters[classId := filter]];
    }

    /**
     * PostEditChangeChainProperty: when MoodKeyIconPath.Path is edited, the path loses as many
     * leading characters as the absolute project directory has.
     */
    method OnIconPathEdited(head: string, tail: string, fullPathDir: string)
      modifies this
      ensures moodKeyIconPath == if head == "MoodKeyIconPath" && tail == "Path"
                                 then RightChop(old(moodKeyIconPath), |fullPathDir|)
                                 else old(moodKeyIconPath)
      ensures tagFilterSubscriptions == old(tagFilterSubscriptions)
    {
      if head == "MoodKeyIconPath" && tail == "Path" {
        moodKeyIconPath := RightChop(moodKeyIconPath, |fullPathDir|);
      }
    }
  }

  predicate EndsWith(s: string, suffix: string) {
    |suffix| <= |s| && s[|s| - |suffix|..] == suffix
  }

  /** The filter registered for (property, class), if any. */
  function LookupTagFilter(subs: map<string, map<ClassId, TagFilter>>, propertyName: string, classId: ClassId): Option<TagFilter> {
    if propertyName in subs && classId in subs[propertyName] then Some(subs[propertyName][classId]) else None
  }

  /** The subscriptions after registering `filter` for (property, class). */
  function WithTagFilter(subs: map<string, map<ClassId, TagFilter>>, propertyName: string, classId: ClassId, filter: TagFilter)
    : (r: map<string, map<ClassId, TagFilter>>)
    ensures LookupTagFilter(r, propertyName, classId) == Some(filter)
    ensures forall p: string, c: ClassId :: (p, c) != (propertyName, classId) ==> LookupTagFilter(r, p, c) == LookupTagFilter(subs, p, c)
  {
    var classFilters := if propertyName in subs then subs[propertyName] else map[];
    subs[propertyName := classFilters[classId := filter]]
  }

  /** Registering the same (property, class) twice keeps only the second filter. */
  lemma ReRegisterOverwrites(subs: map<string, map<ClassId, TagFilter>>, p: string, c: ClassId, f1: TagFilter, f2: TagFilter)
    ensures LookupTagFilter(WithTagFilter(WithTagFilter(subs, p, c, f1), p, c, f2), p, c) == Some(f2)
  {
  }

  /**
   * The icon-path rewrite chops by length only: a path under the project directory becomes
   * relative to it, and any other path loses the same number of characters all the same.
   */
  lemma IconPathChopIsLengthOnly(path: string, fullPathDir: string)
    ensures fullPathDir <= path ==> fullPathDir + RightChop(path, |fullPathDir|) == path
    ensures |RightChop(path, |fullPathDir|)| == if |path| >= |fullPathDir| then |path| - |fullPathDir| else 0
  {
  }
}
