# Yap dialogue playback, modelled in Dafny

This project models the runtime core of the Yap dialogue plugin for Unreal Engine's Flow
graph editor:

- **The dialogue node** (`UFlowNode_YapDialogue`). It holds an ordered list of fragments (lines of
  speech), each with its own conditions, activation limit, timing and optional start and end pins.
  - On entry the node checks its conditions and activation limits.
  - A *talk* node then plays fragments in turn under one of three sequencing policies: RunAll,
    RunUntilFailure or SelectOne.
  - A *player prompt* node offers its eligible fragments as choices and waits for one to be run.
  - Each played fragment goes through a speech phase and then a padding phase, each driven by a
    timer. The fragment then advances to the next one, or waits for a manual advance.
  - A skip cuts the current phase short, subject to guards.
  - Editing operations swap, delete and renumber fragments, cycle the sequencing policy, toggle
    the node type and compute the node's output pins.
- **The fragment** (`FYapFragment`): its defaults, limits, padding resolution and lazily named pins.
- **The project settings** that close every override chain (fragment, else node, else project),
  and the tag-string and icon-path helpers.
- **The world subsystem** (`UYapSubsystem`):
  - the active conversation;
  - the tagged-fragment and character-component registries;
  - the listener list;
  - the conversation name and skippable flag resolved for each broadcast.
- **The handle values** (`FYapPromptHandle`, `FYapDialogueHandle`).
- **The pure helpers of the fragment editor widget:**
  - shift-button bounds;
  - the running indicator;
  - child-safe completeness;
  - audio error levels;
  - the audio-ID check on asset paths;
  - the speaker widget size.

How the model is laid out:

- **State.** The node is a class (`YapDialogueNode.DialogueNode`) whose fields the methods update in place. Each state-changing method ends in exactly the state a pure function of module `DialogueSpec` computes from the old state (`State() == XSpec(old(State()))`).
- **Invariants.** `DialogueInvariants` proves what every playback step preserves:
  - settings and the authored part of each fragment stay fixed;
  - counters only grow and events are only appended;
  - a kept activation limit stays kept;
  - the running index stays `INDEX_NONE` or a valid index.
- **Behaviour.** `DialogueProperties` proves the behaviour the plugin promises against independent reference definitions. The main one is `FirstEligible`, the first fragment at or after a position whose conditions pass and whose limit is not met.
- **Collaborators become state:**
  - timers are a `TimerSlot` (cleared, or pending with the time left);
  - the world clock is a field;
  - the guid generator is a counter;
  - every pin trigger, broadcast and log line appends to an event log.
- **Out-of-range array accesses** the engine would stop on appear as a `RangeCheckFailure` event. Examples: a `uint8`-truncated `INDEX_NONE`, or a bad index handed to `Swap` or `RemoveAt`.

The node and the subsystem keep the plugin's behaviour as written, defects included. Module `DialogueCorrections` and the subsystem's `FinishedPromptsNameFor` give the corrected definitions beside them (see "## Findings").

Where the node's `.cpp` and the headers describe different revisions, behaviour follows the `.cpp` bodies. Types, defaults and inline predicates follow the headers.

## Model

| member | source | states |
|---|---|---|
| `Conditions.Evaluate` | Source/Yap/Private/Yap/Nodes/FlowNode_YapDialogue.cpp:228-245 | the condition loop passes iff no non-null condition is false, and stops at the first false one, null entries being skipped |
| `Guids.NewGuid` | Source/Yap/Private/Yap/YapDialogueHandle.cpp:14 | a freshly drawn guid is valid and larger than every guid drawn before it |
| `Guids.ToStringInjective` | Source/Yap/Private/Yap/YapFragment.cpp:74-84 | two different 128-bit guids print as different 32-digit strings, so guid-derived pin names are unique |
| `Guids.HexInjective` | Source/Yap/Private/Yap/YapFragment.cpp:74-84 | fixed-width hexadecimal printing is injective on numbers that fit the width |
| `GameplayTags.RightChop` | Source/Yap/Private/Yap/YapProjectSettings.cpp:192-207 | RightChop drops exactly the first n characters, leaving "" once n reaches the length |
| `GameplayTags.FindLastChar` | Source/Yap/Private/Yap/YapProjectSettings.cpp:56-80 | the result is the last position holding the character, or -1 when it does not occur |
| `YapProjectSettings.Defaults` | Source/Yap/Public/Yap/YapProjectSettings.h:102-198 | the shipped defaults: dialogue skippable and auto-advancing, 0.25 s padding |
| `YapProjectSettings.GetterNegations` | Source/Yap/Public/Yap/YapProjectSettings.h:244-305 | each boolean getter is the negation of the flag it reads, and HasCustomAudioAssetClasses is non-emptiness of the override list |
| `YapProjectSettings.DefaultGetters` | Source/Yap/Public/Yap/YapProjectSettings.h:102-198 | with the declared initialisers the getters give skippable, auto-advance, caching on, no wrapping, portrait size 64 |
| `YapProjectSettings.TrimmedGameplayTagString` | Source/Yap/Private/Yap/YapProjectSettings.cpp:192-207 | a tag under the filter's parent loses the "parent." prefix (the parent itself becomes ""), any other tag comes back whole |
| `YapProjectSettings.PortraitIconKey` | Source/Yap/Private/Yap/YapProjectSettings.cpp:56-80 | the icon name is the tag text after its last '.', contains no '.', and re-joined with the head gives the tag |
| `YapProjectSettings.PathJoin` | Source/Yap/Private/Yap/YapProjectSettings.cpp:56-80 | joining paths keeps the left part as a prefix and the right part as the suffix |
| `YapProjectSettings.SettingsObject.PortraitIconPath` | Source/Yap/Private/Yap/YapProjectSettings.cpp:56-80 | the icon lies in the plugin's default mood-key folder when no icon path is set, else in the configured folder under the project directory, named `<key>.png` |
| `YapProjectSettings.SettingsObject.RegisterTagFilter` | Source/Yap/Private/Yap/YapProjectSettings.cpp:155-160 | the subscription table afterwards maps (property, class) to the filter and leaves every other entry alone |
| `YapProjectSettings.SettingsObject.OnIconPathEdited` | Source/Yap/Private/Yap/YapProjectSettings.cpp:99-118 | editing MoodKeyIconPath.Path chops as many leading characters as the project directory has; other edits change nothing |
| `YapProjectSettings.WithTagFilter` | Source/Yap/Private/Yap/YapProjectSettings.cpp:155-160 | registering sets exactly one (property, class) entry |
| `YapProjectSettings.ReRegisterOverwrites` | Source/Yap/Private/Yap/YapProjectSettings.cpp:155-160 | registering the same (property, class) twice keeps the second filter |
| `YapProjectSettings.IconPathChopIsLengthOnly` | Source/Yap/Private/Yap/YapProjectSettings.cpp:99-118 | the icon-path rewrite makes a path under the project directory relative, and chops any other path by the same length all the same |
| `YapFragment.EntryOr` | Source/Yap/Public/Yap/YapFragment.h:40-43 | operator\| on entry flags contains both operands |
| `YapFragment.RunStateValue` | Source/Yap/Public/Yap/YapFragment.h:22-27 | run states are the uint8 values 0, 1, 2 |
| `YapFragment.Fragment.GetPaddingToNextFragment` | Source/Yap/Private/Yap/YapFragment.cpp:49-62 | no padding without timed playback; an unset or negative stored padding falls back to the project default; otherwise the stored value |
| `YapFragment.Fragment.GetPromptPin` | Source/Yap/Private/Yap/YapFragment.cpp:74-84 | the prompt pin is named `Prompt_<guid>` on first use and cached; later calls return the cached pin unchanged |
| `YapFragment.Fragment.GetEndPin` | Source/Yap/Private/Yap/YapFragment.cpp:86-96 | the end pin is named `End_<guid>` on first use and cached; its tooltip text is written onto the prompt pin |
| `YapFragment.Fragment.GetStartPin` | Source/Yap/Private/Yap/YapFragment.cpp:98-108 | the start pin is named `Start_<guid>` on first use and cached |
| `YapFragment.Fragment.GetOutputPins` | Source/Yap/Private/Yap/YapFragment.cpp:137-157 | the output pins are the prompt pin on a prompt node, then the end and start pins when enabled, in that order |
| `YapFragment.NewFragment` | Source/Yap/Private/Yap/YapFragment.cpp:15-18 | a new fragment carries the freshly drawn guid |
| `YapFragment.NewFragmentDefaults` | Source/Yap/Public/Yap/YapFragment.h:82-160 | a new fragment is unlimited, never activated, idle, never ran, has start/end time -1 and no optional pins |
| `YapFragment.ActivationLimitPredicates` | Source/Yap/Public/Yap/YapFragment.h:227-229 | IsActivationLimitMet holds iff a positive limit is reached, and CheckActivationLimit is exactly its negation |
| `YapFragment.RunStateValues` | Source/Yap/Public/Yap/YapFragment.h:22-27 | the three run states have distinct values |
| `YapFragment.EntryFlagsAreBits` | Source/Yap/Public/Yap/YapFragment.h:32-43 | Failed, Success and Skipped are distinct single bits and NeverRan is empty |
| `YapFragment.SettersStoreExactly` | Source/Yap/Public/Yap/YapFragment.h:217-336 | each setter stores exactly its value and nothing else |
| `YapFragment.IncrementActivationsByOne` | Source/Yap/Private/Yap/YapFragment.cpp:64-67 | the activation count rises by exactly one, nothing authored changes, and an unmet limit stays respected |
| `YapFragment.ResettersClear` | Source/Yap/Private/Yap/YapFragment.cpp:38-42 | ResetOptionalPins turns off both optional pins and InvalidateFragmentTag clears the tag, touching nothing else |
| `YapFragment.PaddingNonNegative` | Source/Yap/Private/Yap/YapFragment.cpp:49-62 | the resolved padding is never negative when the project default is not |
| `YapFragment.PinGettersIdempotent` | Source/Yap/Private/Yap/YapFragment.cpp:74-108 | asking for a pin again returns the same pin and fragment |
| `YapFragment.PinNamesDistinct` | Source/Yap/Private/Yap/YapFragment.cpp:74-108 | a fragment's prompt, end and start pins get pairwise different names |
| `YapFragment.PinNamesTellGuidsApart` | Source/Yap/Private/Yap/YapFragment.cpp:74-108 | pins of one kind on fragments with different guids get different names |
| `YapFragment.EndPinTooltipLandsOnPromptPin` | Source/Yap/Private/Yap/YapFragment.cpp:86-96 | naming the end pin leaves its own tooltip empty and sets the prompt pin's |
| `Handles.GuidHash` | Source/Yap/Public/Yap/Handles/YapPromptHandle.h:51-54 | the handle hash is a 32-bit value computed from the guid alone |
| `Handles.PromptHandleIdentity` | Source/Yap/Public/Yap/Handles/YapPromptHandle.h:41-54 | prompt handles are equal iff their guids are; equal handles hash alike; validity is the guid's |
| `Handles.PromptEqualityIgnoresTarget` | Source/Yap/Public/Yap/Handles/YapPromptHandle.h:45-48 | for every node and index, handles with the same guid compare equal and hash alike even when they name different prompts; handles for the same prompt with different guids are not equal |
| `Handles.DialogueHandle.Invalidate` | Source/Yap/Private/Yap/Nodes/FlowNode_YapDialogue.cpp:470 | an invalidated dialogue handle is not valid |
| `Handles.NewDialogueHandle` | Source/Yap/Private/Yap/YapDialogueHandle.cpp:8-15 | the handle stores node, index and skippable as given, with a fresh valid guid |
| `Handles.SuccessiveDialogueHandlesDiffer` | Source/Yap/Private/Yap/YapDialogueHandle.cpp:8-15 | two handles built one after the other differ, even for the same fragment |
| `DialogueSpec.ToUint8` | Source/Yap/Public/Yap/Nodes/FlowNode_YapDialogue.h:147 | storing into a uint8 keeps values below 256 and turns INDEX_NONE into 255 |
| `DialogueSpec.TalkSequencingOf` | Source/Yap/Public/Yap/Nodes/FlowNode_YapDialogue.h:21-32 | each sequencing value below the count names the mode with that value |
| `DialogueSpec.NodeTypeOf` | Source/Yap/Public/Yap/Nodes/FlowNode_YapDialogue.h:34-45 | each node-type value below the count names the type with that value |
| `DialogueSpec.SetTimer` | Source/Yap/Private/Yap/Nodes/FlowNode_YapDialogue.cpp:405-409 | setting a timer leaves a pending handle iff the rate is positive |
| `DialogueSpec.EvolvesTransitive` | Source/Yap/Private/Yap/Nodes/FlowNode_YapDialogue.cpp:372-526 | the "allowed playback change" relation composes |
| `DialogueSpec.TryBroadcastSpec` | Source/Yap/Private/Yap/Nodes/FlowNode_YapDialogue.cpp:552-571 | the dialogue-start broadcast happens iff the fragment's conditions pass and its limit is not met, with a fresh handle for that fragment; otherwise nothing changes |
| `DialogueSpec.RunFragmentSpec` | Source/Yap/Private/Yap/Nodes/FlowNode_YapDialogue.cpp:372-415 | a run that succeeds makes that fragment the running one; a failed run leaves the running index alone |
| `DialogueSpec.EndPaddingSpec` | Source/Yap/Private/Yap/Nodes/FlowNode_YapDialogue.cpp:458-462 | ending padding resets the running index to INDEX_NONE and leaves the fragments alone |
| `DialogueSpec.RunPromptSpec` | Source/Yap/Private/Yap/Nodes/FlowNode_YapDialogue.cpp:334-345 | running a prompt counts one node activation whatever happens |
| `DialogueSpec.OnPassThroughSpec` | Source/Yap/Private/Yap/Nodes/FlowNode_YapDialogue.cpp:214-224 | passing through fires Bypass on a prompt node and Out on a talk node, as a pass-through output |
| `DialogueSpec.SkipCurrentSpec` | Source/Yap/Private/Yap/Nodes/FlowNode_YapDialogue.cpp:83-108 | a skip succeeds iff CanSkipCurrentFragment holds; a refused skip changes nothing |
| `DialogueSpec.TickSpec` | Source/Yap/Private/Yap/Nodes/FlowNode_YapDialogue.cpp:405-452 | time passing moves the clock, counts pending timers down without firing them, and changes nothing else |
| `DialogueSpec.CycleSpec` | Source/Yap/Private/Yap/Nodes/FlowNode_YapDialogue.cpp:721-731 | cycling steps the sequencing value by one modulo the mode count |
| `DialogueSpec.ToggleSpec` | Source/Yap/Private/Yap/Nodes/FlowNode_YapDialogue.cpp:841-851 | toggling steps the node-type value by one modulo the type count |
| `DialogueSpec.ReindexSpec` | Source/Yap/Private/Yap/Nodes/FlowNode_YapDialogue.cpp:755-761 | every fragment is stamped with its position, truncated to uint8 |
| `DialogueSpec.SwapAt` | Source/Yap/Private/Yap/Nodes/FlowNode_YapDialogue.cpp:767-774 | Swap exchanges the two entries and keeps all others |
| `DialogueSpec.RemoveAt` | Source/Yap/Private/Yap/Nodes/FlowNode_YapDialogue.cpp:737-749 | RemoveAt drops the one entry and shifts the rest down, in order |
| `DialogueSpec.SetNodeActivationLimitSpec` | Source/Yap/Private/Yap/Nodes/FlowNode_YapDialogue.cpp:705-715 | the limit is stored, and a rebuild is requested iff the bypass pin's presence changes |
| `DialogueSpec.ReGuidSpec` | Source/Yap/Private/Yap/Nodes/FlowNode_YapDialogue.cpp:875-884 | every imported fragment gets its own fresh guid and loses its optional pins |
| `DialogueSpec.PostEditImportSpec` | Source/Yap/Private/Yap/Nodes/FlowNode_YapDialogue.cpp:875-884 | importing draws exactly one new guid per fragment |
| `DialogueSpec.InvalidateTagsSpec` | Source/Yap/Private/Yap/Nodes/FlowNode_YapDialogue.cpp:280-288 | every fragment's tag is cleared and nothing else changes |
| `DialogueSpec.FragmentContextPins` | Source/Yap/Private/Yap/Nodes/FlowNode_YapDialogue.cpp:664-699 | a fragment contributes its prompt, end and start pins as enabled, and naming them changes nothing authored |
| `DialogueSpec.ContextPinsUpTo` | Source/Yap/Private/Yap/Nodes/FlowNode_YapDialogue.cpp:664-699 | collecting pins only touches the fragments already visited |
| `DialogueSpec.InitialState` | Source/Yap/Private/Yap/Nodes/FlowNode_YapDialogue.cpp:22-51 | a new node satisfies the node invariant and holds exactly one fragment, with a freshly drawn guid |
| `YapDialogueNode.DialogueNode.constructor` | Source/Yap/Private/Yap/Nodes/FlowNode_YapDialogue.cpp:22-51 | the constructed node is a talk node, unlimited, RunAll, with one fresh fragment and nothing running |
| `YapDialogueNode.DialogueNode.TriggerOutput` | Source/Yap/Private/Yap/Nodes/FlowNode_YapDialogue.cpp:206 | triggering a pin appends exactly that output to the event log |
| `YapDialogueNode.DialogueNode.CheckConditions` | Source/Yap/Private/Yap/Nodes/FlowNode_YapDialogue.cpp:228-245 | the node passes iff no non-null condition fails |
| `YapDialogueNode.DialogueNode.ActivationLimitsMet` | Source/Yap/Private/Yap/Nodes/FlowNode_YapDialogue.cpp:818-837 | limits are met iff a positive node limit is reached or every fragment has a nonzero limit it has reached |
| `YapDialogueNode.DialogueNode.IsBypassPinRequired` | Source/Yap/Private/Yap/Nodes/FlowNode_YapDialogue.cpp:530-548 | the bypass pin is required iff the node has conditions, or a positive node limit, or every fragment has conditions or a non-zero limit; the node type plays no part |
| `YapDialogueNode.DialogueNode.FindFragmentIndex` | Source/Yap/Private/Yap/Nodes/FlowNode_YapDialogue.cpp:55-66 | returns the first index holding the guid, or INDEX_NONE iff no fragment has it |
| `YapDialogueNode.DialogueNode.FindTaggedFragment` | Source/Yap/Private/Yap/Nodes/FlowNode_YapDialogue.cpp:70-81 | returns the first fragment carrying the tag, or nothing iff none does |
| `YapDialogueNode.DialogueNode.CanSkipCurrentFragment` | Source/Yap/Private/Yap/Nodes/FlowNode_YapDialogue.cpp:110-166 | the answer is CanSkipSpec: nothing running or awaiting manual advance decide first, then the unskippable-with-timer, time-remaining and time-elapsed guards |
| `YapDialogueNode.DialogueNode.ExecuteInput` | Source/Yap/Private/Yap/Nodes/FlowNode_YapDialogue.cpp:188-210 | entering the node produces exactly ExecuteInputSpec: Bypass when gated, otherwise the prompt protocol or the talk scan |
| `YapDialogueNode.DialogueNode.OnPassThrough` | Source/Yap/Private/Yap/Nodes/FlowNode_YapDialogue.cpp:214-224 | pass-through produces exactly OnPassThroughSpec |
| `YapDialogueNode.DialogueNode.TryBroadcastFragment` | Source/Yap/Private/Yap/Nodes/FlowNode_YapDialogue.cpp:552-571 | the gate and broadcast produce exactly TryBroadcastSpec |
| `YapDialogueNode.DialogueNode.RunFragment` | Source/Yap/Private/Yap/Nodes/FlowNode_YapDialogue.cpp:372-415 | running a fragment produces exactly RunFragmentSpec (see RunFragmentRuns and RunFragmentFails) |
| `YapDialogueNode.DialogueNode.OnSpeakingComplete` | Source/Yap/Private/Yap/Nodes/FlowNode_YapDialogue.cpp:419-454 | the end of speech produces exactly OnSpeakingCompleteSpec (see SpeakingCompleteOrder) |
| `YapDialogueNode.DialogueNode.StartPadding` | Source/Yap/Private/Yap/Nodes/FlowNode_YapDialogue.cpp:444-451 | the padding step produces exactly StartPaddingSpec: a positive padding arms its timer, otherwise padding completes at once |
| `YapDialogueNode.DialogueNode.OnPaddingComplete` | Source/Yap/Private/Yap/Nodes/FlowNode_YapDialogue.cpp:458-484 | the end of padding produces exactly OnPaddingCompleteSpec (see PaddingCompleteOutcome) |
| `YapDialogueNode.DialogueNode.EndPadding` | Source/Yap/Private/Yap/Nodes/FlowNode_YapDialogue.cpp:460-472 | the finished index is the running index truncated to uint8, and the new state is exactly EndPaddingSpec |
| `YapDialogueNode.DialogueNode.AdvanceFromFragment` | Source/Yap/Private/Yap/Nodes/FlowNode_YapDialogue.cpp:488-526 | advancing produces exactly AdvanceFromFragmentSpec (see AdvancePolicies) |
| `YapDialogueNode.DialogueNode.RunLaterFragments` | Source/Yap/Private/Yap/Nodes/FlowNode_YapDialogue.cpp:505-523 | the loop over later fragments produces exactly ScanSpec (see ScanSkipsFailures and ScanStopsAtFailure) |
| `YapDialogueNode.DialogueNode.FindStartingFragment` | Source/Yap/Private/Yap/Nodes/FlowNode_YapDialogue.cpp:349-368 | the starting scan produces exactly FindStartingFragmentSpec (see StartScanRunsFirstEligible) |
| `YapDialogueNode.DialogueNode.OfferEligibleFragments` | Source/Yap/Private/Yap/Nodes/FlowNode_YapDialogue.cpp:297-318 | the offering loop broadcasts one prompt per eligible fragment, in index order, and collects exactly those indices |
| `YapDialogueNode.DialogueNode.BroadcastPrompts` | Source/Yap/Private/Yap/Nodes/FlowNode_YapDialogue.cpp:293-330 | broadcasting prompts produces exactly BroadcastPromptsSpec (see BroadcastPromptsOutcome) |
| `YapDialogueNode.DialogueNode.RunPrompt` | Source/Yap/Private/Yap/Nodes/FlowNode_YapDialogue.cpp:334-345 | running a chosen prompt produces exactly RunPromptSpec |
| `YapDialogueNode.DialogueNode.SkipCurrent` | Source/Yap/Private/Yap/Nodes/FlowNode_YapDialogue.cpp:83-108 | a skip produces exactly SkipCurrentSpec |
| `YapDialogueNode.DialogueNode.Tick` | Source/Yap/Private/Yap/Nodes/FlowNode_YapDialogue.cpp:405-452 | time passing produces exactly TickSpec |
| `YapDialogueNode.DialogueNode.FireFragmentTimer` | Source/Yap/Private/Yap/Nodes/FlowNode_YapDialogue.cpp:419-428 | the speech timer coming due runs OnSpeakingComplete with the timer still in place, whose TimerExists test then clears the timer and its handle (see SpeechTimerFireClearsHandles) |
| `YapDialogueNode.DialogueNode.FirePaddingTimer` | Source/Yap/Private/Yap/Nodes/FlowNode_YapDialogue.cpp:458-468 | the padding timer coming due runs OnPaddingComplete with the timer still in place, which clears the timer and its handle (see PaddingTimerFireClearsHandles) |
| `YapDialogueNode.DialogueNode.UpdateFragmentIndices` | Source/Yap/Private/Yap/Nodes/FlowNode_YapDialogue.cpp:755-761 | renumbering stamps each fragment with its position and changes nothing else |
| `YapDialogueNode.DialogueNode.SwapFragments` | Source/Yap/Private/Yap/Nodes/FlowNode_YapDialogue.cpp:767-774 | swapping produces exactly SwapFragmentsSpec (see SwapMovesOnlyTwo) |
| `YapDialogueNode.DialogueNode.DeleteFragmentByIndex` | Source/Yap/Private/Yap/Nodes/FlowNode_YapDialogue.cpp:737-749 | deleting produces exactly DeleteFragmentSpec (see DeleteRemovesOne) |
| `YapDialogueNode.DialogueNode.SetNodeActivationLimit` | Source/Yap/Private/Yap/Nodes/FlowNode_YapDialogue.cpp:705-715 | setting the limit produces exactly SetNodeActivationLimitSpec |
| `YapDialogueNode.DialogueNode.CycleFragmentSequencingMode` | Source/Yap/Private/Yap/Nodes/FlowNode_YapDialogue.cpp:721-731 | only the sequencing mode changes, to the next one |
| `YapDialogueNode.DialogueNode.ToggleNodeType` | Source/Yap/Private/Yap/Nodes/FlowNode_YapDialogue.cpp:841-851 | only the node type changes, to the other one |
| `YapDialogueNode.DialogueNode.InvalidateFragmentTags` | Source/Yap/Private/Yap/Nodes/FlowNode_YapDialogue.cpp:280-288 | only the fragment tags change, all cleared |
| `YapDialogueNode.DialogueNode.PostEditImport` | Source/Yap/Private/Yap/Nodes/FlowNode_YapDialogue.cpp:875-884 | importing produces exactly PostEditImportSpec |
| `YapDialogueNode.DialogueNode.FragmentPins` | Source/Yap/Private/Yap/Nodes/FlowNode_YapDialogue.cpp:675-689 | one fragment's pins are gathered, and only that fragment is updated |
| `YapDialogueNode.DialogueNode.CollectFragmentPins` | Source/Yap/Private/Yap/Nodes/FlowNode_YapDialogue.cpp:672-690 | the loop over fragments gathers the pins ContextPinsUpTo describes |
| `YapDialogueNode.DialogueNode.GetContextOutputs` | Source/Yap/Private/Yap/Nodes/FlowNode_YapDialogue.cpp:664-699 | the output pins are exactly ContextOutputsSpec (see ContextOutputsLayout) |
| `DialogueInvariants.ActivateEvolves` | Source/Yap/Private/Yap/Nodes/FlowNode_YapDialogue.cpp:385-414 | activating an eligible fragment keeps the playback invariants and leaves a valid running index |
| `DialogueInvariants.FireStartPinEvolves` | Source/Yap/Private/Yap/Nodes/FlowNode_YapDialogue.cpp:387-391 | firing the start pin keeps the playback invariants |
| `DialogueInvariants.RunFragmentEvolves` | Source/Yap/Private/Yap/Nodes/FlowNode_YapDialogue.cpp:372-415 | RunFragment keeps the playback invariants, whatever the index |
| `DialogueInvariants.ScanEvolves` | Source/Yap/Private/Yap/Nodes/FlowNode_YapDialogue.cpp:501-525 | the advance scan keeps the playback invariants |
| `DialogueInvariants.ScanKeepsEvolving` | Source/Yap/Private/Yap/Nodes/FlowNode_YapDialogue.cpp:505-523 | every step of the advance scan keeps the playback invariants |
| `DialogueInvariants.ScanKeepsRunningOk` | Source/Yap/Private/Yap/Nodes/FlowNode_YapDialogue.cpp:505-523 | the advance scan never leaves an invalid running index behind |
| `DialogueInvariants.StartScanEvolves` | Source/Yap/Private/Yap/Nodes/FlowNode_YapDialogue.cpp:349-368 | the starting scan keeps the playback invariants |
| `DialogueInvariants.AdvanceEvolves` | Source/Yap/Private/Yap/Nodes/FlowNode_YapDialogue.cpp:488-526 | advancing keeps the playback invariants |
| `DialogueInvariants.FirePromptPinEvolves` | Source/Yap/Private/Yap/Nodes/FlowNode_YapDialogue.cpp:493-496 | firing a prompt pin keeps the playback invariants and the running index valid |
| `DialogueInvariants.OnPaddingCompleteEvolves` | Source/Yap/Private/Yap/Nodes/FlowNode_YapDialogue.cpp:458-484 | the end of padding keeps the invariants and always leaves the running index INDEX_NONE or valid |
| `DialogueInvariants.FireEndPinEvolves` | Source/Yap/Private/Yap/Nodes/FlowNode_YapDialogue.cpp:433-438 | firing the end pin keeps the playback invariants |
| `DialogueInvariants.StartPaddingEvolves` | Source/Yap/Private/Yap/Nodes/FlowNode_YapDialogue.cpp:440-453 | starting padding keeps the playback invariants |
| `DialogueInvariants.OnSpeakingCompleteEvolves` | Source/Yap/Private/Yap/Nodes/FlowNode_YapDialogue.cpp:419-454 | the end of speech keeps the playback invariants |
| `DialogueInvariants.RunPromptEvolves` | Source/Yap/Private/Yap/Nodes/FlowNode_YapDialogue.cpp:334-345 | running a prompt keeps the playback invariants |
| `DialogueInvariants.BroadcastPromptsEvolves` | Source/Yap/Private/Yap/Nodes/FlowNode_YapDialogue.cpp:293-330 | broadcasting prompts keeps the playback invariants |
| `DialogueInvariants.ExecuteInputEvolves` | Source/Yap/Private/Yap/Nodes/FlowNode_YapDialogue.cpp:188-210 | entering the node keeps the playback invariants on every route |
| `DialogueInvariants.SkipCurrentEvolves` | Source/Yap/Private/Yap/Nodes/FlowNode_YapDialogue.cpp:83-108 | a skip keeps the invariants and leaves the running index valid |
| `DialogueInvariants.SkipPhasesEvolves` | Source/Yap/Private/Yap/Nodes/FlowNode_YapDialogue.cpp:83-108 | cutting speech and padding short keeps the invariants and the running index valid |
| `DialogueInvariants.FireTimersEvolve` | Source/Yap/Private/Yap/Nodes/FlowNode_YapDialogue.cpp:419-484 | a timer coming due keeps the playback invariants and leaves the running index INDEX_NONE or valid |
| `DialogueInvariants.PlaybackKeepsInv` | Source/Yap/Private/Yap/Nodes/FlowNode_YapDialogue.cpp:57 | no playback step adds or removes fragments, so the uint8 fragment bound and the running-index invariant hold throughout |
| `DialogueProperties.FirstEligible` | Source/Yap/Private/Yap/Nodes/FlowNode_YapDialogue.cpp:353-364 | the reference definition: the first fragment at or after a position whose conditions pass and whose limit is unmet |
| `DialogueProperties.StartEvents` | Source/Yap/Private/Yap/Nodes/FlowNode_YapDialogue.cpp:385-405 | a fragment's start is announced first by the dialogue-start broadcast, then only non-finishing pin outputs follow |
| `DialogueProperties.FirstEligibleFromSuffix` | Source/Yap/Private/Yap/Nodes/FlowNode_YapDialogue.cpp:353-364 | the first eligible fragment depends only on eligibility from that position on |
| `DialogueProperties.RunFragmentFails` | Source/Yap/Private/Yap/Nodes/FlowNode_YapDialogue.cpp:372-384 | an invalid index only logs an error; an ineligible fragment only gets start time -1 and the Failed entry state; nothing counts |
| `DialogueProperties.RunFragmentRuns` | Source/Yap/Private/Yap/Nodes/FlowNode_YapDialogue.cpp:372-415 | success counts that fragment once, stamps its start time, announces it, fires its start pin if enabled, arms the speech timer iff it has a time, makes it the running one and leaves the others alone |
| `DialogueProperties.StartScanRunsFirstEligible` | Source/Yap/Private/Yap/Nodes/FlowNode_YapDialogue.cpp:349-368 | the first eligible fragment runs and the node counts one activation; with none, Bypass fires and nothing is counted |
| `DialogueProperties.StartScanFinds` | Source/Yap/Private/Yap/Nodes/FlowNode_YapDialogue.cpp:349-368 | with an eligible fragment ahead, the scan runs the first one, counts it and the node once, and logs only its start |
| `DialogueProperties.StartScanFindsNone` | Source/Yap/Private/Yap/Nodes/FlowNode_YapDialogue.cpp:349-368 | with no eligible fragment ahead, the scan fires Bypass only, counts nothing and runs nothing |
| `DialogueProperties.StartScanHits` | Source/Yap/Private/Yap/Nodes/FlowNode_YapDialogue.cpp:353-364 | the scan stops at an eligible fragment, runs it and counts one node activation |
| `DialogueProperties.ScanSkipsFailures` | Source/Yap/Private/Yap/Nodes/FlowNode_YapDialogue.cpp:501-525 | RunAll runs the first eligible later fragment, or fires Out when there is none |
| `DialogueProperties.ScanStopsAtFailure` | Source/Yap/Private/Yap/Nodes/FlowNode_YapDialogue.cpp:501-525 | RunUntilFailure runs the next fragment or fires Out at its first failure |
| `DialogueProperties.AdvancePolicies` | Source/Yap/Private/Yap/Nodes/FlowNode_YapDialogue.cpp:488-526 | a prompt node fires the fragment's prompt pin; SelectOne fires Out; RunUntilFailure and RunAll move to a later fragment or fire Out |
| `DialogueProperties.SpeechEndEvents` | Source/Yap/Private/Yap/Nodes/FlowNode_YapDialogue.cpp:429-438 | the end of speech is announced, then the end pin fires iff it is enabled |
| `DialogueProperties.PaddingCompleteOutcome` | Source/Yap/Private/Yap/Nodes/FlowNode_YapDialogue.cpp:458-484 | padding ends with its broadcast first; a truncated INDEX_NONE faults; a manual-advance fragment waits with nothing running |
| `DialogueProperties.SpeakingCompleteOrder` | Source/Yap/Private/Yap/Nodes/FlowNode_YapDialogue.cpp:419-454 | speech end, then the end pin, then padding: a positive padding arms its timer and keeps the fragment running; otherwise padding ends at once |
| `DialogueProperties.SpeechEndedFacts` | Source/Yap/Private/Yap/Nodes/FlowNode_YapDialogue.cpp:419-442 | before padding, the end of speech only clears the speech timer and logs the end events; the end time is stamped after padding starts |
| `DialogueProperties.SpeakingCompleteArmsPadding` | Source/Yap/Private/Yap/Nodes/FlowNode_YapDialogue.cpp:444-447 | a positive padding arms a padding timer of that length and the fragment stays running |
| `DialogueProperties.SpeakingCompleteEndsPadding` | Source/Yap/Private/Yap/Nodes/FlowNode_YapDialogue.cpp:448-451 | no padding ends the fragment at once: the padding-over broadcast follows the end events, and nothing or a later fragment runs |
| `DialogueProperties.EligibleUpToExact` | Source/Yap/Private/Yap/Nodes/FlowNode_YapDialogue.cpp:297-318 | the offered indices are exactly the eligible fragments, in ascending order |
| `DialogueProperties.PromptEventsContents` | Source/Yap/Private/Yap/Nodes/FlowNode_YapDialogue.cpp:297-318 | the j-th prompt broadcast names the j-th offered fragment |
| `DialogueProperties.RunPromptRuns` | Source/Yap/Private/Yap/Nodes/FlowNode_YapDialogue.cpp:334-345 | a chosen eligible prompt runs and counts one node activation |
| `DialogueProperties.RunPromptCountsFailures` | Source/Yap/Private/Yap/Nodes/FlowNode_YapDialogue.cpp:334-345 | a chosen prompt that fails still counts a node activation, then fires Bypass |
| `DialogueProperties.BroadcastPromptsOutcome` | Source/Yap/Private/Yap/Nodes/FlowNode_YapDialogue.cpp:293-330 | no eligible prompt fires Bypass; a lone one auto-runs when the project says so; otherwise the node waits with only the offers logged |
| `DialogueProperties.ExecuteInputBypass` | Source/Yap/Private/Yap/Nodes/FlowNode_YapDialogue.cpp:188-200 | failing conditions or met limits fire Bypass and change nothing else |
| `DialogueProperties.ExecuteInputCountsAtMostOnce` | Source/Yap/Private/Yap/Nodes/FlowNode_YapDialogue.cpp:188-210 | one entry counts the node at most once |
| `DialogueProperties.NodeLimitNeverExceeded` | Source/Yap/Private/Yap/Nodes/FlowNode_YapDialogue.cpp:818-837 | a positive node limit is never exceeded by an entry |
| `DialogueProperties.BypassNotRequiredGates` | Source/Yap/Private/Yap/Nodes/FlowNode_YapDialogue.cpp:530-548 | without a bypass pin the gates pass and some fragment is eligible |
| `DialogueProperties.PromptEventsAreOffers` | Source/Yap/Private/Yap/Nodes/FlowNode_YapDialogue.cpp:297-318 | offering prompts never fires Bypass |
| `DialogueProperties.PromptsWithOfferAvoidBypass` | Source/Yap/Private/Yap/Nodes/FlowNode_YapDialogue.cpp:293-330 | a prompt node with an eligible fragment never fires Bypass |
| `DialogueProperties.TalkWithEligibleAvoidsBypass` | Source/Yap/Private/Yap/Nodes/FlowNode_YapDialogue.cpp:349-368 | a talk node with an eligible fragment never fires Bypass |
| `DialogueProperties.BypassOnlyWhenRequired` | Source/Yap/Private/Yap/Nodes/FlowNode_YapDialogue.cpp:188-210 | on entry, a node whose bypass pin is not required never leaves through Bypass |
| `DialogueProperties.SkipWithoutTimersSucceeds` | Source/Yap/Private/Yap/Nodes/FlowNode_YapDialogue.cpp:83-108 | a permitted skip with no timer and no manual wait succeeds and changes nothing |
| `DialogueProperties.SkipDuringSpeechEndsPadding` | Source/Yap/Private/Yap/Nodes/FlowNode_YapDialogue.cpp:83-108 | a skip during speech ends speech and then padding, in that order |
| `DialogueProperties.AwaitingManualAdvanceIsNotSkippable` | Source/Yap/Private/Yap/Nodes/FlowNode_YapDialogue.cpp:110-120 | a fragment waiting for manual advance cannot be skipped, because nothing is running any more |
| `DialogueProperties.SkipIntoManualAdvanceFaults` | Source/Yap/Private/Yap/Nodes/FlowNode_YapDialogue.cpp:96-104 | a skip during the padding of a manual-advance fragment ends the padding, then advances from index 255, which faults |
| `DialogueProperties.SkipDuringSpeechIntoManualAdvanceFaults` | Source/Yap/Private/Yap/Nodes/FlowNode_YapDialogue.cpp:83-105 | a skip during the speech of a manual-advance fragment with no padding ends the speech, and the padding completes inside `OnSpeakingComplete` (cpp:419-456, 458-484), leaving INDEX_NONE running and the node waiting; `SkipCurrent` then advances from 255, which faults |
| `DialogueProperties.SkipExtendsSpeechEnd` | Source/Yap/Private/Yap/Nodes/FlowNode_YapDialogue.cpp:90-95 | a skip during speech begins with the end-of-speech events |
| `DialogueProperties.ScanTimers` | Source/Yap/Private/Yap/Nodes/FlowNode_YapDialogue.cpp:505-523 | the advance scan never touches the padding timer, and changes the speech timer only for a fragment it starts |
| `DialogueProperties.AdvanceTimers` | Source/Yap/Private/Yap/Nodes/FlowNode_YapDialogue.cpp:488-526 | advancing never touches the padding timer, and changes the speech timer only for a later fragment that starts |
| `DialogueProperties.PaddingCompleteTimers` | Source/Yap/Private/Yap/Nodes/FlowNode_YapDialogue.cpp:458-484 | the end of padding always leaves the padding handle cleared, and the speech handle as it was unless a later fragment started |
| `DialogueProperties.SpeechTimerFireClearsHandles` | Source/Yap/Private/Yap/Nodes/FlowNode_YapDialogue.cpp:419-454 | after the speech timer comes due its handle is cleared; positive padding arms a fresh padding timer, otherwise the padding handle is cleared and a set speech handle belongs to a later fragment |
| `DialogueProperties.PaddingTimerFireClearsHandles` | Source/Yap/Private/Yap/Nodes/FlowNode_YapDialogue.cpp:458-484 | after the padding timer comes due its handle is cleared, and a set speech handle belongs to a later fragment |
| `DialogueProperties.ExhaustedVersusLimitMet` | Source/Yap/Private/Yap/Nodes/FlowNode_YapDialogue.cpp:818-837 | the node's exhausted test agrees with IsActivationLimitMet for non-negative limits and disagrees for negative ones |
| `DialogueCorrections.NegativeLimitsBypassPlayableFragment` | Source/Yap/Private/Yap/Nodes/FlowNode_YapDialogue.cpp:818-837 | as written, fragments with negative (unlimited) limits make the node leave through Bypass on entry, although one of them is eligible and would run |
| `DialogueCorrections.LimitsMetOnlyWhenNothingCanRun` | Source/Yap/Private/Yap/Nodes/FlowNode_YapDialogue.cpp:818-837 | corrected: with the fragment's own limit test the node reports its limits met only when its own limit is reached or no fragment can run; an unlimited fragment keeps it open |
| `DialogueCorrections.SkipIntoManualAdvanceMovesOn` | Source/Yap/Private/Yap/Nodes/FlowNode_YapDialogue.cpp:83-105 | corrected: a skip during the padding of a manual-advance fragment announces the end of its padding and then advances from that fragment, keeping the playback invariants |
| `DialogueCorrections.SkipDuringSpeechIntoManualAdvanceMovesOn` | Source/Yap/Private/Yap/Nodes/FlowNode_YapDialogue.cpp:83-105 | corrected: a skip during the speech of a manual-advance fragment with no padding announces the end of its speech and of its padding, then advances from that fragment, keeping the playback invariants |
| `DialogueCorrections.SkipCurrentKeepingIndexSpec` | Source/Yap/Private/Yap/Nodes/FlowNode_YapDialogue.cpp:83-108 | corrected: a refused skip changes nothing, and the answer is CanSkipSpec |
| `DialogueCorrections.RunPromptCountsOnlyRuns` | Source/Yap/Private/Yap/Nodes/FlowNode_YapDialogue.cpp:334-345 | corrected: the node counts an activation exactly when the chosen fragment counts one; a choice that does not run leaves the count alone and leaves through Bypass |
| `DialogueCorrections.DeleteCheckedNeverFaults` | Source/Yap/Private/Yap/Nodes/FlowNode_YapDialogue.cpp:737-749 | corrected: a bad index is only reported, a valid one removes exactly that fragment and renumbers the rest; no out-of-range access occurs |
| `DialogueProperties.CycleVisitsAllModes` | Source/Yap/Private/Yap/Nodes/FlowNode_YapDialogue.cpp:721-731 | cycling goes RunAll, RunUntilFailure, SelectOne and back, period three |
| `DialogueProperties.ToggleAlternates` | Source/Yap/Private/Yap/Nodes/FlowNode_YapDialogue.cpp:841-851 | toggling flips prompt and talk, and twice restores the type |
| `DialogueProperties.SwapMovesOnlyTwo` | Source/Yap/Private/Yap/Nodes/FlowNode_YapDialogue.cpp:767-774 | a valid swap exchanges the two fragments, renumbers all and requests a rebuild |
| `DialogueProperties.SwapTwiceRestoresOrder` | Source/Yap/Private/Yap/Nodes/FlowNode_YapDialogue.cpp:767-774 | swapping twice restores the original order |
| `DialogueProperties.SwapBadIndexFaults` | Source/Yap/Private/Yap/Nodes/FlowNode_YapDialogue.cpp:769 | an out-of-range swap faults and changes no fragment |
| `DialogueProperties.DeleteRemovesOne` | Source/Yap/Private/Yap/Nodes/FlowNode_YapDialogue.cpp:737-749 | a valid delete removes exactly that fragment, keeps the order of the rest and renumbers them |
| `DialogueProperties.DeleteBadIndexFaults` | Source/Yap/Private/Yap/Nodes/FlowNode_YapDialogue.cpp:739-744 | an invalid index is logged and still handed to RemoveAt, which faults; the fragments do not change |
| `DialogueProperties.ReindexNumbersPositions` | Source/Yap/Private/Yap/Nodes/FlowNode_YapDialogue.cpp:755-761 | after renumbering each fragment's index is its position and nothing authored changes |
| `DialogueProperties.ContextOutputsLayout` | Source/Yap/Private/Yap/Nodes/FlowNode_YapDialogue.cpp:664-699 | the base pins come first, Out follows on talk nodes, Bypass comes last when required, and no fragment's authored data changes |
| `DialogueProperties.ContextPinsKeepAuthoring` | Source/Yap/Private/Yap/Nodes/FlowNode_YapDialogue.cpp:672-690 | gathering the fragment pins changes nothing authored on any fragment |
| `DialogueProperties.InitialStateDefaults` | Source/Yap/Private/Yap/Nodes/FlowNode_YapDialogue.cpp:22-51 | a new node is a RunAll talk node with one unplayed fragment, nothing running, no timers, no limits met and no bypass pin |
| `YapSubsystem.StartActiveConversation` | Source/Yap/Private/Yap/YapSubsystem.cpp:25-45 | starting succeeds iff no conversation is under way and the name is set; success records asset and name, refusal changes nothing |
| `YapSubsystem.EndActiveConversation` | Source/Yap/Private/Yap/YapSubsystem.cpp:47-60 | ending succeeds iff a conversation is under way and then clears asset and name; otherwise nothing changes |
| `YapSubsystem.StartThenEndRestoresInitial` | Source/Yap/Private/Yap/YapSubsystem.cpp:19-60 | start followed by end brings the active conversation back to its initial empty state |
| `YapSubsystem.SecondStartRefused` | Source/Yap/Private/Yap/YapSubsystem.cpp:27-31 | a second start is refused until the first conversation ends |
| `YapSubsystem.ConversationStaysValid` | Source/Yap/Private/Yap/YapSubsystem.cpp:19-60 | the asset is only ever set while a conversation is under way |
| `YapSubsystem.ConversationNameFor` | Source/Yap/Private/Yap/YapSubsystem.cpp:149-154 | a broadcast carries the conversation's name only for a dialogue of the active conversation's flow asset |
| `YapSubsystem.FinishedPromptsName` | Source/Yap/Private/Yap/YapSubsystem.cpp:161-167 | the all-prompts-added broadcast carries the running conversation's name, empty iff none runs |
| `YapSubsystem.PromptNamesDisagreeAcrossAssets` | Source/Yap/Private/Yap/YapSubsystem.cpp:143-167 | a prompt of another asset is offered under the empty name, yet the all-added broadcast after it carries the running name |
| `YapSubsystem.PromptNamesAgreeOnOwnAsset` | Source/Yap/Private/Yap/YapSubsystem.cpp:143-167 | for a dialogue of the active asset, or with nothing running, both broadcasts carry the same name |
| `YapSubsystem.FinishedPromptsNameFor` | Source/Yap/Private/Yap/YapSubsystem.cpp:161-167 | corrected: the all-added broadcast names the running conversation exactly when one is in progress for this dialogue's flow asset |
| `YapSubsystem.PromptRoundNamesAgree` | Source/Yap/Private/Yap/YapSubsystem.cpp:143-167 | corrected: under one naming rule, the offers and the all-added broadcast of a prompt round name the same conversation for every asset |
| `YapSubsystem.AddUnique` | Source/Yap/Private/Yap/YapSubsystem.cpp:72 | AddUnique appends the element only if absent, adding exactly it |
| `YapSubsystem.RemoveAll` | Source/Yap/Private/Yap/YapSubsystem.cpp:82 | Remove drops every occurrence of the element and keeps every other element |
| `YapSubsystem.ListenersStayDistinct` | Source/Yap/Private/Yap/YapSubsystem.cpp:68-83 | registering and unregistering never leaves a listener in the list twice |
| `YapSubsystem.AddUniqueThenRemove` | Source/Yap/Private/Yap/YapSubsystem.cpp:68-83 | registering then unregistering a listener is the same as only unregistering it |
| `YapSubsystem.RegisterFirst` | Source/Yap/Private/Yap/YapSubsystem.cpp:97-106 | a tag's first registration is kept and a duplicate leaves the map unchanged |
| `YapSubsystem.RegisterFirstWins` | Source/Yap/Private/Yap/YapSubsystem.cpp:97-106 | whatever is registered later under a tag, the first node stays |
| `YapSubsystem.RegisterComponent` | Source/Yap/Private/Yap/YapSubsystem.cpp:214-227 | a component is accepted iff its actor has none yet; acceptance maps the tag to it and records the actor |
| `YapSubsystem.OneComponentPerActor` | Source/Yap/Private/Yap/YapSubsystem.cpp:214-227 | a second component on the same actor is ignored |
| `YapSubsystem.LookupCharacter` | Source/Yap/Private/Yap/YapSubsystem.cpp:85-95 | the component under the tag is returned iff it is registered and still alive |
| `YapSubsystem.RegisteredCharacterFound` | Source/Yap/Private/Yap/YapSubsystem.cpp:85-95 | a freshly registered component is found under its tag while it lives, and not after |
| `YapSubsystem.DoesSupportWorldType` | Source/Yap/Private/Yap/YapSubsystem.cpp:266-269 | the subsystem exists only in game, PIE and game-preview worlds |
| `YapSubsystem.Subsystem.constructor` | Source/Yap/Private/Yap/YapSubsystem.cpp:19-23 | a new subsystem has no conversation, empty registries and no listeners |
| `YapSubsystem.Subsystem.RegisterConversationListener` | Source/Yap/Private/Yap/YapSubsystem.cpp:68-78 | a listener implementing the interface is added once; any other object only logs an error |
| `YapSubsystem.Subsystem.UnregisterConversationListener` | Source/Yap/Private/Yap/YapSubsystem.cpp:80-83 | the listener is removed everywhere and the list stays duplicate-free |
| `YapSubsystem.Subsystem.GetYapCharacter` | Source/Yap/Private/Yap/YapSubsystem.cpp:85-95 | returns exactly LookupCharacter: the registered component if it is alive, null otherwise |
| `YapSubsystem.Subsystem.RegisterTaggedFragment` | Source/Yap/Private/Yap/YapSubsystem.cpp:97-106 | the first node under a tag is kept; a duplicate only logs a warning |
| `YapSubsystem.Subsystem.FindTaggedFragment` | Source/Yap/Private/Yap/YapSubsystem.cpp:108-118 | an unregistered tag gives null; otherwise the registered node's first fragment with the tag, or null if it has none |
| `YapSubsystem.Subsystem.StartConversation` | Source/Yap/Private/Yap/YapSubsystem.cpp:120-123 | start as StartActiveConversation, with the conversation-begins broadcast iff it succeeds |
| `YapSubsystem.Subsystem.EndCurrentConversation` | Source/Yap/Private/Yap/YapSubsystem.cpp:125-141 | end as EndActiveConversation, with the conversation-ends broadcast naming the ended conversation iff one was under way |
| `YapSubsystem.Subsystem.BroadcastPrompt` | Source/Yap/Private/Yap/YapSubsystem.cpp:143-159 | one prompt offer under the asset-checked conversation name, with a handle for that node and fragment |
| `YapSubsystem.Subsystem.OnFinishedBroadcastingPrompts` | Source/Yap/Private/Yap/YapSubsystem.cpp:161-167 | one all-added broadcast under FinishedPromptsName |
| `YapSubsystem.Subsystem.BroadcastDialogueStart` | Source/Yap/Private/Yap/YapSubsystem.cpp:169-190 | dialogue begins under the asset-checked name, with a fresh handle whose skippable flag is the bit's override, else the node's setting |
| `YapSubsystem.Subsystem.BroadcastDialogueEnd` | Source/Yap/Private/Yap/YapSubsystem.cpp:192-207 | dialogue ends under the asset-checked name, with a fresh handle that is never skippable |
| `YapSubsystem.Subsystem.RegisterCharacterComponent` | Source/Yap/Private/Yap/YapSubsystem.cpp:214-227 | registration as RegisterComponent, logging an error when the actor already has a component |
| `YapSubsystem.Subsystem.UnregisterCharacterComponent` | Source/Yap/Private/Yap/YapSubsystem.cpp:229-233 | only an "unimplemented" error is logged; nothing is unregistered |
| `YapSubsystem.DialogueStartAndEndHandlesDiffer` | Source/Yap/Private/Yap/YapSubsystem.cpp:169-207 | the start and end broadcasts of one fragment carry different handles, the end one unskippable |
| `FragmentWidget.ShiftVisibleIffNeighbourInRange` | Source/YapEditor/Private/YapEditor/NodeWidgets/SFlowGraphNode_YapFragmentWidget.cpp:151-173 | a shift button is shown iff the neighbour it would swap with exists |
| `FragmentWidget.VisibleShiftSwapsNeighbours` | Source/YapEditor/Private/YapEditor/NodeWidgets/SFlowGraphNode_YapFragmentWidget.cpp:151-173 | clicking a shown shift button swaps the fragment with its neighbour without any out-of-range access |
| `FragmentWidget.HiddenUpShiftWouldFault` | Source/YapEditor/Private/YapEditor/NodeWidgets/SFlowGraphNode_YapFragmentWidget.cpp:151-173 | the hidden "up" button on the first fragment would ask for fragment 255 and fault |
| `FragmentWidget.RunningIndicatorFollowsTimes` | Source/YapEditor/Private/YapEditor/NodeWidgets/SFlowGraphNode_YapFragmentWidget.cpp:2697-2702 | the fragment shows as running iff its start time is after its end time; stamping an end clears it, and a failed start never lights it |
| `FragmentWidget.ChildSafeCompleteness` | Source/YapEditor/Private/YapEditor/NodeWidgets/SFlowGraphNode_YapFragmentWidget.cpp:2667-2695 | without child-safe data the data is incomplete; when not needed any data is complete; when needed, text, title and audio must each be present in both bits or in neither |
| `FragmentWidget.CompleteChildSafeMirrorsMature` | Source/YapEditor/Private/YapEditor/NodeWidgets/SFlowGraphNode_YapFragmentWidget.cpp:2674-2695 | complete child-safe data has a counterpart for every piece of mature content |
| `FragmentWidget.UsesAudioTimeIsEffectiveMode` | Source/YapEditor/Private/YapEditor/NodeWidgets/SFlowGraphNode_YapFragmentWidget.cpp:2594-2597 | the widget's audio-time test is the fragment's effective time mode |
| `FragmentWidget.AudioAssetErrorLevel` | Source/YapEditor/Private/YapEditor/NodeWidgets/SFlowGraphNode_YapFragmentWidget.cpp:2560-2616 | Unknown iff the asset is pending; a loaded asset is OK iff it is of an allowed class, else Error |
| `FragmentWidget.MissingAudioLevels` | Source/YapEditor/Private/YapEditor/NodeWidgets/SFlowGraphNode_YapFragmentWidget.cpp:2588-2615 | missing audio is flagged only on an audio-timed fragment, at the level the missing-audio setting names |
| `FragmentWidget.FragmentAudioLevelCases` | Source/YapEditor/Private/YapEditor/NodeWidgets/SFlowGraphNode_YapFragmentWidget.cpp:2505-2529 | one-sided audio is an Error when child-safe data is needed; child-safe-only audio is Unknown; otherwise the mature asset's level |
| `FragmentWidget.FragmentAudioUnknownCauses` | Source/YapEditor/Private/YapEditor/NodeWidgets/SFlowGraphNode_YapFragmentWidget.cpp:2505-2529 | a fragment's audio is Unknown only when its asset is pending or only child-safe audio is set |
| `FragmentWidget.CompleteChildSafeAudioAgrees` | Source/YapEditor/Private/YapEditor/NodeWidgets/SFlowGraphNode_YapFragmentWidget.cpp:2505-2529 | complete child-safe data never triggers the one-sided-audio Error |
| `FragmentWidget.FindAudioId` | Source/YapEditor/Private/YapEditor/NodeWidgets/SFlowGraphNode_YapFragmentWidget.cpp:1028-1031 | the matcher finds the leftmost audio ID (letters of the ID's length, '-', three digits), or reports none exists |
| `FragmentWidget.CheckAudioAssetUsesAudioID` | Source/YapEditor/Private/YapEditor/NodeWidgets/SFlowGraphNode_YapFragmentWidget.cpp:1023-1052 | the asset path is recognised iff it holds an audio ID anywhere; a correct match implies recognition |
| `FragmentWidget.NamedAssetMatches` | Source/YapEditor/Private/YapEditor/NodeWidgets/SFlowGraphNode_YapFragmentWidget.cpp:1023-1052 | an asset named `<AudioID>-<three-digit index>` is recognised as a correct match |
| `FragmentWidget.OtherIndexDoesNotMatch` | Source/YapEditor/Private/YapEditor/NodeWidgets/SFlowGraphNode_YapFragmentWidget.cpp:1039-1048 | an asset named for another fragment index is recognised but is not a correct match |
| `FragmentWidget.ThreeDigitsValue` | Source/YapEditor/Private/YapEditor/NodeWidgets/SFlowGraphNode_YapFragmentWidget.cpp:1037 | reading back three zero-padded digits gives the index |
| `FragmentWidget.SpeakerWidgetSize` | Source/YapEditor/Private/YapEditor/NodeWidgets/SFlowGraphNode_YapFragmentWidget.cpp:2003-2010 | the size is the portrait plus twice the border, but never below 72 |

## Left out

- **Slate widgets, editor presentation and transactions.** All widget construction, styling, drag-drop and undo transactions are left out. From the fragment widget only the pure helpers are modelled.
- **Listener payloads and dispatch.** Text, speaker, mood, audio and the broker/interface fan-out are left out. Broadcasts appear in the model only as events naming the conversation and handle.
- **`UYapSubsystem::RunPrompt`** only forwards to the node's `RunPrompt`, which is modelled.
- **`UYapSubsystem::Initialize` and the conversation delegates.** Class loading is not modelled. The two delegates it binds appear directly as the begin/end broadcasts.
- **`IsConversationInProgress`.** Its body is not shown. It is taken to mean "the conversation name is not empty".
- **`RemoveFragment`, `PreloadContent`, `PostLoad`, `InitializeInstance`.** These are asset loading and editor plumbing.
- **`OnFilterGameplayTagChildren`, `GetNodeTitle`, `GetNodeDescription`.** These are editor display only.
- **Timer handles.**
  - A timer manager firing is an explicit method, `FireFragmentTimer` / `FirePaddingTimer`. Time passing is `Tick`.
  - A timer that comes due runs its callback while it still exists, as the engine's timer manager does. Both callbacks clear their own timer and handle first. The engine's own removal of a finished one-shot timer is therefore not modelled separately.
  - A fragment's timer never comes due before `Tick` has counted it down to zero.
  - Rounding of `float` times is not modelled: times are `real`.
- **Guids** come from a counter, one per draw, instead of `FGuid::NewGuid`. Only their distinctness is relied on.
- **Inputs taken as given:**
  - `Fragment.GetTime()`, `GetSkippable(bool)` and `GetAutoAdvance(bool)`: their bodies are not shown. `GetTime` is a stored optional time, and the other two return the override, else the fallback.
  - The minimum-time-to-skip and auto-select-last-prompt settings, whose getters are not shown.
  - `GetBit()` is taken to be the mature bit, for the skippable override read by `BroadcastDialogueStart`.
- **Null conditions** are skipped. The warning they log is not modelled.
- **The `FYapPromptHandle` constructor** used by `BroadcastPrompt` is not shown. It is taken to store the node and index and draw a fresh guid like the dialogue handle.
- **`FYapDialogueHandle::Invalidate`** is not part of this model. It is taken to clear the handle's guid, so that the handle is no longer valid.
- **`DialogueHandle.OnSpeakingEnds()`** in `OnSpeakingComplete` is left out. Its body is not part of this model, and nothing the node reads depends on it.
- **The 2-argument `FYapDialogueHandle` constructor** used by `TryBroadcastFragment` is not shown. Its skippable flag is taken to be `ResolvedSkippable`: the mature bit's override when set, else the node's `GetSkippable()`. This is the same formula `BroadcastDialogueStart` uses (YapSubsystem.cpp:182). `FYapFragment::GetSkippable(bool)`, which `CanSkipCurrentFragment` reads at FlowNode_YapDialogue.cpp:126, is a different field.
- **Settings defaults** are the header's member initialisers, overridden where the `.cpp` constructor assigns a field. It sets `MinimumAutoTextTimeLength` to 2.5 (header 1.0), `MinimumAutoAudioTimeLength` to 1.0 (header 0.5) and `FragmentPaddingSliderMax` to 5.0 (header 2.0), and `Defaults` uses those values. None of the three is read by the modelled operations.
- **`CheckAudioAssetUsesAudioID` pattern.**
  - The pattern is read as the intended "ID-length letters, '-', three digits". `FString::Format`'s handling of the doubled braces is not modelled.
  - Digits are ASCII only.
  - The comparison with the node's audio ID ignores ASCII case, as `FString` equality does.
- **`FragmentWidget.SpeakerWidgetSize`** does not model 32-bit overflow of `PortraitSize + 2 * BorderSize`.
- **`GetAudioAssetErrorLevel`'s class test** takes the set of classes a loaded asset is an instance of as given. Synchronous class loading and its warning are not modelled.
- **Nodes with more than 255 fragments** are not modelled. The source walks `Fragments` with a `uint8` counter in six loops (FlowNode_YapDialogue.cpp:57, 282, 298, 353, 505 and 673). With 256 or more fragments the counter wraps before `i < Fragments.Num()` becomes false, so such a loop never ends unless it returns early. The operations built on these loops require `|fragments| <= MaxFragments` (255), the only range on which the source's loops are sure to end:
  - `FindFragmentIndex`, `InvalidateFragmentTags`, `OfferEligibleFragments`, `BroadcastPrompts`, `FindStartingFragment`, `RunLaterFragments`, `CollectFragmentPins` and `GetContextOutputs`;
  - the playback methods that reach these loops: `ExecuteInput`, `OnSpeakingComplete`, `StartPadding`, `OnPaddingComplete`, `AdvanceFromFragment`, `SkipCurrent`, `FireFragmentTimer` and `FirePaddingTimer`.
  The widget's `GetDialogueNode()->GetNumFragments()` is the node's fragment count within the same bound. The widget's own `uint8` loop (SFlowGraphNode_YapDialogueWidget.cpp:574) is not part of this model.

## Findings

The node and subsystem classes model each of these as written. Each corrected definition stands beside the as-written one, with the intended property proved about it.

| source | as written | input that shows it | evidently intended | confidence | as-written member | corrected member |
|---|---|---|---|---|---|---|
| Source/Yap/Private/Yap/Nodes/FlowNode_YapDialogue.cpp:83-105 | `OnPaddingComplete` resets `RunningFragmentIndex` to `INDEX_NONE`, then `SkipCurrent` advances from `RunningFragmentIndex`, truncated to 255 | a permitted skip during the padding of a fragment that does not auto-advance | advance from the fragment that was skipped | not executed; high | `DialogueProperties.SkipIntoManualAdvanceFaults` | `DialogueCorrections.SkipIntoManualAdvanceMovesOn` |
| Source/Yap/Private/Yap/Nodes/FlowNode_YapDialogue.cpp:83-105 | a skip that ends the speech of a fragment with no padding completes the padding inside `OnSpeakingComplete`, which resets `RunningFragmentIndex` to `INDEX_NONE`; `SkipCurrent` then advances from 255 | a permitted skip during the speech of a fragment with padding zero that does not auto-advance | advance from the fragment that was skipped | not executed; high | `DialogueProperties.SkipDuringSpeechIntoManualAdvanceFaults` | `DialogueCorrections.SkipDuringSpeechIntoManualAdvanceMovesOn` |
| Source/Yap/Private/Yap/Nodes/FlowNode_YapDialogue.cpp:334-345 | `++NodeActivationCount` runs whether or not `RunFragment` succeeded | `RunPrompt` on a fragment whose conditions fail | count the node only when the chosen fragment runs | not executed; medium | `DialogueProperties.RunPromptCountsFailures` | `DialogueCorrections.RunPromptCountsOnlyRuns` |
| Source/Yap/Private/Yap/Nodes/FlowNode_YapDialogue.cpp:737-749 | an invalid index is logged and then still passed to `RemoveAt` | `DeleteFragmentByIndex(-1)`, or an index equal to the fragment count | return after logging the invalid index | not executed; high | `DialogueProperties.DeleteBadIndexFaults` | `DialogueCorrections.DeleteCheckedNeverFaults` |
| Source/Yap/Private/Yap/Nodes/FlowNode_YapDialogue.cpp:818-837 | any non-zero fragment limit counts as exhaustible, so a negative limit, which the fragment treats as unlimited, is always exhausted | a node whose fragments all have limit -1 and passing conditions | the fragment's own test, `IsActivationLimitMet` | not executed; medium | `DialogueCorrections.NegativeLimitsBypassPlayableFragment` | `DialogueCorrections.LimitsMetOnlyWhenNothingCanRun` |
| Source/Yap/Private/Yap/YapSubsystem.cpp:143-167 | the prompt offers name the conversation only for a dialogue of the active flow asset; the all-added broadcast names it whenever one is in progress | a prompt node of another flow asset while a conversation runs | one naming rule for every broadcast of a prompt round | not executed; medium | `YapSubsystem.PromptNamesDisagreeAcrossAssets` | `YapSubsystem.PromptRoundNamesAgree` |
