// UYapSubsystem: the world subsystem that keeps track of the conversation under way, the
// tagged fragments and character components registered with it, and the listeners it
// broadcasts to. The registries are fields the methods update in place; each method ends in
// the state a pure function of the old state describes, and the lemmas are about those
// functions.
module YapSubsystem {
  import opened Wrappers
  import opened GameplayTags
  import opened Guids
  import opened Handles
  import opened YapFragment
  import opened DialogueSpec
  import opened YapDialogueNode

  /** A UFlowAsset, by identity; NullAsset is nullptr. */
  type AssetId = nat
  const NullAsset: AssetId := 0

  /** An actor, a character component and a listener object, by identity. */
  type ActorId = nat
  type ComponentId = nat
  type ListenerId = nat

  // ------------------------------------------------------------------------------------------
  // FYapActiveConversation

  /** The owning flow asset and the name of the conversation under way; the empty tag means none. */
  datatype ActiveConversation = ActiveConversation(flowAsset: AssetId, conversation: Tag) {
    predicate IsConversationInProgress() { conversation != EmptyTag }

    /** The asset is only ever set while a conversation is under way. */
    predicate Valid() { conversation == EmptyTag ==> flowAsset == NullAsset }
  }

  /** The default-constructed active conversation: no asset, no conversation. */
  const NoConversation: ActiveConversation := ActiveConversation(NullAsset, EmptyTag)

  /**
   * StartConversation: refused (false, nothing changes) while a conversation is under way or
   * when the requested name is empty; otherwise the asset and name are recorded.
   */
  function StartActiveConversation(a: ActiveConversation, asset: AssetId, name: Tag): (r: (ActiveConversation, bool))
    ensures r.1 <==> !a.IsConversationInProgress() && name != EmptyTag
    ensures !r.1 ==> r.0 == a
    ensures r.1 ==> r.0.IsConversationInProgress() && r.0.conversation == name && r.0.flowAsset == asset
  {
    if a.conversation != EmptyTag then (a, false)
    else if name == EmptyTag then (a, false)
    else (ActiveConversation(asset, name), true)
  }

  /** EndConversation: succeeds exactly when a conversation is under way, and then clears both fields. */
  function EndActiveConversation(a: ActiveConversation): (r: (ActiveConversation, bool))
    ensures r.1 <==> a.IsConversationInProgress()
    ensures r.1 ==> r.0 == NoConversation
    ensures !r.1 ==> r.0 == a
  {
    if a.conversation != EmptyTag then (NoConversation, true) else (a, false)
  }

  /** Starting and then ending a conversation brings the active conversation back to its initial state. */
  lemma StartThenEndRestoresInitial(asset: AssetId, name: Tag)
    requires name != EmptyTag
    ensures StartActiveConversation(NoConversation, asset, name).1
    ensures EndActiveConversation(StartActiveConversation(NoConversation, asset, name).0) == (NoConversation, true)
  {
  }

  /** A second start is refused until the first conversation ends, whatever its name. */
  lemma SecondStartRefused(a: ActiveConversation, asset1: AssetId, name1: Tag, asset2: AssetId, name2: Tag)
    requires StartActiveConversation(a, asset1, name1).1
    ensures var b := StartActiveConversation(a, asset1, name1).0;
      StartActiveConversation(b, asset2, name2) == (b, false)
      && StartActiveConversation(EndActiveConversation(b).0, asset2, name2).1 == (name2 != EmptyTag)
  {
  }

  /** Start and End keep the asset empty whenever no conversation is under way. */
  lemma ConversationStaysValid(a: ActiveConversation, asset: AssetId, name: Tag)
    requires a.Valid()
    ensures StartActiveConversation(a, asset, name).0.Valid()
    ensures EndActiveConversation(a).0.Valid()
  {
  }

  /**
   * The conversation name a broadcast carries: the active conversation's name when the
   * dialogue belongs to the active conversation's flow asset, the empty tag otherwise.
   */
  function ConversationNameFor(a: ActiveConversation, asset: AssetId): (name: Tag)
    ensures name != EmptyTag ==> a.IsConversationInProgress() && a.flowAsset == asset
    ensures a.flowAsset == asset ==> name == a.conversation
  {
    if a.flowAsset == asset then a.conversation else EmptyTag
  }

  /**
   * The name OnFinishedBroadcastingPrompts sends: the active name, without the asset check the
   * other broadcasts make.
   */
  function FinishedPromptsName(a: ActiveConversation): (name: Tag)
    ensures name == EmptyTag <==> !a.IsConversationInProgress()
  {
    if a.IsConversationInProgress() then a.conversation else EmptyTag
  }

  /**
   * While a conversation runs, a prompt from another flow asset is announced under the empty
   * name, yet the "all prompts added" broadcast that follows carries the running name.
   */
  lemma PromptNamesDisagreeAcrossAssets(a: ActiveConversation, asset: AssetId)
    requires a.IsConversationInProgress() && a.flowAsset != asset
    ensures ConversationNameFor(a, asset) == EmptyTag
    ensures FinishedPromptsName(a) == a.conversation != EmptyTag
  {
  }

  /** For a dialogue of the active asset the two names agree, and they agree when nothing runs. */
  lemma PromptNamesAgreeOnOwnAsset(a: ActiveConversation, asset: AssetId)
    requires a.Valid() && (a.flowAsset == asset || !a.IsConversationInProgress())
    ensures ConversationNameFor(a, asset) == FinishedPromptsName(a)
  {
  }

  /**
   * The name the "all prompts added" broadcast carries under the rule the prompt offers use:
   * the running conversation's name only for a dialogue of the running flow asset.
   */
  function FinishedPromptsNameFor(a: ActiveConversation, asset: AssetId): (name: Tag)
    ensures name != EmptyTag <==> a.IsConversationInProgress() && a.flowAsset == asset
    ensures name != EmptyTag ==> name == a.conversation
  {
    if a.IsConversationInProgress() && a.flowAsset == asset then a.conversation else EmptyTag
  }

  /** Under that one rule every broadcast of a prompt round names the same conversation, whatever the asset. */
  lemma PromptRoundNamesAgree(a: ActiveConversation, asset: AssetId)
    ensures FinishedPromptsNameFor(a, asset) == ConversationNameFor(a, asset)
  {
  }

  // ------------------------------------------------------------------------------------------
  // Registries as values

  /** TArray::AddUnique: appends the element unless it is already present. */
  function AddUnique(xs: seq<ListenerId>, x: ListenerId): (r: seq<ListenerId>)
    ensures x in r
    ensures forall y :: y in r <==> y in xs || y == x
    ensures x in xs ==> r == xs
  {
    if x in xs then xs else xs + [x]
  }

  /** TArray::Remove: drops every occurrence of the element, keeping the others in order. */
  function RemoveAll(xs: seq<ListenerId>, x: ListenerId): (r: seq<ListenerId>)
    ensures x !in r
    ensures forall y :: y != x ==> (y in r <==> y in xs)
    ensures |r| <= |xs|
  {
    if xs == [] then []
    else if xs[0] == x then RemoveAll(xs[1..], x)
    else [xs[0]] + RemoveAll(xs[1..], x)
  }

  /** No element occurs twice. */
  predicate Distinct(xs: seq<ListenerId>) {
    forall i, j :: 0 <= i < j < |xs| ==> xs[i] != xs[j]
  }

  /** Listeners registered only through AddUnique are never duplicated, and removal keeps that. */
  lemma {:induction false} ListenersStayDistinct(xs: seq<ListenerId>, x: ListenerId)
    requires Distinct(xs)
    ensures Distinct(AddUnique(xs, x))
    ensures Distinct(RemoveAll(xs, x))
    decreases |xs|
  {
    if xs != [] {
      ListenersStayDistinct(xs[1..], x);
      var rest := RemoveAll(xs[1..], x);
      if xs[0] != x {
        assert xs[0] !in xs[1..] by {
          forall k | 0 <= k < |xs[1..]| ensures xs[1..][k] != xs[0] {
            assert xs[1..][k] == xs[k + 1];
          }
        }
        assert xs[0] !in rest;
        var r := [xs[0]] + rest;
        forall i, j | 0 <= i < j < |r| ensures r[i] != r[j] {
          if i == 0 {
            assert r[j] == rest[j - 1] && rest[j - 1] in rest;
          } else {
            assert r[i] == rest[i - 1] && r[j] == rest[j - 1];
          }
        }
      }
    }
  }

  /** Registering and then unregistering a listener is the same as only unregistering it. */
  lemma {:induction false} AddUniqueThenRemove(xs: seq<ListenerId>, x: ListenerId)
    ensures RemoveAll(AddUnique(xs, x), x) == RemoveAll(xs, x)
  {
    if x !in xs {
      RemoveAppendedOne(xs, x);
    }
  }

  lemma {:induction false} RemoveAppendedOne(xs: seq<ListenerId>, x: ListenerId)
    ensures RemoveAll(xs + [x], x) == RemoveAll(xs, x)
    decreases |xs|
  {
    if xs == [] {
      assert RemoveAll([x], x) == RemoveAll([x][1..], x);
    } else {
      assert (xs + [x])[0] == xs[0];
      assert (xs + [x])[1..] == xs[1..] + [x];
      RemoveAppendedOne(xs[1..], x);
    }
  }

  /** TMap::Add guarded by Contains: the first registration of a key wins. */
  function RegisterFirst<V>(m: map<Tag, V>, key: Tag, value: V): (r: map<Tag, V>)
    ensures key in r && r.Keys == m.Keys + {key}
    ensures key in m ==> r == m
    ensures key !in m ==> r[key] == value && forall k :: k in m ==> r[k] == m[k]
  {
    if key in m then m else m[key := value]
  }

  /** Whatever is registered under a tag later, the first registration stays. */
  lemma RegisterFirstWins<V>(m: map<Tag, V>, key: Tag, a: V, b: V)
    requires key !in m
    ensures RegisterFirst(RegisterFirst(m, key, a), key, b)[key] == a
  {
  }

  /**
   * RegisterCharacterComponent as a value: a second component on an actor already registered
   * is ignored; otherwise the tag maps to the component (replacing an earlier one under the
   * same tag, as TMap::Add does) and the actor is recorded.
   */
  function RegisterComponent(components: map<Tag, ComponentId>, actors: set<ActorId>,
                             tag: Tag, component: ComponentId, owner: ActorId): (r: (map<Tag, ComponentId>, set<ActorId>, bool))
    ensures r.2 <==> owner !in actors
    ensures !r.2 ==> r.0 == components && r.1 == actors
    ensures r.2 ==> r.0 == components[tag := component] && r.1 == actors + {owner}
  {
    if owner in actors then (components, actors, false)
    else (components[tag := component], actors + {owner}, true)
  }

  /** Each actor is accepted once: a second component on the same actor changes nothing. */
  lemma OneComponentPerActor(components: map<Tag, ComponentId>, actors: set<ActorId>,
                             tag1: Tag, c1: ComponentId, tag2: Tag, c2: ComponentId, owner: ActorId)
    requires owner !in actors
    ensures var (m, s, ok) := RegisterComponent(components, actors, tag1, c1, owner);
      ok && RegisterComponent(m, s, tag2, c2, owner) == (m, s, false) && m[tag1] == c1
  {
  }

  /**
   * GetYapCharacter as a value: the component registered under the tag when its weak pointer
   * still resolves (it is among `live`), nothing otherwise.
   */
  function LookupCharacter(components: map<Tag, ComponentId>, live: set<ComponentId>, tag: Tag): (r: Option<ComponentId>)
    ensures r.Some? <==> tag in components && components[tag] in live
    ensures r.Some? ==> r.value == components[tag]
  {
    if tag in components && components[tag] in live then Some(components[tag]) else None
  }

  /** A registered component is found under its tag for as long as it is alive, and not after. */
  lemma RegisteredCharacterFound(components: map<Tag, ComponentId>, actors: set<ActorId>, live: set<ComponentId>,
                                 tag: Tag, component: ComponentId, owner: ActorId)
    requires owner !in actors
    ensures var m := RegisterComponent(components, actors, tag, component, owner).0;
      LookupCharacter(m, live, tag) == (if component in live then Some(component) else None)
  {
  }

  // ------------------------------------------------------------------------------------------
  // Broadcasts

  /** What the subsystem sends to its broker and listeners (payload text left out). */
  datatype Broadcast =
    | ConversationBegins(conversation: Tag)
    | ConversationEnds(conversation: Tag)
    | PromptOptionAdded(conversation: Tag, prompt: PromptHandle)
    | PromptOptionsAllAdded(conversation: Tag)
    | DialogueBegins(conversation: Tag, dialogue: DialogueHandle)
    | DialogueEnds(conversation: Tag, dialogue: DialogueHandle)
    | Logged(message: string)

  const DuplicateTagMessage: string := "Tried to register tagged fragment but this tag was already registered"
  const NotAListenerMessage: string := "Tried to register a conversation handler, but it does not implement the interface"
  const MultipleComponentsMessage: string := "Multiple character components on actor, ignoring!"
  const UnimplementedUnregisterMessage: string := "Unimplemented function UYapSubsystem::UnregisterCharacterComponent"

  /** The world types the subsystem is created for. */
  datatype WorldType = NoWorld | Game | Editor | PIE | EditorPreview | GamePreview | GameRPC | Inactive

  function DoesSupportWorldType(w: WorldType): (r: bool)
    ensures r <==> w in {GamePreview, Game, PIE}
  {
    w == GamePreview || w == Game || w == PIE
  }

  class Subsystem {
    var activeConversation: ActiveConversation
    var taggedFragments: map<Tag, DialogueNode>
    var characterComponents: map<Tag, ComponentId>
    var registeredActors: set<ActorId>
    var listeners: seq<ListenerId>
    /** The last guid handed out for a handle. */
    var lastGuid: nat
    /** Everything broadcast or logged so far. */
    var broadcasts: seq<Broadcast>

    /** The active conversation keeps no asset without a name, and no listener is registered twice. */
    predicate Valid()
      reads this
    {
      activeConversation.Valid() && Distinct(listeners)
    }

    constructor(last: nat)
      ensures activeConversation == NoConversation && taggedFragments == map[]
      ensures characterComponents == map[] && registeredActors == {} && listeners == []
      ensures lastGuid == last && broadcasts == []
      ensures Valid()
    {
      activeConversation := NoConversation;
      taggedFragments := map[];
      characterComponents := map[];
      registeredActors := {};
      listeners := [];
      lastGuid := last;
      broadcasts := [];
    }

    /** Adds the listener once if it implements the listener interface, logs an error otherwise. */
    method RegisterConversationListener(listener: ListenerId, implementsInterface: bool)
      requires Valid()
      modifies this`listeners, this`broadcasts
      ensures Valid()
      ensures implementsInterface ==> listeners == AddUnique(old(listeners), listener) && broadcasts == old(broadcasts)
      ensures !implementsInterface ==> listeners == old(listeners) && broadcasts == old(broadcasts) + [Logged(NotAListenerMessage)]
    {
      if implementsInterface {
        ListenersStayDistinct(listeners, listener);
        listeners := AddUnique(listeners, listener);
      } else {
        broadcasts := broadcasts + [Logged(NotAListenerMessage)];
      }
    }

    method UnregisterConversationListener(listener: ListenerId)
      requires Valid()
      modifies this`listeners
      ensures Valid()
      ensures listeners == RemoveAll(old(listeners), listener)
    {
      ListenersStayDistinct(listeners, listener);
      listeners := RemoveAll(listeners, listener);
    }

    /** The live component registered under the tag, if any. */
    method GetYapCharacter(tag: Tag, live: set<ComponentId>) returns (r: Option<ComponentId>)
      ensures r == LookupCharacter(characterComponents, live, tag)
    {
      var entry := if tag in characterComponents then Some(characterComponents[tag]) else None;
      if entry.Some? && entry.value in live {
        return entry;
      }
      return None;
    }

    /** Keeps the first node registered under a tag; a duplicate only logs a warning. */
    method RegisterTaggedFragment(tag: Tag, node: DialogueNode)
      modifies this`taggedFragments, this`broadcasts
      ensures taggedFragments == RegisterFirst(old(taggedFragments), tag, node)
      ensures broadcasts == old(broadcasts) + (if tag in old(taggedFragments) then [Logged(DuplicateTagMessage)] else [])
    {
      if tag in taggedFragments {
        broadcasts := broadcasts + [Logged(DuplicateTagMessage)];
        return;
      }
      taggedFragments := taggedFragments[tag := node];
    }

    /** The node registered under the tag and the index of its first fragment carrying the tag. */
    method FindTaggedFragment(tag: Tag) returns (found: Option<(DialogueNode, nat)>)
      ensures tag !in taggedFragments ==> found.None?
      ensures tag in taggedFragments ==>
        var fs := taggedFragments[tag].fragments;
        (found.None? <==> forall k :: 0 <= k < |fs| ==> fs[k].fragmentTag != tag)
      ensures found.Some? ==>
        && tag in taggedFragments && found.value.0 == taggedFragments[tag]
        && found.value.1 < |found.value.0.fragments| && found.value.0.fragments[found.value.1].fragmentTag == tag
        && forall k :: 0 <= k < found.value.1 ==> found.value.0.fragments[k].fragmentTag != tag
    {
      if tag in taggedFragments {
        var node := taggedFragments[tag];
        var index := node.FindTaggedFragment(tag);
        if index.Some? {
          return Some((node, index.value));
        }
      }
      return None;
    }

    /** Starts a conversation when none is under way and the name is set, announcing it. */
    method StartConversation(asset: AssetId, name: Tag) returns (ok: bool)
      requires Valid()
      modifies this`activeConversation, this`broadcasts
      ensures Valid()
      ensures (activeConversation, ok) == StartActiveConversation(old(activeConversation), asset, name)
      ensures broadcasts == old(broadcasts) + (if ok then [ConversationBegins(name)] else [])
    {
      ConversationStaysValid(activeConversation, asset, name);
      var (next, started) := StartActiveConversation(activeConversation, asset, name);
      activeConversation := next;
      ok := started;
      if ok {
        broadcasts := broadcasts + [ConversationBegins(name)];
      }
    }

    /** Ends the conversation under way, announcing it; does nothing when none is. */
    method EndCurrentConversation()
      requires Valid()
      modifies this`activeConversation, this`broadcasts
      ensures Valid()
      ensures activeConversation == EndActiveConversation(old(activeConversation)).0
      ensures broadcasts == old(broadcasts)
        + (if old(activeConversation).IsConversationInProgress() then [ConversationEnds(old(activeConversation).conversation)] else [])
    {
      ConversationStaysValid(activeConversation, NullAsset, EmptyTag);
      var ending := activeConversation.conversation;
      var (next, ended) := EndActiveConversation(activeConversation);
      activeConversation := next;
      if ended {
        broadcasts := broadcasts + [ConversationEnds(ending)];
      }
    }

    /** Announces one prompt option of `node`, which belongs to flow asset `asset`. */
    method BroadcastPrompt(node: DialogueNode, asset: AssetId, index: nat)
      requires index < |node.fragments|
      modifies this`lastGuid, this`broadcasts
      ensures lastGuid > old(lastGuid)
      ensures broadcasts == old(broadcasts)
        + [Broadcast.PromptOptionAdded(ConversationNameFor(activeConversation, asset), PromptHandle(node.id, index, lastGuid))]
    {
      var (guid, last) := NewGuid(lastGuid);
      lastGuid := last;
      var name := ConversationNameFor(activeConversation, asset);
      broadcasts := broadcasts + [Broadcast.PromptOptionAdded(name, PromptHandle(node.id, index, guid))];
    }

    method OnFinishedBroadcastingPrompts()
      modifies this`broadcasts
      ensures broadcasts == old(broadcasts) + [Broadcast.PromptOptionsAllAdded(FinishedPromptsName(activeConversation))]
    {
      var name := if activeConversation.IsConversationInProgress() then activeConversation.conversation else EmptyTag;
      broadcasts := broadcasts + [Broadcast.PromptOptionsAllAdded(name)];
    }

    /**
     * Announces that a fragment of `node` starts speaking, under a fresh handle whose skippable
     * flag is the mature bit's override, else the node's setting.
     */
    method BroadcastDialogueStart(node: DialogueNode, asset: AssetId, index: nat)
      requires index < |node.fragments|
      modifies this`lastGuid, this`broadcasts
      ensures lastGuid > old(lastGuid)
      ensures broadcasts == old(broadcasts)
        + [DialogueBegins(ConversationNameFor(activeConversation, asset),
                          DialogueHandle(node.id, index, ResolvedSkippable(node.State(), node.fragments[index]), lastGuid))]
    {
      var bit := node.fragments[index].matureBit;
      var skippable := if bit.skippable == SkippableDefault then node.State().GetSkippable() else bit.skippable == SkippableYes;
      var (handle, last) := NewDialogueHandle(node.id, index, skippable, lastGuid);
      lastGuid := last;
      var name := ConversationNameFor(activeConversation, asset);
      broadcasts := broadcasts + [DialogueBegins(name, handle)];
    }

    /** Announces that a fragment of `node` stopped speaking, under a fresh handle that is never skippable. */
    method BroadcastDialogueEnd(node: DialogueNode, asset: AssetId, index: nat)
      requires index < |node.fragments|
      modifies this`lastGuid, this`broadcasts
      ensures lastGuid > old(lastGuid)
      ensures broadcasts == old(broadcasts)
        + [DialogueEnds(ConversationNameFor(activeConversation, asset), DialogueHandle(node.id, index, false, lastGuid))]
    {
      var (handle, last) := NewDialogueHandle(node.id, index, false, lastGuid);
      lastGuid := last;
      var name := ConversationNameFor(activeConversation, asset);
      broadcasts := broadcasts + [DialogueEnds(name, handle)];
    }

    /** Registers a character component under its tag unless its actor already has one. */
    method RegisterCharacterComponent(component: ComponentId, owner: ActorId, tag: Tag)
      modifies this`characterComponents, this`registeredActors, this`broadcasts
      ensures var (m, s, ok) := RegisterComponent(old(characterComponents), old(registeredActors), tag, component, owner);
        characterComponents == m && registeredActors == s
        && broadcasts == old(broadcasts) + (if ok then [] else [Logged(MultipleComponentsMessage)])
    {
      if owner in registeredActors {
        broadcasts := broadcasts + [Logged(MultipleComponentsMessage)];
        return;
      }
      characterComponents := characterComponents[tag := component];
      registeredActors := registeredActors + {owner};
    }

    /** Not implemented by the plugin: it only logs an error and unregisters nothing. */
    method UnregisterCharacterComponent(component: ComponentId)
      modifies this`broadcasts
      ensures broadcasts == old(broadcasts) + [Logged(UnimplementedUnregisterMessage)]
    {
      broadcasts := broadcasts + [Logged(UnimplementedUnregisterMessage)];
    }
  }

  /**
   * The start and end broadcasts of one fragment carry different handles: the end handle is
   * built afresh, so a listener cannot match it to the start by equality.
   */
  lemma DialogueStartAndEndHandlesDiffer(node: NodeId, index: nat, skippable: bool, last: nat)
    ensures var (start, last1) := NewDialogueHandle(node, index, skippable, last);
      var (end, _) := NewDialogueHandle(node, index, false, last1);
      start != end && start.guid != end.guid && !end.skippable
  {
  }
}
