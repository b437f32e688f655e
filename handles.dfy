// FYapPromptHandle and FYapDialogueHandle: small values that name one fragment of one
// dialogue node for listeners, identified by a guid of their own.
module Handles {
  import opened Guids

  /** A dialogue node, by identity. */
  type NodeId = nat

  /**
   * FYapPromptHandle: the prompt's node and fragment index, and its own guid.
   * Equality, hashing and validity look at the guid alone.
   */
  datatype PromptHandle = PromptHandle(node: NodeId, fragmentIndex: nat, guid: Guid) {
    predicate IsValid() { Guids.IsValid(guid) }

    function GetGuid(): Guid { guid }

    /** operator== */
    predicate Equals(other: PromptHandle) { guid == other.guid }

    /** GetTypeHash: the hash of the guid. */
    function Hash(): nat { GuidHash(guid) }
  }

  /**
   * GetTypeHash(FGuid) stands here as a fixed function of the guid; the engine's CRC is
   * not part of this model, only the fact that it reads nothing but the guid.
   */
  function GuidHash(g: Guid): (h: nat)
    ensures h < 0x1_0000_0000
  {
    g % 0x1_0000_0000
  }

  /** Prompt handles are equal exactly when their guids are, equal handles hash alike, and validity is the guid's. */
  lemma PromptHandleIdentity(a: PromptHandle, b: PromptHandle)
    ensures a.Equals(b) <==> a.GetGuid() == b.GetGuid()
    ensures a.Equals(b) ==> a.Hash() == b.Hash()
    ensures a.IsValid() <==> a.guid != InvalidGuid
    ensures a.Equals(a)
    ensures a.Equals(b) ==> b.Equals(a)
  {
  }

  /**
   * operator== ignores the prompt a handle names: handles with the same guid compare equal
   * and hash alike whatever their node and index, although as values they differ when they
   * name different prompts; handles for the same prompt with different guids are not equal.
   */
  lemma PromptEqualityIgnoresTarget(node1: NodeId, index1: nat, node2: NodeId, index2: nat, g1: Guid, g2: Guid)
    ensures PromptHandle(node1, index1, g1).Equals(PromptHandle(node2, index2, g1))
    ensures PromptHandle(node1, index1, g1).Hash() == PromptHandle(node2, index2, g1).Hash()
    ensures (node1, index1) != (node2, index2) ==> PromptHandle(node1, index1, g1) != PromptHandle(node2, index2, g1)
    ensures g1 != g2 ==> !PromptHandle(node1, index1, g1).Equals(PromptHandle(node1, index1, g2))
  {
  }

  /** FYapDialogueHandle: the speaking node, the fragment index, whether it may be skipped, and a guid. */
  datatype DialogueHandle = DialogueHandle(node: NodeId, fragmentIndex: nat, skippable: bool, guid: Guid) {
    predicate IsValid() { Guids.IsValid(guid) }

    /** The handle after Invalidate(): it no longer names a live dialogue. */
    function Invalidate(): (h: DialogueHandle)
      ensures !h.IsValid()
    {
      this.(guid := InvalidGuid)
    }
  }

  const NoDialogueHandle: DialogueHandle := DialogueHandle(0, 0, false, InvalidGuid)

  /**
   * The FYapDialogueHandle constructor: stores the node, index and skippable flag as given
   * and draws a fresh guid after `last`, returning the advanced counter.
   */
  function NewDialogueHandle(node: NodeId, index: nat, skippable: bool, last: nat): (r: (DialogueHandle, nat))
    ensures r.0.node == node && r.0.fragmentIndex == index && r.0.skippable == skippable
    ensures r.0.IsValid() && last < r.0.guid == r.1
  {
    var (g, last') := NewGuid(last);
    (DialogueHandle(node, index, skippable, g), last')
  }

  /** Two handles built one after the other, even for the same node and fragment, are distinct. */
  lemma SuccessiveDialogueHandlesDiffer(node: NodeId, index: nat, s1: bool, s2: bool, last: nat)
    ensures var (h1, n1) := NewDialogueHandle(node, index, s1, last);
            var (h2, _) := NewDialogueHandle(node, index, s2, n1);
            h1.guid != h2.guid && h1 != h2
  {
  }
}
