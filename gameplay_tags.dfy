// Gameplay tags as the dotted names the tag manager registers ("Yap.Dialogue.Greeting"),
// plus the FString helpers the core applies to them.
module GameplayTags {

  /** A gameplay tag by its canonical name; the empty name is FGameplayTag::EmptyTag. */
  type Tag = string

  const EmptyTag: Tag := ""

  /** FGameplayTag::IsValid: the tag names something. */
  predicate IsValidTag(t: Tag) {
    t != EmptyTag
  }

  /** FGameplayTag::MatchesTag: the tag is `parent` itself or lies below it in the dotted hierarchy. */
  predicate MatchesTag(t: Tag, parent: Tag) {
    IsValidTag(parent) && (t == parent || parent + "." <= t)
  }

  /** FString::RightChop(n): drops the first n characters; nothing is left when n reaches the length. */
  function RightChop(s: string, n: int): (r: string)
    ensures n <= 0 ==> r == s
    ensures 0 <= n <= |s| ==> s == s[..n] + r
    ensures n >= |s| ==> r == ""
  {
    if n <= 0 then s else if n >= |s| then "" else s[n..]
  }

  /** FString::LeftChop(n): drops the last n characters. */
  function LeftChop(s: string, n: int): (r: string)
    ensures 0 <= n <= |s| ==> r + s[|s| - n..] == s
    ensures n >= |s| ==> r == ""
  {
    if n <= 0 then s else if n >= |s| then "" else s[..|s| - n]
  }

  /** FString::FindLastChar: the position of the last occurrence of `c`, if any. */
  function FindLastChar(s: string, c: char): (r: int)
    ensures -1 <= r < |s|
    ensures r >= 0 ==> s[r] == c && forall k :: r < k < |s| ==> s[k] != c
    ensures r == -1 ==> forall k :: 0 <= k < |s| ==> s[k] != c
  {
    if |s| == 0 then -1
    else if s[|s| - 1] == c then |s| - 1
    else FindLastChar(s[..|s| - 1], c)
  }
}
