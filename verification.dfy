/**
 * `verifyReaction`: after the click, the page is scanned for any element
 * whose label or text suggests that a reaction was recorded. The result is
 * advisory only.
 */
module Verification {
  import opened Wrappers
  import opened Text

  /**
   * One element matched by `[role="button"], button, div[aria-label]`, as the
   * scan reads it: its `aria-label` attribute and its `textContent`, either of
   * which may be missing.
   */
  datatype Element = Element(ariaLabel: Option<string>, textContent: Option<string>)

  /**
   * The test applied to one element: its label mentions `Reacted` or
   * `reactions`, its text mentions `Reacted`, or its label mentions the kind,
   * both lower-cased.
   */
  predicate Indicates(el: Element, kind: string)
    ensures Indicates(el, kind) && kind != [] ==> el.ariaLabel.Some? || el.textContent.Some?
  {
    var ariaLabel := el.ariaLabel.GetOr("");
    var text := el.textContent.GetOr("");
    || Contains(ariaLabel, "Reacted")
    || Contains(ariaLabel, "reactions")
    || Contains(text, "Reacted")
    || Contains(Lower(ariaLabel), Lower(kind))
  }

  /** Some element on the page passes the test. */
  predicate ReactionShown(elements: seq<Element>, kind: string)
    ensures ReactionShown(elements, kind) ==> elements != []
  {
    exists i :: 0 <= i < |elements| && Indicates(elements[i], kind)
  }

  /** The loop run inside the page: it returns at the first element that passes the test. */
  method ScanPage(elements: seq<Element>, kind: string) returns (isReacted: bool)
    ensures isReacted <==> ReactionShown(elements, kind)
  {
    for i := 0 to |elements|
      invariant forall j :: 0 <= j < i ==> !Indicates(elements[j], kind)
    {
      var ariaLabel := elements[i].ariaLabel.GetOr("");
      var text := elements[i].textContent.GetOr("");
      if || Contains(ariaLabel, "Reacted")
         || Contains(ariaLabel, "reactions")
         || Contains(text, "Reacted")
         || Contains(Lower(ariaLabel), Lower(kind))
      {
        return true;
      }
    }
    return false;
  }

  /**
   * `verifyReaction(page, reactionType)`: the scan's answer for the
   * lower-cased kind, or `false` when evaluating the scan fails (`None`).
   */
  function VerifyReaction(page: Option<seq<Element>>, reactionType: string): (verified: bool)
    ensures verified ==> page.Some? && page.value != []
  {
    match page
    case None => false
    case Some(elements) => ReactionShown(elements, Lower(reactionType))
  }

  /** Lower-casing twice is lower-casing once. */
  lemma LowerIdempotent(s: string)
    ensures Lower(Lower(s)) == Lower(s)
  {
    forall i | 0 <= i < |s| ensures Lower(Lower(s))[i] == Lower(s)[i] {
      assert LowerChar(LowerChar(s[i])) == LowerChar(s[i]);
    }
  }

  /** Every string contains itself. */
  lemma ContainsSelf(s: string)
    ensures Contains(s, s)
  {
    assert OccursAt(s, s, 0);
  }

  /**
   * An element whose label equals the requested kind up to ASCII case is
   * enough for the scan to report the reaction.
   */
  lemma LabelNamingKindVerifies(elements: seq<Element>, i: nat, reactionType: string)
    requires i < |elements|
    requires elements[i].ariaLabel.Some? && Lower(elements[i].ariaLabel.value) == Lower(reactionType)
    ensures VerifyReaction(Some(elements), reactionType)
  {
    var kind := Lower(reactionType);
    LowerIdempotent(reactionType);
    ContainsSelf(kind);
    assert Lower(elements[i].ariaLabel.GetOr("")) == kind == Lower(kind);
    assert Indicates(elements[i], kind);
  }

  /**
   * An element labelled with `Reacted` makes the scan succeed whatever kind
   * was requested.
   */
  lemma ReactedLabelVerifiesAnyKind(elements: seq<Element>, i: nat, reactionType: string)
    requires i < |elements|
    requires elements[i].ariaLabel == Some("Reacted")
    ensures VerifyReaction(Some(elements), reactionType)
  {
    ContainsSelf("Reacted");
    assert Indicates(elements[i], Lower(reactionType));
  }

  /**
   * With an empty kind the label test holds for every element, so the scan
   * succeeds exactly when the page has any matching element at all.
   */
  lemma EmptyKindMatchesAnyElement(elements: seq<Element>)
    ensures VerifyReaction(Some(elements), "") <==> elements != []
  {
    if elements != [] {
      assert OccursAt(Lower(elements[0].ariaLabel.GetOr("")), Lower(Lower("")), 0);
      assert Indicates(elements[0], Lower(""));
    }
  }
}
