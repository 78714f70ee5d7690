/**
 * The two fixed tables `selectReaction` consults: reaction kind to label,
 * selector and emoji, and reaction kind to a click offset from the Like
 * button. Lookups are exact (case-sensitive) and fall back to `LOVE`.
 */
module Reactions {
  import opened Wrappers
  import opened Text

  /** One entry of the label table. */
  datatype Reaction = Reaction(selector: string, ariaLabel: string, emoji: string)

  /** A click offset relative to the Like button's top-left corner. */
  datatype Offset = Offset(x: int, y: int)

  /** The keys of both tables, in the order the source lists them. */
  const Kinds: seq<string> := ["LIKE", "LOVE", "CARE", "HAHA", "WOW", "SAD", "ANGRY"]

  /** A label-table row: the control is found by its `aria-label`. */
  function Labelled(ariaLabel: string, emoji: string): Reaction {
    Reaction("[aria-label=\"" + ariaLabel + "\"]", ariaLabel, emoji)
  }

  const ReactionMap: map<string, Reaction> := map[
    "LIKE" := Labelled("Like", "\U{1F44D}"),
    "LOVE" := Labelled("Love", "\U{2764}\U{FE0F}"),
    "CARE" := Labelled("Care", "\U{1F970}"),
    "HAHA" := Labelled("Haha", "\U{1F606}"),
    "WOW" := Labelled("Wow", "\U{1F62F}"),
    "SAD" := Labelled("Sad", "\U{1F622}"),
    "ANGRY" := Labelled("Angry", "\U{1F620}")
  ]

  const Positions: map<string, Offset> := map[
    "LIKE" := Offset(0, -60),
    "LOVE" := Offset(50, -60),
    "CARE" := Offset(100, -60),
    "HAHA" := Offset(150, -60),
    "WOW" := Offset(200, -60),
    "SAD" := Offset(250, -60),
    "ANGRY" := Offset(300, -60)
  ]

  /** `reactionMap[reactionType] || reactionMap.LOVE`. */
  function LookupReaction(reactionType: string): (r: Reaction)
    ensures r.selector == "[aria-label=\"" + r.ariaLabel + "\"]"
  {
    if reactionType in ReactionMap then ReactionMap[reactionType] else ReactionMap["LOVE"]
  }

  /** `positions[reactionType] || positions.LOVE`. */
  function LookupOffset(reactionType: string): (p: Offset)
    ensures p.y == -60 && 0 <= p.x <= 300 && p.x % 50 == 0
  {
    if reactionType in Positions then Positions[reactionType] else Positions["LOVE"]
  }

  /** A kind written the way the table keys are: first letter kept, the rest in lower case. */
  function Capitalised(kind: string): string {
    if kind == [] then [] else [kind[0]] + Lower(kind[1..])
  }

  /**
   * The position in `Kinds` of the entry both tables resolve `reactionType`
   * to: its own position when it is a key, else `LOVE`'s.
   */
  function KindIndex(reactionType: string): (i: nat)
    ensures i < |Kinds|
    ensures reactionType in Kinds ==> Kinds[i] == reactionType
    ensures reactionType !in Kinds ==> Kinds[i] == "LOVE"
  {
    if reactionType == "LIKE" then 0
    else if reactionType == "LOVE" then 1
    else if reactionType == "CARE" then 2
    else if reactionType == "HAHA" then 3
    else if reactionType == "WOW" then 4
    else if reactionType == "SAD" then 5
    else if reactionType == "ANGRY" then 6
    else 1
  }

  /**
   * Both lookups resolve to the same kind: the label is that kind's key
   * capitalised and the offset is `(50 * i, -60)` for its position i, so
   * the labelled click and the coordinate click always aim at one kind.
   */
  lemma LookupsAgree(reactionType: string)
    ensures var i := KindIndex(reactionType);
      && LookupReaction(reactionType) == ReactionMap[Kinds[i]]
      && LookupReaction(reactionType).ariaLabel == Capitalised(Kinds[i])
      && LookupOffset(reactionType) == Positions[Kinds[i]] == Offset(50 * i, -60)
  {
    LabelRow(KindIndex(reactionType));
    OffsetRow(KindIndex(reactionType));
  }

  /** Row i of the offset table is 50 * i pixels along. */
  lemma OffsetRow(i: nat)
    requires i < |Kinds|
    ensures Kinds[i] in Positions && Positions[Kinds[i]] == Offset(50 * i, -60)
  {
  }

  /** Row i of the label table carries the key capitalised. */
  lemma LabelRow(i: nat)
    requires i < |Kinds|
    ensures Kinds[i] in ReactionMap && ReactionMap[Kinds[i]].ariaLabel == Capitalised(Kinds[i])
  {
    var k := Kinds[i];
    var shown := ReactionMap[k].ariaLabel;
    assert |shown| == |k| && shown[0] == k[0];
    assert forall j :: 1 <= j < |k| ==> shown[j] == LowerChar(k[j]);
    assert Lower(k[1..]) == shown[1..];
  }

  /** Both tables have exactly the seven kinds as keys. */
  lemma TableKeys()
    ensures ReactionMap.Keys == Positions.Keys == set k | k in Kinds
  {
  }

  /**
   * Any string that is not one of the seven upper-case keys gets `LOVE`'s
   * entry and offset.
   */
  lemma UnknownKindFallsBackToLove(reactionType: string)
    requires reactionType !in Kinds
    ensures LookupReaction(reactionType) == Reaction("[aria-label=\"Love\"]", "Love", "\U{2764}\U{FE0F}")
    ensures LookupOffset(reactionType) == Offset(50, -60)
  {
  }

  /**
   * Lookups are case-sensitive: a kind with a lower-case letter in it, such
   * as `Haha`, is not a key and resolves to `LOVE`.
   */
  lemma LowerCaseLetterMeansLove(reactionType: string, j: nat)
    requires j < |reactionType| && 'a' <= reactionType[j] <= 'z'
    ensures reactionType !in Kinds
    ensures LookupReaction(reactionType).ariaLabel == "Love"
  {
    assert !IsUpperWord(reactionType);
    assert IsUpperWord("LIKE") && IsUpperWord("LOVE") && IsUpperWord("CARE") && IsUpperWord("HAHA");
    assert IsUpperWord("WOW") && IsUpperWord("SAD") && IsUpperWord("ANGRY");
  }

  /** Every letter of `s` is an upper-case ASCII letter. */
  predicate IsUpperWord(s: string) {
    forall i :: 0 <= i < |s| ==> 'A' <= s[i] <= 'Z'
  }

  /** The page as the reaction menu leaves it, as far as `selectReaction` looks at it. */
  datatype Menu = Menu(
    /** The selectors `waitForSelector` and `$` find, hover and click without error. */
    clickable: set<string>,
    /** The bounding box of `div[aria-label="Like"][role="button"]`, when there is one. */
    likeButton: Option<Rect>)

  /** A bounding box; only its corner matters for the fallback click. */
  datatype Rect = Rect(x: int, y: int, width: int, height: int)

  /** How the reaction was chosen. */
  datatype Click = LabelClick(selector: string) | PointClick(x: int, y: int)

  /**
   * `selectReaction`: click the labelled control when the menu has it, else
   * click at the table offset from the Like button's corner, else fail.
   */
  function SelectReaction(reactionType: string, menu: Menu): (click: Option<Click>)
    ensures click.Some? <==> LookupReaction(reactionType).selector in menu.clickable || menu.likeButton.Some?
    ensures click.Some? && click.value.LabelClick? ==> click.value.selector in menu.clickable
  {
    var reaction := LookupReaction(reactionType);
    if reaction.selector in menu.clickable then Some(LabelClick(reaction.selector))
    else match menu.likeButton
      case Some(rect) =>
        var pos := LookupOffset(reactionType);
        Some(PointClick(rect.x + pos.x, rect.y + pos.y))
      case None => None
  }

  /** `Haha` is not a key: with the Love control in the menu, that is what gets clicked. */
  lemma MixedCaseSelectsLove(menu: Menu)
    requires "[aria-label=\"Love\"]" in menu.clickable
    ensures SelectReaction("Haha", menu) == Some(LabelClick("[aria-label=\"Love\"]"))
  {
    LowerCaseLetterMeansLove("Haha", 1);
    UnknownKindFallsBackToLove("Haha");
  }

  /**
   * The labelled control is preferred. Without it, the click lands 50 * i
   * pixels right of and 60 above the Like button's corner, where i is the
   * position of the kind the label table resolved, so both strategies aim at
   * the same kind.
   */
  lemma SelectionStrategies(reactionType: string, menu: Menu)
    ensures var reaction := LookupReaction(reactionType);
      reaction.selector in menu.clickable ==> SelectReaction(reactionType, menu) == Some(LabelClick(reaction.selector))
    ensures var i := KindIndex(reactionType);
      && LookupReaction(reactionType).selector !in menu.clickable
      && menu.likeButton.Some?
      ==> && LookupReaction(reactionType) == ReactionMap[Kinds[i]]
          && SelectReaction(reactionType, menu)
             == Some(PointClick(menu.likeButton.value.x + 50 * i, menu.likeButton.value.y - 60))
  {
    LookupsAgree(reactionType);
  }
}
