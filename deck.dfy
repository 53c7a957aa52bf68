/** The deck of flashcards: cards, the section filter of a study session and
    the union of all tags that the home screen offers as sections. */
module Deck {

  type CardId = int

  /** One question/answer card as loaded from the deck; `tags` are its sections. */
  datatype Card = Card(id: CardId, question: string, answer: string, tags: seq<string>)

  /** A card belongs to the selection when at least one of its tags is selected. */
  predicate Matches(card: Card, selected: seq<string>)
  {
    exists t :: t in card.tags && t in selected
  }

  /** A card matches exactly when its tag set and the selected sections
      have a tag in common. */
  lemma MatchesIffTagsMeetSelection(card: Card, selected: seq<string>)
    ensures Matches(card, selected) <==> (set t | t in card.tags) * (set t | t in selected) != {}
  {
    if Matches(card, selected) {
      var t :| t in card.tags && t in selected;
      assert t in (set t | t in card.tags) * (set t | t in selected);
    }
  }

  /** The scan the filter runs on each card: walk the tags in order and stop
      at the first one the selection includes. */
  function AnySelected(tags: seq<string>, selected: seq<string>): (found: bool)
    ensures found <==> exists t :: t in tags && t in selected
  {
    if tags == [] then false
    else
      assert tags == [tags[0]] + tags[1..];
      tags[0] in selected || AnySelected(tags[1..], selected)
  }

  /** The cards of `deck` that match the selection, in deck order. */
  function Filter(deck: seq<Card>, selected: seq<string>): (pool: seq<Card>)
    ensures |pool| <= |deck|
    ensures forall c {:trigger c in pool} :: c in pool <==> c in deck && Matches(c, selected)
    ensures forall c {:trigger multiset(pool)[c]} :: multiset(pool)[c] == if Matches(c, selected) then multiset(deck)[c] else 0
  {
    if deck == [] then []
    else
      assert deck == [deck[0]] + deck[1..];
      (if AnySelected(deck[0].tags, selected) then [deck[0]] else []) + Filter(deck[1..], selected)
  }

  /** Every tag carried by some card of `cards`. */
  ghost predicate IsTagOf(t: string, cards: seq<Card>)
  {
    exists k :: 0 <= k < |cards| && t in cards[k].tags
  }

  /** The set of sections offered for selection: the union of all card tags,
      gathered card by card and tag by tag. */
  method CollectTags(cards: seq<Card>) returns (tags: set<string>)
    ensures forall t :: t in tags <==> IsTagOf(t, cards)
  {
    tags := {};
    var i := 0;
    while i < |cards|
      invariant 0 <= i <= |cards|
      invariant forall t :: t in tags <==> IsTagOf(t, cards[..i])
    {
      var card := cards[i];
      var j := 0;
      while j < |card.tags|
        invariant 0 <= j <= |card.tags|
        invariant forall t :: t in tags <==> IsTagOf(t, cards[..i]) || t in card.tags[..j]
      {
        tags := tags + {card.tags[j]};
        j := j + 1;
      }
      assert card.tags[..j] == card.tags;
      forall t
        ensures IsTagOf(t, cards[..i + 1]) <==> IsTagOf(t, cards[..i]) || t in card.tags
      {
        assert cards[..i + 1][i] == card;
        if IsTagOf(t, cards[..i]) {
          var k :| 0 <= k < i && t in cards[..i][k].tags;
          assert cards[..i + 1][k] == cards[..i][k];
        }
        if IsTagOf(t, cards[..i + 1]) && !(t in card.tags) {
          var k :| 0 <= k < i + 1 && t in cards[..i + 1][k].tags;
          assert cards[..i + 1][k] == cards[..i][k];
        }
      }
      i := i + 1;
    }
    assert cards[..i] == cards;
  }
}
