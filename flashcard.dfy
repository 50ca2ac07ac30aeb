/**
 * Flashcard mode: the rows are shown in shuffled order, first the front
 * (field 0), then front and back (field 1) together, under a "Card i of n"
 * counter; the last card asks to finish instead of going to the next card.
 */
module Flashcard {
  import opened Shuffle

  /** A flashcard row: field 0 is the front, field 1 the back. */
  datatype Card = Card(front: string, back: string)

  /** The prompt under the revealed card. */
  datatype NextPrompt = NextCard | FinishReview

  /** One card as shown: its counter, the total, the row it comes from, the two
      sides and the prompt that follows. */
  datatype View = View(number: nat, total: nat, row: nat, front: string, back: string,
                       prompt: NextPrompt)

  /** The view of the i-th card shown when row `r` comes i-th. */
  function ViewOf(cards: seq<Card>, i: nat, r: nat): View
    requires r < |cards|
  {
    View(i + 1, |cards|, r, cards[r].front, cards[r].back,
         if i < |cards| - 1 then NextCard else FinishReview)
  }

  method FlashcardMode(cards: seq<Card>, coins: seq<bool>) returns (views: seq<View>)
    ensures |views| == |cards|
    ensures forall i :: 0 <= i < |cards| ==>
              views[i] == ViewOf(cards, i, Shuffled(0, |cards|, coins)[i])
    ensures views == Session(cards, coins)
  {
    var idx := ShuffleIndices(0, |cards|, coins);
    views := [];
    for i := 0 to |cards|
      invariant |views| == i
      invariant forall k :: 0 <= k < i ==> views[k] == ViewOf(cards, k, idx[k])
    {
      var front := cards[idx[i]].front;
      var back := cards[idx[i]].back;
      var next := if i < |cards| - 1 then NextCard else FinishReview;
      views := views + [View(i + 1, |cards|, idx[i], front, back, next)];
    }
  }

  /** The views of a session, as the mode computes them. */
  function Session(cards: seq<Card>, coins: seq<bool>): (views: seq<View>)
    ensures |views| == |cards|
  {
    var idx := Shuffled(0, |cards|, coins);
    seq(|cards|, i requires 0 <= i < |cards| => ViewOf(cards, i, idx[i]))
  }

  /** Every card is shown exactly once: the rows of the views are a permutation
      of the card indices. */
  lemma EachCardShownOnce(cards: seq<Card>, coins: seq<bool>, a: int, b: int)
    requires 0 <= a < b < |cards|
    ensures Session(cards, coins)[a].row != Session(cards, coins)[b].row
  {
    ShuffledDistinct(0, |cards|, coins, a, b);
  }

  lemma EveryCardShown(cards: seq<Card>, coins: seq<bool>, r: int)
    requires 0 <= r < |cards|
    ensures exists i :: 0 <= i < |cards| && Session(cards, coins)[i].row == r
  {
    ShuffledCovers(0, |cards|, coins, r);
    var idx := Shuffled(0, |cards|, coins);
    var i :| 0 <= i < |idx| && idx[i] == r;
    assert Session(cards, coins)[i].row == r;
  }

  /** The back always belongs to the same card as the front, and the counter
      runs 1..n against the fixed total n. */
  lemma FrontAndBackMatch(cards: seq<Card>, coins: seq<bool>, i: int)
    requires 0 <= i < |cards|
    ensures var v := Session(cards, coins)[i];
            v.row < |cards| && cards[v.row] == Card(v.front, v.back)
    ensures Session(cards, coins)[i].number == i + 1 && Session(cards, coins)[i].total == |cards|
  {
  }

  /** Only the last card asks to finish the review. */
  lemma OnlyLastCardFinishes(cards: seq<Card>, coins: seq<bool>, i: int)
    requires 0 <= i < |cards|
    ensures Session(cards, coins)[i].prompt == FinishReview <==> i == |cards| - 1
  {
  }
}
