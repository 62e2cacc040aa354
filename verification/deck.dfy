/**
 The attendance deck: a fixed stack of fourteen cards shown one at a time.
 Swiping (by button or by drag) marks the current card left or right, records
 the mark in the swipe history, pushes the current position on an undo stack
 and moves to the next card, or finishes the deck after the last one. Going
 back pops the undo stack into the current position and leaves the history
 alone.

 The swipe animation is not modelled: a swipe is one atomic step, so the
 `animating` flag only ever acts as a guard.
 */
module Deck {
  import opened Attendance

  datatype Card = Card(id: int, image: string, title: string)

  /** The deck, in display order; ids are 1 to 14. */
  const Cards: seq<Card> := [
    Card(1, "/card.jpg", "Card One"),
    Card(2, "/card.jpg", "Card Two"),
    Card(3, "/card.jpg", "Card Three"),
    Card(4, "/card.jpg", "Card Four"),
    Card(5, "/card.jpg", "Card Five"),
    Card(6, "/card.jpg", "Card Six"),
    Card(7, "/card.jpg", "Card Seven"),
    Card(8, "/card.jpg", "Card Eight"),
    Card(9, "/card.jpg", "Card Nine"),
    Card(10, "/card.jpg", "Card Ten"),
    Card(11, "/card.jpg", "Card Eleven"),
    Card(12, "/card.jpg", "Card Twelve"),
    Card(13, "/card.jpg", "Card Thirteen"),
    Card(14, "/card.jpg", "Card Fourteen")
  ]

  /** The argument of a swipe: `-1` for left, `1` for right. */
  type Sign = d: int | d == -1 || d == 1 witness 1

  /** Minimum drag speed (pixels per second) and drag distance (pixels) that
      turn a released drag into a swipe. */
  const FlingVelocity: real := 500.0
  const FlingOffset: real := 100.0

  /** The component's state. `previous` is the undo stack, top last. */
  datatype DeckState = DeckState(
    index: int,
    finished: bool,
    animating: bool,
    history: seq<SwipeResult>,
    previous: seq<int>)

  predicate ValidIndex(i: int)
  {
    0 <= i < |Cards|
  }

  predicate IsCardId(id: int)
  {
    exists k :: 0 <= k < |Cards| && Cards[k].id == id
  }

  /** The deck's ids are its positions plus one, so they are pairwise distinct. */
  lemma CardIdsArePositions()
    ensures forall k :: 0 <= k < |Cards| ==> Cards[k].id == k + 1
    ensures forall i, j :: 0 <= i < j < |Cards| ==> Cards[i].id != Cards[j].id
    ensures forall id :: IsCardId(id) <==> 1 <= id <= |Cards|
  {
    forall id | 1 <= id <= |Cards|
      ensures IsCardId(id)
    {
      assert Cards[id - 1].id == id;
    }
  }

  /** Input is blocked while a card is animating away and once the deck is done. */
  predicate Blocked(s: DeckState)
  {
    s.animating || s.finished
  }

  /** What every reachable state satisfies: the position and every stacked
      position are cards of the deck, and the history holds at most one mark
      per card, each for a card of the deck. */
  predicate Inv(s: DeckState)
  {
    && ValidIndex(s.index)
    && (forall k :: 0 <= k < |s.previous| ==> ValidIndex(s.previous[k]))
    && DistinctIds(s.history)
    && (forall k :: 0 <= k < |s.history| ==> IsCardId(s.history[k].id))
  }

  /** The state on mount. */
  function Init(): (s: DeckState)
    ensures Inv(s) && !Blocked(s)
    ensures s.index == 0 && s.history == [] && s.previous == []
  {
    DeckState(0, false, false, [], [])
  }

  /** A swipe's direction: `1` is right, `-1` is left. */
  function DirectionOf(d: Sign): (r: Direction)
    ensures r.Right? <==> d == 1
    ensures r.Left? <==> d == -1
  {
    if d == 1 then Right else Left
  }

  /** Every mark in the upserted history is for a card of the deck when the
      old marks and the new one are. */
  lemma UpsertKeepsCardIds(h: seq<SwipeResult>, e: SwipeResult)
    requires forall k :: 0 <= k < |h| ==> IsCardId(h[k].id)
    requires IsCardId(e.id)
    ensures forall k :: 0 <= k < |Upsert(h, e)| ==> IsCardId(Upsert(h, e)[k].id)
  {
  }

  /** handleSwipe with its animation continuation folded in. */
  function Swipe(s: DeckState, d: Sign): (t: DeckState)
    requires !Blocked(s) ==> ValidIndex(s.index)
    ensures Blocked(s) ==> t == s
    ensures !Blocked(s) ==>
      var id := Cards[s.index].id;
      var last := |t.history| - 1;
      && |t.history| > 0
      && t.history[last] == SwipeResult(id, DirectionOf(d))
      && (forall k :: 0 <= k < |t.history| && t.history[k].id == id ==> k == last)
      && (forall x :: multiset(t.history[..last])[x] == if x.id == id then 0 else multiset(s.history)[x])
      && (forall x :: x in t.history[..last] <==> x in s.history && x.id != id)
      && IsSubsequence(t.history[..last], s.history)
      && t.previous == s.previous + [s.index]
      && (if s.index + 1 == |Cards| then t.index == s.index && t.finished
          else t.index == s.index + 1 && !t.finished)
      && !t.animating
  {
    if Blocked(s) then s
    else
      var id := Cards[s.index].id;
      var history := Upsert(s.history, SwipeResult(id, DirectionOf(d)));
      var previous := s.previous + [s.index];
      if s.index + 1 == |Cards| then
        s.(history := history, previous := previous, finished := true)
      else
        s.(history := history, previous := previous, index := s.index + 1)
  }

  /** A swipe keeps the state invariant. */
  lemma SwipeKeepsInv(s: DeckState, d: Sign)
    requires Inv(s)
    ensures Inv(Swipe(s, d))
  {
    if !Blocked(s) {
      var e := SwipeResult(Cards[s.index].id, DirectionOf(d));
      assert IsCardId(e.id);
      UpsertKeepsCardIds(s.history, e);
    }
  }

  function Abs(x: real): (r: real)
    ensures r >= 0.0 && (r == x || r == -x)
  {
    if x < 0.0 then -x else x
  }

  /** A released drag is a swipe when it was fast enough or went far enough. */
  predicate Flung(velocityX: real, offsetX: real)
  {
    Abs(velocityX) > FlingVelocity || Abs(offsetX) > FlingOffset
  }

  /** handleDragEnd: a flung card is swiped right when it was dragged to the
      right and left otherwise; any other drag springs back. */
  function DragEnd(s: DeckState, velocityX: real, offsetX: real): (t: DeckState)
    requires !Blocked(s) ==> ValidIndex(s.index)
    ensures Blocked(s) || !Flung(velocityX, offsetX) ==> t == s
    ensures !Blocked(s) && Flung(velocityX, offsetX) ==>
      t == Swipe(s, if offsetX > 0.0 then 1 else -1)
  {
    if Blocked(s) then s
    else if Flung(velocityX, offsetX) then Swipe(s, if offsetX > 0.0 then 1 else -1)
    else s
  }

  /** handlePrevious: pop the undo stack into the current position. Nothing
      else moves, and an empty stack changes nothing. */
  function Previous(s: DeckState): (t: DeckState)
    ensures |s.previous| == 0 ==> t == s
    ensures |s.previous| > 0 ==>
      t.previous + [t.index] == s.previous
    ensures t.history == s.history && t.finished == s.finished && t.animating == s.animating
    ensures Inv(s) ==> Inv(t)
  {
    if |s.previous| > 0 then
      var top := |s.previous| - 1;
      s.(index := s.previous[top], previous := s.previous[..top])
    else s
  }

  /** goToResults: write the history under the storage key. */
  function GoToResults(s: DeckState, st: Storage): (st': Storage)
    ensures st'.swipeResults.Some? && st'.swipeResults.value == s.history
  {
    st.(swipeResults := Some(s.history))
  }

  /** Undo after a swipe brings back the swiped card and the stack as it was,
      but keeps the mark the swipe made. */
  lemma SwipeThenPrevious(s: DeckState, d: Sign)
    requires !Blocked(s) && ValidIndex(s.index)
    ensures Previous(Swipe(s, d)).index == s.index
    ensures Previous(Swipe(s, d)).previous == s.previous
    ensures Previous(Swipe(s, d)).history == Swipe(s, d).history
  {
  }

  /** Going back to a card and swiping it again replaces its mark: the card
      keeps exactly one entry, carrying the new direction. */
  lemma ReswipeReplaces(s: DeckState, d1: Sign, d2: Sign)
    requires !Blocked(s) && ValidIndex(s.index) && s.index + 1 < |Cards|
    ensures Swipe(Previous(Swipe(s, d1)), d2).history ==
      Upsert(s.history, SwipeResult(Cards[s.index].id, DirectionOf(d2)))
  {
    var t := Swipe(s, d1);
    var u := Previous(t);
    SwipeThenPrevious(s, d1);
    var id := Cards[s.index].id;
    UpsertOverwrites(s.history, SwipeResult(id, DirectionOf(d1)), SwipeResult(id, DirectionOf(d2)));
  }

  /** A released drag changes the deck exactly when input is open and the
      drag was a fling; the mark it makes is right exactly when the card was
      dragged to the right. */
  lemma DragEndSwipesIff(s: DeckState, velocityX: real, offsetX: real)
    requires !Blocked(s) ==> ValidIndex(s.index)
    ensures DragEnd(s, velocityX, offsetX) != s <==> !Blocked(s) && Flung(velocityX, offsetX)
    ensures DragEnd(s, velocityX, offsetX) != s ==>
      var h := DragEnd(s, velocityX, offsetX).history;
      |h| > 0 && (h[|h| - 1].direction.Right? <==> offsetX > 0.0)
  {
  }

  /** The history never outgrows the deck. */
  lemma HistoryBounded(s: DeckState)
    requires Inv(s)
    ensures |s.history| <= |Cards|
  {
    CardIdsArePositions();
    DistinctIdsInRange(s.history, 1, |Cards| + 1);
  }

  /** A user event on the deck screen. */
  datatype Event = Pressed(d: Sign) | Released(velocityX: real, offsetX: real) | Back

  function Step(s: DeckState, e: Event): (t: DeckState)
    requires Inv(s)
    ensures Inv(t)
  {
    match e
    case Pressed(d) =>
      SwipeKeepsInv(s, d);
      Swipe(s, d)
    case Released(v, o) =>
      SwipeKeepsInv(s, if o > 0.0 then 1 else -1);
      DragEnd(s, v, o)
    case Back => Previous(s)
  }

  /** Any sequence of events from a valid state ends in a valid state with at
      most one mark per card. */
  function Run(s: DeckState, events: seq<Event>): (t: DeckState)
    requires Inv(s)
    ensures Inv(t)
    ensures |t.history| <= |Cards|
    decreases |events|
  {
    if |events| == 0 then
      HistoryBounded(s);
      s
    else Run(Step(s, events[0]), events[1..])
  }
}
