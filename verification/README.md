# Attendance swipe deck, modelled in Dafny

The program is a browser attendance marker. A deck of fourteen cards is shown
one card at a time. Swiping a card right marks it present, and swiping it left
marks it absent. The user can swipe by button or by drag, and can step back to
an earlier card to re-mark it. A results page then lists the marks, lets the
user flip any of them in edit mode, and saves the list back to local storage.

The model holds two state machines, written as pure step functions over
immutable records:

- `attendance.dfy` (module `Attendance`) holds the shared vocabulary: `Direction`,
  the `SwipeResult` record `{id, direction}`, and `Storage`, which is local
  storage reduced to its one `swipeResults` key. It also holds the history
  bookkeeping, "filter out this id, then append": `RemoveId` and `Upsert`.
- `deck.dfy` (module `Deck`) models the card deck: the `Cards` constant, the state
  (`index`, `finished`, `animating`, `history`, `previous`) and the steps
  `Swipe`, `DragEnd`, `Previous` and `GoToResults`. `Inv` is the state
  invariant. Every step keeps it, and `Run` folds any sequence of user events
  while keeping it.
- `results.dfy` (module `Results`) models the results page: `Load` on mount,
  `Toggle`, `Edit` and `Save`, and the hand-off from the deck.

A swipe is one atomic step. The animation's continuation (advance the index,
or finish the deck) is folded into the same call, so `animating` only ever
acts as a guard and is false after every step. Drag velocity and offset are
`real` values, so the threshold comparisons are exact.

## Model

| member | source | states |
|---|---|---|
| `Attendance.Flip` | src/app/results/page.tsx:28 | the flipped direction differs from the old one; it is left exactly when the old one was right |
| `Attendance.RemoveId` | src/components/SwipeCards.tsx:55 | a record is in the filtered history exactly when it is in the input with another id; the result is a subsequence of the input, so relative order is kept; it keeps ids distinct and is no longer than the input (copy counts are stated by `Attendance.RemoveIdCounts`) |
| `Attendance.Upsert` | src/components/SwipeCards.tsx:54-57 | after filter-then-push, the new mark is last and is the only record with its id; the earlier records are the other ids' records with their multiplicities, in their old order; distinct ids are kept; the id set gains exactly the new id |
| `Attendance.RemoveIdCounts` | src/components/SwipeCards.tsx:55 | filtering keeps each record of another id exactly as many times as it occurs, and no record of the filtered id (multiset counts) |
| `Attendance.UpsertOverwrites` | src/components/SwipeCards.tsx:54-57 | marking the same card twice leaves the history as if only the second mark had been made |
| `Attendance.RemoveIdIdempotent` | src/components/SwipeCards.tsx:55 | filtering an id a second time changes nothing |
| `Attendance.RemoveIdAppend` | src/components/SwipeCards.tsx:55 | filtering distributes over concatenation |
| `Attendance.DistinctIdsInRange` | src/components/SwipeCards.tsx:55-56 | pigeonhole: records with distinct ids drawn from `lo..hi-1` number at most `hi - lo` |
| `Deck.CardIdsArePositions` | src/components/SwipeCards.tsx:14-28 | the card at position k has id k+1, so card ids are pairwise distinct and are exactly 1..14 |
| `Deck.Init` | src/components/SwipeCards.tsx:31-37 | the state on mount is unblocked, at card 0, with empty history and undo stack, and satisfies the invariant |
| `Deck.DirectionOf` | src/components/SwipeCards.tsx:47 | `1` maps to right and `-1` maps to left, both ways |
| `Deck.Swipe` | src/components/SwipeCards.tsx:44-84 | when animating or finished the whole state is unchanged; otherwise the current card's mark is last, is its only record, and carries the chosen direction; every other record is kept with its multiplicity, in order; the old index is pushed on the undo stack; the index advances, or on the last card stays put and the deck is finished; animation is off afterwards |
| `Deck.SwipeKeepsInv` | src/components/SwipeCards.tsx:54-80 | a swipe keeps the index and every stacked index in range and keeps at most one mark per card, each for a card of the deck |
| `Deck.DragEnd` | src/components/SwipeCards.tsx:86-103 | when blocked, or when the drag is neither faster than 500 nor farther than 100, nothing changes; otherwise it is a swipe, right when the offset is positive and left otherwise |
| `Deck.DragEndSwipesIff` | src/components/SwipeCards.tsx:92-101 | a drag changes the state iff input is open and the drag was a fling; the mark it makes is right iff the offset is positive, so a fast drag with non-positive offset marks left |
| `Deck.Previous` | src/components/SwipeCards.tsx:110-117 | on a non-empty stack the new index is the old top and the new stack plus that index is the old stack; an empty stack changes nothing; history and flags are never touched; the invariant is kept |
| `Deck.SwipeThenPrevious` | src/components/SwipeCards.tsx:110-117 | going back right after a swipe restores the swiped card's index and the undo stack, and keeps the mark the swipe made |
| `Deck.ReswipeReplaces` | src/components/SwipeCards.tsx:54-61 | going back to a card and swiping it again leaves a history as if only the second swipe had been made; its requires leaves out the last card, because swiping the last card finishes the deck and the second swipe is then a no-op (src/components/SwipeCards.tsx:45, 76-77) |
| `Deck.HistoryBounded` | src/components/SwipeCards.tsx:55-56 | under the invariant the history is never longer than the deck |
| `Deck.GoToResults` | src/components/SwipeCards.tsx:105-108 | the storage key now holds the deck's history |
| `Deck.Step` | src/components/SwipeCards.tsx:44-117 | each user event (button swipe, drag release, back) keeps the invariant |
| `Deck.Run` | src/components/SwipeCards.tsx:30-117 | any sequence of events from a valid state ends in a valid state whose history has at most one mark per card and at most fourteen marks |
| `Results.Load` | src/app/results/page.tsx:15-20 | after mount the page shows the stored list when the key is present and the empty list otherwise, not in edit mode |
| `Results.Toggle` | src/app/results/page.tsx:23-32 | the list keeps its length; the entry at i keeps its id and has left and right swapped; every other entry and the edit flag are unchanged |
| `Results.Edit` | src/app/results/page.tsx:41-43 | edit mode is on and the list is untouched |
| `Results.Save` | src/app/results/page.tsx:35-38 | edit mode is off, the list is untouched, and storage holds exactly the list |
| `Results.ToggleTwice` | src/app/results/page.tsx:28 | toggling the same position twice gives back the original page |
| `Results.ToggleCommutes` | src/app/results/page.tsx:25-30 | toggles at two positions commute |
| `Results.ToggleKeepsIds` | src/app/results/page.tsx:27 | a toggle keeps the set of ids and keeps them pairwise distinct |
| `Results.SaveThenLoad` | src/app/results/page.tsx:15-20 | what a save stores is what the next mount shows |
| `Results.HandOff` | src/components/SwipeCards.tsx:105-108 | the results page mounted after the deck shows the deck's history exactly, with distinct ids and at most fourteen entries |
| `Results.EditSession` | src/app/results/page.tsx:35-43 | edit, flip one entry, save: storage holds the list with exactly that entry's direction flipped, its id kept, and ids still distinct |

## Left out

- Rendering, styles, `CardContent` and the image component: presentational only.
- The swipe and spring-back animations, `AnimatePresence` and the promise chain are not modelled. A swipe is one atomic transition, and `animating` is only a guard.
- The `lastSwipe` notice (cleared after 2500 ms) and the `wave` flag (cleared after 720 ms) are timer-driven display flags with no effect on the marks.
- JSON encoding is not modelled: storage holds the list itself. Malformed stored text is therefore not representable. In the code, `JSON.parse` would throw on it, rather than the page silently showing an empty list.
- Navigation (`router.push`, links) and the placeholder `handleSubmit` alert are I/O with no logic.
- NaN and infinite drag values are not modelled; velocity and offset are finite `real` numbers.
- `Deck.Previous` is modelled as the function is written. The UI disables its button while animating or when the stack is empty, and the finished screen has no such button; the function itself checks only for an empty stack.
- `Results.Toggle` requires an in-range position. Out of range, the code reads a field of `undefined` and throws, and the page only offers in-range positions.
- `Deck.Swipe` requires a valid index only when the guard lets the call through, because only then does the code read the card at `index`.
