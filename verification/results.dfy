/**
 The results page: the marks read back from storage, listed in order, with an
 edit mode in which each mark can be flipped and a save that writes the list
 back to storage and leaves edit mode.
 */
module Results {
  import opened Attendance
  import Deck

  /** The page's state: the marks on show and whether edit mode is on. */
  datatype Page = Page(results: seq<SwipeResult>, editing: bool)

  /** The page after mounting: the stored list when the key is present, the
      empty list otherwise, not in edit mode. */
  function Load(st: Storage): (p: Page)
    ensures !p.editing
    ensures st.swipeResults.Some? ==> p.results == st.swipeResults.value
    ensures st.swipeResults.None? ==> p.results == []
  {
    match st.swipeResults
    case Some(stored) => Page(stored, false)
    case None => Page([], false)
  }

  /** toggleDirection: flip the mark at position `i`; its id and every other
      mark stay as they were. */
  function Toggle(p: Page, i: int): (q: Page)
    requires 0 <= i < |p.results|
    ensures |q.results| == |p.results|
    ensures q.results[i].id == p.results[i].id
    ensures q.results[i].direction.Right? <==> p.results[i].direction.Left?
    ensures forall j :: 0 <= j < |p.results| && j != i ==> q.results[j] == p.results[j]
    ensures q.editing == p.editing
  {
    var entry := p.results[i];
    p.(results := p.results[i := entry.(direction := Flip(entry.direction))])
  }

  /** handleEdit: enter edit mode; the list is untouched. */
  function Edit(p: Page): (q: Page)
    ensures q.editing && q.results == p.results
  {
    p.(editing := true)
  }

  /** handleSave: write the list under the storage key and leave edit mode. */
  function Save(p: Page, st: Storage): (r: (Page, Storage))
    ensures !r.0.editing && r.0.results == p.results
    ensures r.1.swipeResults == Some(p.results)
  {
    (p.(editing := false), st.(swipeResults := Some(p.results)))
  }

  /** Flipping the same mark twice gives back the original list. */
  lemma ToggleTwice(p: Page, i: int)
    requires 0 <= i < |p.results|
    ensures Toggle(Toggle(p, i), i) == p
  {
  }

  /** Flips at two positions do not interfere. */
  lemma ToggleCommutes(p: Page, i: int, j: int)
    requires 0 <= i < |p.results| && 0 <= j < |p.results|
    ensures Toggle(Toggle(p, i), j) == Toggle(Toggle(p, j), i)
  {
  }

  /** Flipping never rewrites an id, so the ids on the page, and their being
      pairwise distinct, are kept. */
  lemma ToggleKeepsIds(p: Page, i: int)
    requires 0 <= i < |p.results|
    ensures IdSet(Toggle(p, i).results) == IdSet(p.results)
    ensures DistinctIds(p.results) ==> DistinctIds(Toggle(p, i).results)
  {
  }

  /** What is saved is what the next visit loads. */
  lemma SaveThenLoad(p: Page, st: Storage)
    ensures Load(Save(p, st).1) == Page(p.results, false)
  {
  }

  /** Handing over from the deck: the results page shows the deck's history
      exactly, and so at most one mark per card and no more marks than cards. */
  lemma HandOff(s: Deck.DeckState, st: Storage)
    requires Deck.Inv(s)
    ensures Load(Deck.GoToResults(s, st)).results == s.history
    ensures DistinctIds(Load(Deck.GoToResults(s, st)).results)
    ensures |Load(Deck.GoToResults(s, st)).results| <= |Deck.Cards|
  {
    Deck.HistoryBounded(s);
  }

  /** An edit session (enter edit mode, flip one mark, save) stores the list
      with exactly that mark flipped and the ids still distinct. */
  lemma EditSession(p: Page, st: Storage, i: int)
    requires 0 <= i < |p.results|
    requires DistinctIds(p.results)
    ensures
      var saved := Save(Toggle(Edit(p), i), st);
      && !saved.0.editing
      && saved.1.swipeResults.Some?
      && var stored := saved.1.swipeResults.value;
      && |stored| == |p.results|
      && stored[i] == SwipeResult(p.results[i].id, Flip(p.results[i].direction))
      && (forall j :: 0 <= j < |p.results| && j != i ==> stored[j] == p.results[j])
      && DistinctIds(stored)
  {
    ToggleKeepsIds(Edit(p), i);
  }
}
