/**
 Shared vocabulary of the attendance marker: the two swipe directions, the
 `{id, direction}` record that both the deck and the results page keep, the
 one storage key they exchange it through, and the history bookkeeping
 (remove an id, then append) that keeps at most one record per card.
 */
module Attendance {

  datatype Option<+T> = None | Some(value: T)

  /** `'left'` marks a card absent, `'right'` marks it present. */
  datatype Direction = Left | Right

  /** One mark: the card's id and the direction it was swiped. */
  datatype SwipeResult = SwipeResult(id: int, direction: Direction)

  /** The browser's local storage, reduced to the one key this program uses:
      `swipeResults`, absent until something is written to it. */
  datatype Storage = Storage(swipeResults: Option<seq<SwipeResult>>)

  /** The other direction; what the results page's toggle writes. */
  function Flip(d: Direction): (r: Direction)
    ensures r != d
    ensures r.Left? <==> d.Right?
  {
    if d == Left then Right else Left
  }

  /** At most one record per card id. */
  predicate DistinctIds(h: seq<SwipeResult>)
  {
    forall i, j :: 0 <= i < j < |h| ==> h[i].id != h[j].id
  }

  /** The set of ids that carry a record. */
  function IdSet(h: seq<SwipeResult>): set<int>
  {
    set k | 0 <= k < |h| :: h[k].id
  }

  /** `a` is `b` with some elements dropped and the rest kept in order. */
  predicate IsSubsequence(a: seq<SwipeResult>, b: seq<SwipeResult>)
    decreases |b|
  {
    if |a| == 0 then true
    else if |b| == 0 then false
    else if a[0] == b[0] then IsSubsequence(a[1..], b[1..])
    else IsSubsequence(a, b[1..])
  }

  /** The history with every record for `id` filtered out, the others kept in
      their original order and with their original number of copies. */
  function RemoveId(h: seq<SwipeResult>, id: int): (r: seq<SwipeResult>)
    ensures forall x :: x in r <==> x in h && x.id != id
    ensures IsSubsequence(r, h)
    ensures DistinctIds(h) ==> DistinctIds(r)
    ensures |r| <= |h|
  {
    if |h| == 0 then []
    else if h[0].id == id then RemoveId(h[1..], id)
    else [h[0]] + RemoveId(h[1..], id)
  }

  /** Filter out the record's id, then append the record: the last element
      is the new mark, no earlier element has its id, and the earlier
      elements are exactly the other ids' records in their old order. */
  function Upsert(h: seq<SwipeResult>, e: SwipeResult): (r: seq<SwipeResult>)
    ensures |r| > 0 && r[|r| - 1] == e
    ensures forall k :: 0 <= k < |r| && r[k].id == e.id ==> k == |r| - 1
    ensures forall x :: multiset(r[..|r| - 1])[x] == if x.id == e.id then 0 else multiset(h)[x]
    ensures forall x :: x in r[..|r| - 1] <==> x in h && x.id != e.id
    ensures IsSubsequence(r[..|r| - 1], h)
    ensures DistinctIds(h) ==> DistinctIds(r)
    ensures IdSet(r) == IdSet(h) + {e.id}
  {
    var kept := RemoveId(h, e.id);
    var r := kept + [e];
    assert r[..|r| - 1] == kept;
    assert forall k :: 0 <= k < |kept| ==> kept[k] in h;
    RemoveIdCounts(h, e.id);
    IdSetUpsert(h, e, kept);
    r
  }

  lemma IdSetUpsert(h: seq<SwipeResult>, e: SwipeResult, kept: seq<SwipeResult>)
    requires forall x :: x in kept <==> x in h && x.id != e.id
    ensures IdSet(kept + [e]) == IdSet(h) + {e.id}
  {
    var r := kept + [e];
    forall id | id in IdSet(h) + {e.id}
      ensures id in IdSet(r)
    {
      if id == e.id {
        assert r[|r| - 1].id == id;
      } else {
        var k :| 0 <= k < |h| && h[k].id == id;
        assert h[k] in kept;
        var m :| 0 <= m < |kept| && kept[m] == h[k];
        assert r[m].id == id;
      }
    }
    forall id | id in IdSet(r)
      ensures id in IdSet(h) + {e.id}
    {
      var k :| 0 <= k < |r| && r[k].id == id;
      if k < |kept| {
        assert kept[k] in h;
        var m :| 0 <= m < |h| && h[m] == kept[k];
        assert h[m].id == id;
      }
    }
  }

  /** Filtering keeps every record of another id as many times as it occurs,
      and none of `id`'s. */
  lemma {:induction false} RemoveIdCounts(h: seq<SwipeResult>, id: int)
    ensures forall x :: multiset(RemoveId(h, id))[x] == if x.id == id then 0 else multiset(h)[x]
    decreases |h|
  {
    if |h| > 0 {
      RemoveIdCounts(h[1..], id);
      assert h == [h[0]] + h[1..];
    }
  }

  /** Removing an id twice is removing it once. */
  lemma {:induction false} RemoveIdIdempotent(h: seq<SwipeResult>, id: int)
    ensures RemoveId(RemoveId(h, id), id) == RemoveId(h, id)
    decreases |h|
  {
    if |h| > 0 {
      RemoveIdIdempotent(h[1..], id);
      if h[0].id != id {
        var rest := RemoveId(h[1..], id);
        assert ([h[0]] + rest)[1..] == rest;
      }
    }
  }

  /** Filtering distributes over concatenation. */
  lemma {:induction false} RemoveIdAppend(a: seq<SwipeResult>, b: seq<SwipeResult>, id: int)
    ensures RemoveId(a + b, id) == RemoveId(a, id) + RemoveId(b, id)
    decreases |a|
  {
    if |a| == 0 {
      assert a + b == b;
    } else {
      assert (a + b)[0] == a[0];
      assert (a + b)[1..] == a[1..] + b;
      RemoveIdAppend(a[1..], b, id);
    }
  }

  /** Marking a card a second time replaces the first mark: the history is as
      if only the second mark had ever been made. */
  lemma UpsertOverwrites(h: seq<SwipeResult>, e1: SwipeResult, e2: SwipeResult)
    requires e1.id == e2.id
    ensures Upsert(Upsert(h, e1), e2) == Upsert(h, e2)
  {
    var kept := RemoveId(h, e1.id);
    RemoveIdAppend(kept, [e1], e1.id);
    RemoveIdIdempotent(h, e1.id);
    assert RemoveId([e1], e1.id) == [];
    assert RemoveId(kept + [e1], e1.id) == kept;
  }

  /** Filtering an id that carries no record changes nothing. */
  lemma {:induction false} RemoveIdAbsent(h: seq<SwipeResult>, id: int)
    requires forall k :: 0 <= k < |h| ==> h[k].id != id
    ensures RemoveId(h, id) == h
    decreases |h|
  {
    if |h| > 0 {
      RemoveIdAbsent(h[1..], id);
      assert [h[0]] + h[1..] == h;
    }
  }

  /** With distinct ids, filtering an id drops at most one record. */
  lemma {:induction false} RemoveIdDropsAtMostOne(h: seq<SwipeResult>, id: int)
    requires DistinctIds(h)
    ensures |RemoveId(h, id)| + 1 >= |h|
    decreases |h|
  {
    if |h| > 0 {
      if h[0].id == id {
        RemoveIdAbsent(h[1..], id);
      } else {
        RemoveIdDropsAtMostOne(h[1..], id);
      }
    }
  }

  /** Pigeonhole: records with distinct ids drawn from `lo..hi-1` number at
      most `hi - lo`. */
  lemma {:induction false} DistinctIdsInRange(h: seq<SwipeResult>, lo: int, hi: int)
    requires lo <= hi
    requires DistinctIds(h)
    requires forall k :: 0 <= k < |h| ==> lo <= h[k].id < hi
    ensures |h| <= hi - lo
    decreases hi - lo
  {
    if lo < hi {
      var t := RemoveId(h, hi - 1);
      assert forall k :: 0 <= k < |t| ==> t[k] in h;
      DistinctIdsInRange(t, lo, hi - 1);
      RemoveIdDropsAtMostOne(h, hi - 1);
    }
  }
}
