/** The inverted media model against the plain one: fed the same batches and messages, its list is at every
    step the plain list read backwards (src/chat/invertedmediamessagesmodel.h:16-31). */
module Mirror {
  import opened IdLists
  import opened Lists
  import opened Deletion
  import opened Rows
  import opened Sequences
  import opened MessagesModels
  import opened Paging

  /** What happens to a list of ids: a received batch (ascending here), one message put in order, a deleted batch. */
  datatype Change =
    | Batch(added: seq<int>)
    | InOrder(id: int)
    | Delete(batch: seq<int>)

  function InsertIds(flavour: Flavour, ids: seq<int>, added: seq<int>): seq<int>
    requires added != []
  {
    if ids == [] || ids[|ids| - 1] < added[0] then AppendRows(flavour, ids, added)
    else PrependRows(flavour, ids, added)
  }

  /** On lists without sponsored rows this is what the models' `insertMessages` does to the ids. */
  lemma {:induction false} InsertRowsOnIds(flavour: Flavour, rows: seq<Message>, added: seq<Message>)
    requires added != [] && forall k :: 0 <= k < |rows| ==> !rows[k].isSponsored
    ensures Ids(InsertRows(flavour, rows, added)) == InsertIds(flavour, Ids(rows), Ids(added))
  {
    IdsConcat(rows, added);
    IdsConcat(added, rows);
  }

  /** The inverted model sorts what it receives the other way round. */
  function ChangeIds(flavour: Flavour, ids: seq<int>, change: Change, startReached: bool, endReached: bool): seq<int>
  {
    match change
    case Batch(added) =>
      if added == [] then ids
      else InsertIds(flavour, ids, if flavour == InvertedMedia then Reverse(added) else added)
    case InOrder(id) => InsertInOrder(flavour, ids, id, startReached, endReached)
    case Delete(batch) => DeleteAll(ids, LookupOrder(flavour, batch))
  }

  /** The hypotheses on a change, in terms of the plain ascending list. */
  ghost predicate Fits(ids: seq<int>, change: Change)
  {
    match change
    case Batch(added) =>
      Ascending(added) && OneSided(ids, added)
    case InOrder(id) => id !in ids
    case Delete(batch) =>
      Ascending(batch) && MarkerClear(ids, batch) && MarkerClear(Reverse(ids), batch)
  }

  lemma {:induction false} BatchMirrors(ids: seq<int>, added: seq<int>)
    requires Ascending(ids) && added != [] && Fits(ids, Batch(added))
    ensures Ascending(InsertIds(Readable, ids, added))
    ensures InsertIds(InvertedMedia, Reverse(ids), Reverse(added)) == Reverse(InsertIds(Readable, ids, added))
  {
    ReverseConcat(ids, added);
    ReverseConcat(added, ids);
    InsertKeepsOrder(ids, added);
    assert InsertIds(Readable, ids, added) == Insert(ids, added);
  }

  /** The place found from the front of the plain list is where the rows get larger. */
  lemma {:induction false} PlaceInAscending(ids: seq<int>, id: int)
    requires Ascending(ids)
    ensures var i := PlaceFor(Readable, ids, id);
            i <= |ids| && (forall k :: 0 <= k < i ==> ids[k] <= id) && (forall k :: i <= k < |ids| ==> ids[k] > id)
  {
    if ids == [] || ids[0] > id {
    } else {
      PlaceInAscending(ids[1..], id);
      var i := PlaceFor(Readable, ids[1..], id);
      forall k | 0 <= k < i + 1 ensures ids[k] <= id {
        if k > 0 { assert ids[1..][k - 1] == ids[k]; }
      }
      forall k | i + 1 <= k < |ids| ensures ids[k] > id {
        assert ids[1..][k - 1] == ids[k];
      }
    }
  }

  lemma {:induction false} PlaceInDescending(ids: seq<int>, id: int)
    requires Descending(ids)
    ensures var i := PlaceFor(InvertedMedia, ids, id);
            i <= |ids| && (forall k :: 0 <= k < i ==> ids[k] >= id) && (forall k :: i <= k < |ids| ==> ids[k] < id)
  {
    if ids == [] || ids[0] < id {
    } else {
      PlaceInDescending(ids[1..], id);
      var i := PlaceFor(InvertedMedia, ids[1..], id);
      forall k | 0 <= k < i + 1 ensures ids[k] >= id {
        if k > 0 { assert ids[1..][k - 1] == ids[k]; }
      }
      forall k | i + 1 <= k < |ids| ensures ids[k] < id {
        assert ids[1..][k - 1] == ids[k];
      }
    }
  }

  /** Both searches find the same gap, counted from opposite ends. */
  lemma {:induction false} PlacesMirror(ids: seq<int>, id: int)
    requires Ascending(ids) && id !in ids
    ensures PlaceFor(InvertedMedia, Reverse(ids), id) == |ids| - PlaceFor(Readable, ids, id)
  {
    var back := Reverse(ids);
    PlaceInAscending(ids, id);
    PlaceInDescending(back, id);
    var i, j := PlaceFor(Readable, ids, id), PlaceFor(InvertedMedia, back, id);
    var n := |ids|;
    assert i < n ==> back[n - 1 - i] == ids[i] > id;
    assert i > 0 ==> back[n - i] == ids[i - 1] && ids[i - 1] in ids;
  }

  lemma {:induction false} InnerMirrors(ids: seq<int>, id: int)
    requires Ascending(ids) && ids != [] && id !in ids && ids[0] < id < ids[|ids| - 1]
    ensures var i, j := PlaceFor(Readable, ids, id), PlaceFor(InvertedMedia, Reverse(ids), id);
            && 0 < i < |ids| && 0 < j < |ids|
            && Ascending(ids[..i] + [id] + ids[i..])
            && Reverse(ids)[..j] + [id] + Reverse(ids)[j..] == Reverse(ids[..i] + [id] + ids[i..])
  {
    PlacesMirror(ids, id);
    PlaceInAscending(ids, id);
    var i := PlaceFor(Readable, ids, id);
    InsertMirrors(ids, i, id);
    assert i > 0 ==> ids[i - 1] in ids;
    AscendingWith(ids, i, id);
  }

  lemma {:induction false} AscendingWith(ids: seq<int>, i: nat, id: int)
    requires Ascending(ids) && i <= |ids| && (i > 0 ==> ids[i - 1] < id) && (i < |ids| ==> id < ids[i])
    ensures Ascending(ids[..i] + [id] + ids[i..])
  {
    var r := ids[..i] + [id] + ids[i..];
    forall a, b | 0 <= a < b < |r| ensures r[a] < r[b] {
      assert r[a] == if a < i then ids[a] else if a == i then id else ids[a - 1];
      assert r[b] == if b < i then ids[b] else if b == i then id else ids[b - 1];
    }
  }

  lemma {:induction false} NewestMirrors(ids: seq<int>, id: int, startReached: bool, endReached: bool)
    requires Ascending(ids) && ids != [] && id > ids[|ids| - 1]
    ensures Ascending(ids + [id]) && Reverse(ids + [id]) == [id] + Reverse(ids)
    ensures InsertInOrder(Readable, ids, id, startReached, endReached) == if endReached then ids + [id] else ids
    ensures InsertInOrder(InvertedMedia, Reverse(ids), id, startReached, endReached)
         == if endReached then [id] + Reverse(ids) else Reverse(ids)
  {
    ReverseConcat(ids, [id]);
    AscendingWith(ids, |ids|, id);
    assert ids[..|ids|] + [id] + ids[|ids|..] == ids + [id];
    assert Reverse([id]) == [id];
    assert Reverse(ids)[0] == ids[|ids| - 1];
  }

  lemma {:induction false} OldestMirrors(ids: seq<int>, id: int, startReached: bool, endReached: bool)
    requires Ascending(ids) && ids != [] && id < ids[0]
    ensures Ascending([id] + ids) && Reverse([id] + ids) == Reverse(ids) + [id]
    ensures InsertInOrder(Readable, ids, id, startReached, endReached) == if startReached then [id] + ids else ids
    ensures InsertInOrder(InvertedMedia, Reverse(ids), id, startReached, endReached)
         == if startReached then Reverse(ids) + [id] else Reverse(ids)
  {
    ReverseConcat([id], ids);
    AscendingWith(ids, 0, id);
    assert ids[..0] + [id] + ids[0..] == [id] + ids;
    assert Reverse([id]) == [id];
    assert Reverse(ids)[0] == ids[|ids| - 1] && Reverse(ids)[|ids| - 1] == ids[0];
    assert ids[0] <= ids[|ids| - 1];
  }

  lemma {:induction false} InnerInOrder(ids: seq<int>, id: int, startReached: bool, endReached: bool)
    requires Ascending(ids) && ids != [] && id !in ids && ids[0] < id < ids[|ids| - 1]
    ensures Ascending(InsertInOrder(Readable, ids, id, startReached, endReached))
    ensures InsertInOrder(InvertedMedia, Reverse(ids), id, startReached, endReached)
         == Reverse(InsertInOrder(Readable, ids, id, startReached, endReached))
  {
    InnerMirrors(ids, id);
    assert Reverse(ids)[0] == ids[|ids| - 1] && Reverse(ids)[|ids| - 1] == ids[0];
  }

  lemma {:induction false} InOrderMirrors(ids: seq<int>, id: int, startReached: bool, endReached: bool)
    requires Ascending(ids) && id !in ids
    ensures Ascending(InsertInOrder(Readable, ids, id, startReached, endReached))
    ensures InsertInOrder(InvertedMedia, Reverse(ids), id, startReached, endReached)
         == Reverse(InsertInOrder(Readable, ids, id, startReached, endReached))
  {
    if ids == [] {
      assert Reverse([id]) == [id] && Reverse(ids) == [];
    } else {
      var first, last := ids[0], ids[|ids| - 1];
      assert first in ids && last in ids;
      if id > last {
        NewestMirrors(ids, id, startReached, endReached);
      } else if id < first {
        OldestMirrors(ids, id, startReached, endReached);
      } else {
        InnerInOrder(ids, id, startReached, endReached);
      }
    }
  }

  lemma {:induction false} InsertMirrors(ids: seq<int>, i: nat, id: int)
    requires i <= |ids|
    ensures Reverse(ids[..i] + [id] + ids[i..]) == Reverse(ids)[..|ids| - i] + [id] + Reverse(ids)[|ids| - i..]
  {
    ReverseConcat(ids[..i] + [id], ids[i..]);
    ReverseConcat(ids[..i], [id]);
    assert Reverse(ids[i..]) == Reverse(ids)[..|ids| - i];
    assert Reverse(ids[..i]) == Reverse(ids)[|ids| - i..];
  }

  lemma {:induction false} WithoutReverse(ids: seq<int>, batch: seq<int>)
    ensures Without(Reverse(ids), batch) == Reverse(Without(ids, batch))
  {
    if ids == [] {
    } else {
      var head, tail := [ids[0]], ids[1..];
      var kept := if ids[0] in batch then [] else head;
      assert ids == head + tail && Reverse(head) == head && Reverse(kept) == kept;
      ReverseConcat(head, tail);
      WithoutConcat(Reverse(tail), head, batch);
      WithoutReverse(tail, batch);
      ReverseConcat(kept, Without(tail, batch));
      assert Without(head, batch) == kept;
    }
  }

  /** A batch in id order is looked up from the end of the list by either model. */
  lemma {:induction false} AscendingBatchTowardsStart(ids: seq<int>, batch: seq<int>)
    requires Ascending(ids) && Ascending(batch)
    ensures TowardsStart(ids, Reverse(batch)) && TowardsStart(Reverse(ids), batch)
  {
    var scan, back := Reverse(batch), Reverse(ids);
    forall i, j | 0 <= i < j < |scan| && scan[i] in ids && scan[j] in ids
      ensures PositionOf(ids, scan[j]) <= PositionOf(ids, scan[i])
    {
      assert scan[i] > scan[j];
      var p, q := PositionOf(ids, scan[i]), PositionOf(ids, scan[j]);
      assert ids[p] == scan[i] && ids[q] == scan[j];
    }
    forall i, j | 0 <= i < j < |batch| && batch[i] in back && batch[j] in back
      ensures PositionOf(back, batch[j]) <= PositionOf(back, batch[i])
    {
      var p, q := PositionOf(back, batch[i]), PositionOf(back, batch[j]);
      assert back[p] == batch[i] && back[q] == batch[j];
      assert back[p] == ids[|ids| - 1 - p] && back[q] == ids[|ids| - 1 - q];
    }
  }

  lemma {:induction false} DeleteMirrors(ids: seq<int>, batch: seq<int>)
    requires Ascending(ids) && Fits(ids, Delete(batch))
    ensures Ascending(DeleteAll(ids, Reverse(batch)))
    ensures DeleteAll(Reverse(ids), batch) == Reverse(DeleteAll(ids, Reverse(batch)))
  {
    var back := Reverse(ids);
    AscendingBatchTowardsStart(ids, batch);
    forall i, j | 0 <= i < j < |back| ensures back[i] != back[j] {
      assert back[i] == ids[|ids| - 1 - i] && back[j] == ids[|ids| - 1 - j];
    }
    DeletionExact(ids, Reverse(batch));
    DeletionExact(back, batch);
    LookupOrderSameMembers(Readable, ids, batch);
    WithoutReverse(ids, batch);
    WithoutAscending(ids, batch);
  }

  lemma {:induction false} ChangeMirrors(ids: seq<int>, change: Change, startReached: bool, endReached: bool)
    requires Ascending(ids) && Fits(ids, change)
    ensures Ascending(ChangeIds(Readable, ids, change, startReached, endReached))
    ensures ChangeIds(InvertedMedia, Reverse(ids), change, startReached, endReached)
         == Reverse(ChangeIds(Readable, ids, change, startReached, endReached))
  {
    match change
    case Batch(added) => if added != [] { BatchMirrors(ids, added); }
    case InOrder(id) => InOrderMirrors(ids, id, startReached, endReached);
    case Delete(batch) => DeleteMirrors(ids, batch);
  }

  /** A run: each change comes with the reached flags of its moment, the same for both models. */
  datatype Moment = Moment(change: Change, startReached: bool, endReached: bool)

  function MomentIds(flavour: Flavour, ids: seq<int>, moment: Moment): seq<int>
  {
    ChangeIds(flavour, ids, moment.change, moment.startReached, moment.endReached)
  }

  ghost predicate RunFits(ids: seq<int>, moments: seq<Moment>)
    decreases |moments|
  {
    moments == [] || (Fits(ids, moments[0].change) && RunFits(MomentIds(Readable, ids, moments[0]), moments[1..]))
  }

  function RunIds(flavour: Flavour, ids: seq<int>, moments: seq<Moment>): seq<int>
    decreases |moments|
  {
    if moments == [] then ids
    else RunIds(flavour, MomentIds(flavour, ids, moments[0]), moments[1..])
  }

  /** Over any run the plain list is strictly ascending and the inverted one is the same list backwards. */
  lemma {:induction false} RunMirrors(ids: seq<int>, moments: seq<Moment>)
    requires Ascending(ids) && RunFits(ids, moments)
    ensures Ascending(RunIds(Readable, ids, moments))
    ensures RunIds(InvertedMedia, Reverse(ids), moments) == Reverse(RunIds(Readable, ids, moments))
    decreases |moments|
  {
    if moments == [] {
    } else {
      var m := moments[0];
      ChangeMirrors(ids, m.change, m.startReached, m.endReached);
      RunMirrors(ChangeIds(Readable, ids, m.change, m.startReached, m.endReached), moments[1..]);
    }
  }
}
