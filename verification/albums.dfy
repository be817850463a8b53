/** The album table: how one more row or a range of removed rows changes it (messagesmodel.cpp:432-501). */
module Albums {
  import opened IdLists
  import opened Rows

  // std::sort on the ids of an album

  function Insert(s: seq<int>, x: int): (r: seq<int>)
  {
    if s == [] then [x] else if x <= s[0] then [x] + s else [s[0]] + Insert(s[1..], x)
  }

  function SortIds(s: seq<int>): (r: seq<int>)
  {
    if s == [] then [] else Insert(SortIds(s[1..]), s[0])
  }

  lemma {:induction false} InsertAbove(s: seq<int>, x: int, least: int)
    requires least < x && forall k :: 0 <= k < |s| ==> least < s[k]
    ensures forall k :: 0 <= k < |Insert(s, x)| ==> least < Insert(s, x)[k]
  {
    if s != [] && s[0] < x {
      InsertAbove(s[1..], x, least);
    }
  }

  lemma {:induction false} InsertFacts(s: seq<int>, x: int)
    ensures forall y :: y in Insert(s, x) <==> y == x || y in s
    ensures Ascending(s) && x !in s ==> Ascending(Insert(s, x))
  {
    if s == [] {
    } else if x <= s[0] {
      assert s[0] in s;
    } else {
      InsertFacts(s[1..], x);
      assert s == [s[0]] + s[1..];
      if Ascending(s) && x !in s {
        InsertAbove(s[1..], x, s[0]);
      }
    }
  }

  lemma {:induction false} SortFacts(s: seq<int>)
    ensures forall y :: y in SortIds(s) <==> y in s
    ensures Distinct(s) ==> Ascending(SortIds(s))
  {
    if s == [] {
    } else {
      SortFacts(s[1..]);
      InsertFacts(SortIds(s[1..]), s[0]);
      assert s == [s[0]] + s[1..];
    }
  }

  lemma {:induction false} SortOfAscending(s: seq<int>)
    requires Ascending(s)
    ensures SortIds(s) == s
  {
    SortFacts(s);
    AscendingUnique(SortIds(s), s);
  }

  /** The ids still present in the index map, in their order. */
  function StillLoaded(s: seq<int>, index: map<int, int>): (r: seq<int>)
  {
    if s == [] then [] else (if s[0] in index then [s[0]] else []) + StillLoaded(s[1..], index)
  }

  lemma {:induction false} StillLoadedFacts(s: seq<int>, index: map<int, int>)
    ensures forall y :: y in StillLoaded(s, index) <==> y in s && y in index
    ensures Ascending(s) ==> Ascending(StillLoaded(s, index))
  {
    if s == [] {
    } else {
      StillLoadedFacts(s[1..], index);
      var rest := StillLoaded(s[1..], index);
      assert s == [s[0]] + s[1..];
      forall k | 0 <= k < |rest| && Ascending(s) ensures rest[k] > s[0] {
        var y := rest[k];
        assert y in rest;
        assert y in s[1..];
      }
    }
  }

  /** What `updateAlbumMessages` makes of an album's entry. */
  function Refreshed(entry: seq<int>, index: map<int, int>, checkDeleted: bool): seq<int>
  {
    if checkDeleted then StillLoaded(SortIds(entry), index) else SortIds(entry)
  }

  /** Only rows of one album carry ids of that album's entry. */
  lemma {:induction false} EntryRowsOnly(rows: seq<Message>, entry: seq<int>, a: int, k: int)
    requires Distinct(Ids(rows)) && 0 <= k < |rows|
    requires forall id :: id in entry ==> HasRow(rows, id, a)
    ensures rows[k].id in entry ==> rows[k].albumId == a
  {
    var id := rows[k].id;
    if id in entry {
      assert HasRow(rows, id, a);
      var j :| 0 <= j < |rows| && rows[j].id == id && rows[j].albumId == a;
      assert Ids(rows)[j] == Ids(rows)[k];
    }
  }

  lemma {:induction false} OneAlbumPerRow(rows: seq<Message>, p: int, a: int)
    requires Distinct(Ids(rows)) && 0 <= p < |rows|
    ensures HasRow(rows, rows[p].id, a) ==> rows[p].albumId == a
  {
    if HasRow(rows, rows[p].id, a) {
      var k :| 0 <= k < |rows| && rows[k].id == rows[p].id && rows[k].albumId == a;
      assert Ids(rows)[k] == Ids(rows)[p];
    }
  }

  lemma {:induction false} MarkAllKeepsHasRow(rows: seq<Message>, entry: seq<int>, id: int, a: int)
    ensures HasRow(MarkAll(rows, entry), id, a) <==> HasRow(rows, id, a)
  {
    var rows' := MarkAll(rows, entry);
    if HasRow(rows, id, a) {
      var k :| 0 <= k < |rows| && rows[k].id == id && rows[k].albumId == a;
      assert rows'[k].id == id && rows'[k].albumId == a;
    }
    if HasRow(rows', id, a) {
      var k :| 0 <= k < |rows| && rows'[k].id == id && rows'[k].albumId == a;
      assert rows[k].id == id && rows[k].albumId == a;
    }
  }

  /** A row outside albums needs no entry. */
  lemma {:induction false} RegisterPlain(rows: seq<Message>, table: map<int, seq<int>>, pending: set<int>, p: int)
    requires Distinct(Ids(rows)) && 0 <= p < |rows| && rows[p].albumId == 0 && rows[p].id in pending
    requires AlbumsExceptFor(rows, table, pending)
    ensures AlbumsExceptFor(rows, table, pending - {rows[p].id})
  {
    var id0 := rows[p].id;
    forall a, id | a != 0
      ensures id in Entry(table, a) <==> HasRow(rows, id, a) && id !in pending - {id0}
    {
      OneAlbumPerRow(rows, p, a);
      assert id in Entry(table, a) <==> HasRow(rows, id, a) && id !in pending;
    }
    forall k | 0 <= k < |rows| && rows[k].id !in pending - {id0}
      ensures MarkExact(rows[k], Entry(table, rows[k].albumId))
    {
      if k != p {
        assert Ids(rows)[k] != Ids(rows)[p];
      }
    }
  }

  /** Entering a pending row into its album re-establishes table and marks for it. */
  lemma {:induction false} RegisterInAlbum(rows: seq<Message>, table: map<int, seq<int>>, pending: set<int>, p: int,
        entry': seq<int>)
    requires Distinct(Ids(rows)) && 0 <= p < |rows| && rows[p].albumId != 0 && rows[p].id in pending
    requires AlbumsExceptFor(rows, table, pending)
    requires Ascending(entry')
    requires forall id :: id in entry' <==> id == rows[p].id || id in Entry(table, rows[p].albumId)
    ensures AlbumsExceptFor(MarkAll(rows, entry'), table[rows[p].albumId := entry'], pending - {rows[p].id})
  {
    var id0, a0 := rows[p].id, rows[p].albumId;
    var rows', table', pending' := MarkAll(rows, entry'), table[a0 := entry'], pending - {id0};
    forall id | id in entry' ensures HasRow(rows, id, a0) {
      assert id in Entry(table, a0) ==> HasRow(rows, id, a0);
    }
    forall a | a != 0 ensures Ascending(Entry(table', a)) {
      assert a != a0 ==> Entry(table', a) == Entry(table, a);
    }
    forall a, id | a != 0
      ensures id in Entry(table', a) <==> HasRow(rows', id, a) && id !in pending'
    {
      MarkAllKeepsHasRow(rows, entry', id, a);
      assert id in Entry(table, a) <==> HasRow(rows, id, a) && id !in pending;
      OneAlbumPerRow(rows, p, a);
    }
    forall k | 0 <= k < |rows|
      ensures if rows'[k].id in pending' then rows'[k].Unmarked()
              else MarkExact(rows'[k], Entry(table', rows'[k].albumId))
    {
      EntryRowsOnly(rows, entry', a0, k);
      RegisterMark(rows, table, pending, p, entry', k);
    }
  }

  lemma {:induction false} RegisterMark(rows: seq<Message>, table: map<int, seq<int>>, pending: set<int>, p: int,
        entry': seq<int>, k: int)
    requires Distinct(Ids(rows)) && 0 <= p < |rows| && rows[p].albumId != 0 && rows[p].id in pending
    requires AlbumsExceptFor(rows, table, pending) && 0 <= k < |rows|
    requires forall id :: id in entry' <==> id == rows[p].id || id in Entry(table, rows[p].albumId)
    requires rows[k].id in entry' ==> rows[k].albumId == rows[p].albumId
    ensures var m := Marked(rows[k], entry');
            if m.id in pending - {rows[p].id} then m.Unmarked()
            else MarkExact(m, Entry(table[rows[p].albumId := entry'], m.albumId))
  {
    var id0, a0 := rows[p].id, rows[p].albumId;
    var id := rows[k].id;
    if id in pending - {id0} {
      assert id !in Entry(table, a0);
    } else if k != p {
      assert Ids(rows)[k] != Ids(rows)[p];
      assert MarkExact(rows[k], Entry(table, rows[k].albumId));
    }
  }

  /** After rows were erased: the entries of `dirty` albums may still name erased rows. */
  ghost predicate AlbumsToRescan(rows: seq<Message>, table: map<int, seq<int>>, dirty: set<int>)
  {
    && (forall a :: a != 0 ==> Ascending(Entry(table, a)))
    && (forall a, id :: a != 0 && HasRow(rows, id, a) ==> id in Entry(table, a))
    && (forall a, id :: a != 0 && id in Entry(table, a) ==> HasRow(rows, id, a) || (a in dirty && id !in Ids(rows)))
    && (forall k :: 0 <= k < |rows| && rows[k].albumId == 0 ==> rows[k].Unmarked())
    && (forall k :: 0 <= k < |rows| && rows[k].albumId !in dirty ==> MarkExact(rows[k], Entry(table, rows[k].albumId)))
  }

  lemma {:induction false} RescanDone(rows: seq<Message>, table: map<int, seq<int>>)
    requires AlbumsToRescan(rows, table, {})
    ensures AlbumsExact(rows, table)
  {
  }

  /** Rescanning one album settles it and touches no other. */
  lemma {:induction false} RescanAlbum(rows: seq<Message>, index: map<int, int>, table: map<int, seq<int>>,
        dirty: set<int>, a0: int)
    requires Indexed(rows, index) && a0 != 0 && AlbumsToRescan(rows, table, dirty)
    ensures var entry' := Refreshed(Entry(table, a0), index, true);
            AlbumsToRescan(MarkAll(rows, entry'), table[a0 := entry'], dirty - {a0})
  {
    var entry := Entry(table, a0);
    var entry' := Refreshed(entry, index, true);
    SortOfAscending(entry);
    StillLoadedFacts(entry, index);
    forall id ensures id in entry' <==> HasRow(rows, id, a0) {
      if HasRow(rows, id, a0) {
        var k :| 0 <= k < |rows| && rows[k].id == id && rows[k].albumId == a0;
        assert Ids(rows)[k] == id;
      }
    }
    var rows', table', dirty' := MarkAll(rows, entry'), table[a0 := entry'], dirty - {a0};
    forall a | a != 0 ensures Ascending(Entry(table', a)) {
      assert a != a0 ==> Entry(table', a) == Entry(table, a);
    }
    forall a, id
      ensures a != 0 && HasRow(rows', id, a) ==> id in Entry(table', a)
      ensures a != 0 && id in Entry(table', a) ==> HasRow(rows', id, a) || (a in dirty' && id !in Ids(rows'))
    {
      MarkAllKeepsHasRow(rows, entry', id, a);
    }
    forall k | 0 <= k < |rows|
      ensures rows'[k].albumId == 0 ==> rows'[k].Unmarked()
      ensures rows'[k].albumId !in dirty' ==> MarkExact(rows'[k], Entry(table', rows'[k].albumId))
    {
      EntryRowsOnly(rows, entry', a0, k);
      RescanMark(rows, table, dirty, a0, entry', k);
    }
  }

  lemma {:induction false} RescanMark(rows: seq<Message>, table: map<int, seq<int>>, dirty: set<int>, a0: int,
        entry': seq<int>, k: int)
    requires a0 != 0 && AlbumsToRescan(rows, table, dirty) && 0 <= k < |rows|
    requires rows[k].id in entry' ==> rows[k].albumId == a0
    requires forall id :: id in entry' <==> HasRow(rows, id, a0)
    ensures var m := Marked(rows[k], entry');
            (m.albumId == 0 ==> m.Unmarked())
            && (m.albumId !in dirty - {a0} ==> MarkExact(m, Entry(table[a0 := entry'], m.albumId)))
  {
    if rows[k].albumId == a0 {
      var id := rows[k].id;
      assert HasRow(rows, id, a0);
    }
  }

  /** Erasing rows makes at most the albums of the erased rows dirty. */
  lemma {:induction false} EraseMakesDirty(before: seq<Message>, erased: seq<Message>, after: seq<Message>,
        table: map<int, seq<int>>, dirty: set<int>)
    requires Distinct(Ids(before + erased + after)) && AlbumsExact(before + erased + after, table)
    requires forall k :: 0 <= k < |erased| && erased[k].albumId != 0 ==> erased[k].albumId in dirty
    ensures AlbumsToRescan(before + after, table, dirty)
  {
    var old', rows := before + erased + after, before + after;
    forall a, id
      ensures a != 0 && HasRow(rows, id, a) ==> id in Entry(table, a)
      ensures a != 0 && id in Entry(table, a) ==> HasRow(rows, id, a) || (a in dirty && id !in Ids(rows))
    {
      HasRowConcat(before + erased, after, id, a);
      HasRowConcat(before, erased, id, a);
      HasRowConcat(before, after, id, a);
      if a != 0 && HasRow(erased, id, a) {
        ErasedNotLoaded(before, erased, after, id, a);
      }
    }
    forall k | 0 <= k < |rows| ensures MarkExact(rows[k], Entry(table, rows[k].albumId)) {
      var k' := if k < |before| then k else k + |erased|;
      assert rows[k] == old'[k'];
    }
  }

  lemma {:induction false} ErasedNotLoaded(before: seq<Message>, erased: seq<Message>, after: seq<Message>, id: int,
        a: int)
    requires Distinct(Ids(before + erased + after)) && HasRow(erased, id, a)
    ensures id !in Ids(before + after)
    ensures exists k :: 0 <= k < |erased| && erased[k].albumId == a
  {
    var ids := Ids(before + erased + after);
    var k :| 0 <= k < |erased| && erased[k].id == id && erased[k].albumId == a;
    assert ids[|before| + k] == id;
    forall j | 0 <= j < |before + after| ensures Ids(before + after)[j] != id {
      var j' := if j < |before| then j else j + |erased|;
      assert Ids(before + after)[j] == ids[j'];
    }
  }
}
