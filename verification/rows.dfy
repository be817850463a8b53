/** One loaded message (src/chat/messagedata.h) and the facts about lists of them
    that the models must keep: the index map, the album table, and the sequence flags. */
module Rows {
  import opened IdLists

  /** The fields the list models read or write. `sender` stands for the sender's type and id. */
  datatype Message = Message(
    chatId: int,
    id: int,
    albumId: int,
    isSponsored: bool,
    isService: bool,
    sender: int,
    date: int,
    albumEntryFilter: bool,
    albumMessageIds: seq<int>)
  {
    predicate Unmarked() {
      !albumEntryFilter && albumMessageIds == []
    }

    /** What the constructor makes of received data. */
    function Received(): (m: Message)
      ensures m.Unmarked() && m.id == id && m.albumId == albumId && m.chatId == chatId
    {
      this.(albumEntryFilter := false, albumMessageIds := [])
    }
  }

  predicate LessThan(a: Message, b: Message) {
    if a.isSponsored != b.isSponsored then !a.isSponsored && b.isSponsored
    else a.id < b.id
  }

  predicate AreTogether(a: Message, b: Message) {
    !a.isService && !b.isService && a.sender == b.sender
    && -900 <= a.date - b.date <= 900
  }

  function Ids(rows: seq<Message>): (r: seq<int>)
    ensures |r| == |rows| && forall k :: 0 <= k < |rows| ==> r[k] == rows[k].id
  {
    seq(|rows|, k requires 0 <= k < |rows| => rows[k].id)
  }

  lemma {:induction false} IdsConcat(a: seq<Message>, b: seq<Message>)
    ensures Ids(a + b) == Ids(a) + Ids(b)
  {
  }

  /** The rows without their album marks: what only insertion, removal and replacement may change. */
  function Bare(rows: seq<Message>): (r: seq<Message>)
    ensures |r| == |rows| && forall k :: 0 <= k < |rows| ==> r[k] == rows[k].Received()
    ensures Ids(r) == Ids(rows)
  {
    seq(|rows|, k requires 0 <= k < |rows| => rows[k].Received())
  }

  // The index map

  /** The map knows exactly the loaded ids, and the rows below `n` are entered at their own position. */
  ghost predicate IndexedBelow(rows: seq<Message>, index: map<int, int>, n: int)
  {
    && Distinct(Ids(rows))
    && (forall id :: id in index <==> id in Ids(rows))
    && (forall k :: 0 <= k < n && k < |rows| ==> index[rows[k].id] == k)
  }

  /** The map is the exact inverse of the list. */
  ghost predicate Indexed(rows: seq<Message>, index: map<int, int>)
  {
    IndexedBelow(rows, index, |rows|)
  }

  function Lookup(index: map<int, int>, id: int): int
  {
    if id in index then index[id] else -1
  }

  /** An exact index answers every lookup like a search through the list. */
  lemma {:induction false} LookupIsPosition(rows: seq<Message>, index: map<int, int>, id: int)
    requires Indexed(rows, index)
    ensures Lookup(index, id) == PositionOf(Ids(rows), id)
  {
    var p := PositionOf(Ids(rows), id);
    if p >= 0 {
      assert rows[p].id == id;
    }
  }

  lemma {:induction false} IndexPut(rows: seq<Message>, index: map<int, int>, k: int)
    requires IndexedBelow(rows, index, k) && 0 <= k < |rows|
    ensures IndexedBelow(rows, index[rows[k].id := k], k + 1)
  {
    assert Ids(rows)[k] == rows[k].id;
    forall j | 0 <= j < k ensures rows[j].id != rows[k].id {
      assert Ids(rows)[j] != Ids(rows)[k];
    }
  }

  /** Putting one new row in at `at`, with its index entry, leaves the rows before it indexed. */
  lemma {:induction false} IndexInsert(rows: seq<Message>, index: map<int, int>, at: int, m: Message)
    requires 0 <= at <= |rows| && IndexedBelow(rows, index, at) && m.id !in Ids(rows)
    ensures IndexedBelow(rows[..at] + [m] + rows[at..], index[m.id := at], at + 1)
  {
    var rows' := rows[..at] + [m] + rows[at..];
    var ids, ids' := Ids(rows), Ids(rows');
    assert ids' == ids[..at] + [m.id] + ids[at..];
    forall i, j | 0 <= i < j < |ids'| ensures ids'[i] != ids'[j] {
      var i', j' := if i < at then i else i - 1, if j < at then j else j - 1;
      if i == at {
        assert ids'[j] == ids[j - 1];
      } else if j == at {
        assert ids'[i] == ids[i];
      } else {
        assert ids'[i] == ids[i'] && ids'[j] == ids[j'];
      }
    }
    forall k | 0 <= k < at ensures rows'[k] == rows[k] && rows[k].id != m.id {
      assert ids[k] in ids;
    }
    forall id ensures id in index[m.id := at] <==> id in ids' {}
  }

  /** Dropping the ids of erased rows from the map leaves the rows before the gap indexed. */
  lemma {:induction false} IndexErase(before: seq<Message>, erased: seq<Message>, after: seq<Message>,
        index: map<int, int>)
    requires Indexed(before + erased + after, index)
    ensures IndexedBelow(before + after, index - Elements(Ids(erased)), |before|)
  {
    var ids, ids' := Ids(before + erased + after), Ids(before + after);
    assert ids == Ids(before) + Ids(erased) + Ids(after);
    assert ids' == Ids(before) + Ids(after);
    forall i, j | 0 <= i < j < |ids'| ensures ids'[i] != ids'[j] {
      var i', j' := if i < |before| then i else i + |erased|, if j < |before| then j else j + |erased|;
      assert ids[i'] == ids'[i] && ids[j'] == ids'[j];
    }
    forall k, j | 0 <= k < |ids'| && 0 <= j < |erased| ensures ids'[k] != erased[j].id {
      var k' := if k < |before| then k else k + |erased|;
      assert ids[k'] == ids'[k] && ids[|before| + j] == erased[j].id;
    }
    forall k | 0 <= k < |before| ensures (before + after)[k] == (before + erased + after)[k] {}
  }

  // Album membership

  ghost predicate HasRow(rows: seq<Message>, id: int, albumId: int)
  {
    exists k :: 0 <= k < |rows| && rows[k].id == id && rows[k].albumId == albumId
  }

  lemma {:induction false} HasRowConcat(a: seq<Message>, b: seq<Message>, id: int, albumId: int)
    ensures HasRow(a + b, id, albumId) <==> HasRow(a, id, albumId) || HasRow(b, id, albumId)
  {
    if HasRow(a, id, albumId) {
      var k :| 0 <= k < |a| && a[k].id == id && a[k].albumId == albumId;
      assert (a + b)[k] == a[k];
    }
    if HasRow(b, id, albumId) {
      var k :| 0 <= k < |b| && b[k].id == id && b[k].albumId == albumId;
      assert (a + b)[|a| + k] == b[k];
    }
  }

  /** The album table's answer for an album; a missing entry reads as the empty list. */
  function Entry(table: map<int, seq<int>>, albumId: int): seq<int>
  {
    if albumId in table then table[albumId] else []
  }

  /** `entry` lists the loaded ids of an album, ascending and without repeats. */
  ghost predicate EntryExact(rows: seq<Message>, entry: seq<int>, albumId: int)
  {
    Ascending(entry) && forall id :: id in entry <==> HasRow(rows, id, albumId)
  }

  function Marked(m: Message, entry: seq<int>): (r: Message)
    ensures r.id == m.id && r.albumId == m.albumId && r.Received() == m.Received()
  {
    if m.id in entry then
      m.(albumEntryFilter := m.id != entry[0], albumMessageIds := if m.id == entry[0] then entry else [])
    else m
  }

  function MarkAll(rows: seq<Message>, entry: seq<int>): (r: seq<Message>)
    ensures |r| == |rows| && forall k :: 0 <= k < |rows| ==> r[k] == Marked(rows[k], entry)
    ensures Ids(r) == Ids(rows) && Bare(r) == Bare(rows)
  {
    seq(|rows|, k requires 0 <= k < |rows| => Marked(rows[k], entry))
  }

  /** A row outside albums carries no marks; in an album the smallest id alone is shown and carries the whole list. */
  ghost predicate MarkExact(m: Message, entry: seq<int>)
  {
    if m.albumId == 0 then m.Unmarked()
    else
      m.id in entry
      && m.albumEntryFilter == (m.id != entry[0])
      && m.albumMessageIds == (if m.id == entry[0] then entry else [])
  }

  /** The table and the marks agree with the loaded rows, except that rows `pending` are not entered yet. */
  ghost predicate AlbumsExceptFor(rows: seq<Message>, table: map<int, seq<int>>, pending: set<int>)
  {
    && (forall a :: a != 0 ==> Ascending(Entry(table, a)))
    && (forall a, id :: a != 0 ==> (id in Entry(table, a) <==> HasRow(rows, id, a) && id !in pending))
    && (forall k :: 0 <= k < |rows| ==>
          if rows[k].id in pending then rows[k].Unmarked() else MarkExact(rows[k], Entry(table, rows[k].albumId)))
  }

  ghost predicate AlbumsExact(rows: seq<Message>, table: map<int, seq<int>>)
  {
    AlbumsExceptFor(rows, table, {})
  }

  lemma {:induction false} AlbumsExactMeans(rows: seq<Message>, table: map<int, seq<int>>)
    requires AlbumsExact(rows, table)
    ensures forall a :: a != 0 ==> EntryExact(rows, Entry(table, a), a)
    ensures forall k :: 0 <= k < |rows| && rows[k].albumId != 0 ==>
              var e := Entry(table, rows[k].albumId);
              && |e| > 0
              && (!rows[k].albumEntryFilter <==> (forall id :: HasRow(rows, id, rows[k].albumId) ==> rows[k].id <= id))
              && rows[k].albumMessageIds == (if rows[k].albumEntryFilter then [] else e)
  {
    forall a | a != 0 ensures EntryExact(rows, Entry(table, a), a) {
      assert Ascending(Entry(table, a));
    }
    forall k | 0 <= k < |rows| && rows[k].albumId != 0
      ensures var e := Entry(table, rows[k].albumId);
              && |e| > 0
              && (!rows[k].albumEntryFilter <==> (forall id :: HasRow(rows, id, rows[k].albumId) ==> rows[k].id <= id))
              && rows[k].albumMessageIds == (if rows[k].albumEntryFilter then [] else e)
    {
      var e := Entry(table, rows[k].albumId);
      assert MarkExact(rows[k], e);
      var smallest := e[0];
      assert smallest in e;
      assert HasRow(rows, smallest, rows[k].albumId);
    }
  }
}
