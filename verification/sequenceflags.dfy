/** What the first/last-in-sequence flags say about the rows themselves, without marks and index. */
module SequenceFlags {
  import opened IdLists
  import opened Rows
  import opened Sequences

  // Sequences

  /** The two rows can stand in one sequence, next to each other. */
  predicate Follow(a: Message, b: Message)
  {
    && !a.isService && !b.isService && a.sender == b.sender
    && a.date - b.date <= 900 && b.date - a.date <= 900
  }

  /** A stretch of messages of one sender, no service message among them, at most 15 minutes from one to the next;
      a single row of any kind will do. */
  ghost predicate OneSpeaker(rows: seq<Message>, a: int, b: int)
    requires 0 <= a <= b < |rows|
  {
    && (a < b ==> forall k :: a <= k <= b ==> !rows[k].isService && rows[k].sender == rows[a].sender)
    && (forall k :: a <= k < b ==> -900 <= rows[k].date - rows[k + 1].date <= 900)
  }

  /** It cannot be made longer. */
  ghost predicate Longest(rows: seq<Message>, a: int, b: int)
    requires 0 <= a <= b < |rows|
  {
    (a > 0 ==> !Follow(rows[a - 1], rows[a])) && (b < |rows| - 1 ==> !Follow(rows[b], rows[b + 1]))
  }

  /** Rows shown as one sequence. */
  predicate ShownTogether(flags: seq<RowFlags>, a: int, b: int)
    requires 0 <= a <= b < |flags|
  {
    flags[a].isFirst && flags[b].isLast && forall k :: a < k <= b ==> !flags[k].isFirst
  }

  lemma {:induction false} SpeakerSteps(rows: seq<Message>, a: int, b: int)
    requires 0 <= a <= b < |rows| && forall k :: a < k <= b ==> Follow(rows[k - 1], rows[k])
    ensures OneSpeaker(rows, a, b)
    decreases b - a
  {
    if a == b {
    } else {
      SpeakerSteps(rows, a, b - 1);
      assert Follow(rows[b - 1], rows[b]);
    }
  }

  lemma {:induction false} FlagsFollow(rows: seq<Message>, index: map<int, int>, k: int)
    requires Indexed(rows, index) && NoAlbums(rows) && 0 <= k < |rows|
    ensures AllFlags(Readable, rows, index)[k]
            == RowFlags(k == 0 || !Follow(rows[k - 1], rows[k]), k == |rows| - 1 || !Follow(rows[k], rows[k + 1]))
  {
    assert rows[k].Unmarked();
  }

  lemma {:induction false} SpeakerFollows(rows: seq<Message>, a: int, b: int, k: int)
    requires 0 <= a < k <= b < |rows| && OneSpeaker(rows, a, b)
    ensures Follow(rows[k - 1], rows[k])
  {
    assert -900 <= rows[k - 1].date - rows[k - 1 + 1].date <= 900;
  }

  /** Without albums exactly the longest stretches of one sender are shown as sequences, and where one ends the next
      begins. */
  lemma {:induction false} SequencesExact(rows: seq<Message>, index: map<int, int>, a: int, b: int)
    requires Indexed(rows, index) && NoAlbums(rows) && 0 <= a <= b < |rows|
    ensures ShownTogether(AllFlags(Readable, rows, index), a, b) <==> OneSpeaker(rows, a, b) && Longest(rows, a, b)
    ensures b < |rows| - 1 ==>
              (AllFlags(Readable, rows, index)[b].isLast <==> AllFlags(Readable, rows, index)[b + 1].isFirst)
  {
    var flags := AllFlags(Readable, rows, index);
    FlagsFollow(rows, index, a);
    FlagsFollow(rows, index, b);
    if b < |rows| - 1 { FlagsFollow(rows, index, b + 1); }
    if ShownTogether(flags, a, b) {
      forall k | a < k <= b ensures Follow(rows[k - 1], rows[k]) {
        assert !flags[k].isFirst;
        FlagsFollow(rows, index, k);
      }
      SpeakerSteps(rows, a, b);
    }
    if OneSpeaker(rows, a, b) && Longest(rows, a, b) {
      forall k | a < k <= b ensures !flags[k].isFirst {
        FlagsFollow(rows, index, k);
        SpeakerFollows(rows, a, b, k);
      }
    }
  }

  /** In the inverted model every row is a sequence of its own. */
  lemma {:induction false} InvertedAlone(rows: seq<Message>, index: map<int, int>, a: int, b: int)
    requires Indexed(rows, index) && 0 <= a <= b < |rows|
    ensures ShownTogether(AllFlags(InvertedMedia, rows, index), a, b) <==> a == b
  {
    var flags := AllFlags(InvertedMedia, rows, index);
    assert flags[b] == FlagsAt(InvertedMedia, rows, index, b);
    assert flags[a] == FlagsAt(InvertedMedia, rows, index, a);
  }

  // Albums

  /** No row of its album is before the row. */
  ghost predicate FirstOfAlbum(rows: seq<Message>, k: int)
    requires 0 <= k < |rows|
  {
    forall i :: 0 <= i < k ==> rows[i].albumId != rows[k].albumId
  }

  /** Row j is the one with the largest id of row k's album. */
  ghost predicate LastOfAlbum(rows: seq<Message>, k: int, j: int)
    requires 0 <= k < |rows|
  {
    && 0 <= j < |rows| && rows[j].albumId == rows[k].albumId
    && forall i :: 0 <= i < |rows| && rows[i].albumId == rows[k].albumId ==> rows[i].id <= rows[j].id
  }

  lemma {:induction false} InIdOrder(rows: seq<Message>, i: int, j: int)
    requires Ascending(Ids(rows)) && 0 <= i < |rows| && 0 <= j < |rows|
    ensures rows[i].id <= rows[j].id <==> i <= j
  {
    assert Ids(rows)[i] == rows[i].id && Ids(rows)[j] == rows[j].id;
  }

  /** The row that is shown for an album is its first one. */
  lemma {:induction false} ShownIsFirst(rows: seq<Message>, table: map<int, seq<int>>, k: int)
    requires Ascending(Ids(rows)) && AlbumsExact(rows, table) && 0 <= k < |rows| && rows[k].albumId != 0
    ensures FirstOfAlbum(rows, k) <==> !rows[k].albumEntryFilter
  {
    AlbumsExactMeans(rows, table);
    var a := rows[k].albumId;
    if !rows[k].albumEntryFilter {
      forall i | 0 <= i < k ensures rows[i].albumId != a {
        InIdOrder(rows, k, i);
        if rows[i].albumId == a { assert HasRow(rows, rows[i].id, a); }
      }
    } else {
      var id :| HasRow(rows, id, a) && id < rows[k].id;
      var i :| 0 <= i < |rows| && rows[i].id == id && rows[i].albumId == a;
      InIdOrder(rows, k, i);
    }
  }

  /** The largest id that it carries is that of the last one. */
  lemma {:induction false} LargestIsLast(rows: seq<Message>, table: map<int, seq<int>>, k: int, j: int)
    requires AlbumsExact(rows, table) && 0 <= k < |rows| && rows[k].albumId != 0 && LastOfAlbum(rows, k, j)
    requires !rows[k].albumEntryFilter
    ensures rows[k].albumMessageIds != [] && MaxOf(rows[k].albumMessageIds) == rows[j].id
  {
    AlbumsExactMeans(rows, table);
    var a, ids := rows[k].albumId, rows[k].albumMessageIds;
    assert EntryExact(rows, ids, a);
    assert HasRow(rows, rows[j].id, a);
    var largest := MaxOf(ids);
    assert HasRow(rows, largest, a);
    var i :| 0 <= i < |rows| && rows[i].id == largest && rows[i].albumId == a;
  }

  lemma {:induction false} FirstFlags(rows: seq<Message>, index: map<int, int>, table: map<int, seq<int>>, k: int,
        j: int)
    requires Ascending(Ids(rows)) && Indexed(rows, index) && AlbumsExact(rows, table)
    requires 0 <= k < |rows| && rows[k].albumId != 0 && LastOfAlbum(rows, k, j) && !rows[k].albumEntryFilter
    ensures FlagsAt(Readable, rows, index, k)
            == RowFlags(k == 0 || !Follow(rows[k - 1], rows[k]), j == |rows| - 1 || !Follow(rows[j], rows[j + 1]))
  {
    LargestIsLast(rows, table, k, j);
    InIdOrder(rows, k, j);
    LookUpRow(rows, index, j);
  }

  lemma {:induction false} LookUpRow(rows: seq<Message>, index: map<int, int>, j: int)
    requires Indexed(rows, index) && 0 <= j < |rows|
    ensures rows[j].id in index && index[rows[j].id] == j
  {
  }

  lemma {:induction false} FilteredFlags(rows: seq<Message>, index: map<int, int>, k: int)
    requires Indexed(rows, index) && 0 <= k < |rows| && rows[k].albumEntryFilter
    ensures FlagsAt(Readable, rows, index, k) == RowFlags(k == 0, k == |rows| - 1)
  {
  }

  /** The row that shows an album opens a sequence as any row does, and closes one if and only if the last row of the
      album is the last of all or does not follow on to the row behind it; the other rows of the album open none, and
      close one only at the end of the list. */
  lemma {:induction false} AlbumFlags(rows: seq<Message>, index: map<int, int>, table: map<int, seq<int>>, k: int,
        j: int)
    requires Ascending(Ids(rows)) && Indexed(rows, index) && AlbumsExact(rows, table)
    requires 0 <= k < |rows| && rows[k].albumId != 0 && LastOfAlbum(rows, k, j)
    ensures FlagsAt(Readable, rows, index, k)
            == if FirstOfAlbum(rows, k) then
                 RowFlags(k == 0 || !Follow(rows[k - 1], rows[k]), j == |rows| - 1 || !Follow(rows[j], rows[j + 1]))
               else RowFlags(false, k == |rows| - 1)
  {
    ShownIsFirst(rows, table, k);
    if rows[k].albumEntryFilter {
      FilteredFlags(rows, index, k);
    } else {
      FirstFlags(rows, index, table, k, j);
    }
  }

  /** Rows outside albums are as in a chat without any. */
  lemma {:induction false} PlainFlags(rows: seq<Message>, index: map<int, int>, table: map<int, seq<int>>, k: int)
    requires Indexed(rows, index) && AlbumsExact(rows, table) && 0 <= k < |rows| && rows[k].albumId == 0
    ensures FlagsAt(Readable, rows, index, k)
            == RowFlags(k == 0 || !Follow(rows[k - 1], rows[k]), k == |rows| - 1 || !Follow(rows[k], rows[k + 1]))
  {
    assert MarkExact(rows[k], Entry(table, 0));
  }
}
