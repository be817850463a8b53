/** First/last-in-sequence flags: recomputation from the list, and what a view that only follows
    the row notifications shows (readablemessagesmodel.cpp:124-199). */
module Sequences {
  import opened Rows

  /** Which subclass the virtual calls reach. */
  datatype Flavour = Readable | InvertedMedia

  datatype RowFlags = RowFlags(isFirst: bool, isLast: bool)
  datatype Role = IsFirstInSequence | IsLastInSequence

  function MaxOf(s: seq<int>): (m: int)
    requires s != []
    ensures m in s && forall x :: x in s ==> x <= m
  {
    if |s| == 1 then s[0]
    else
      var m := MaxOf(s[1..]);
      assert s == [s[0]] + s[1..];
      if m < s[0] then s[0] else m
  }

  predicate MessageIsFirstInSequence(rows: seq<Message>, k: int)
    requires 0 <= k < |rows|
  {
    if k == 0 then true
    else if rows[k].albumEntryFilter then false
    else !AreTogether(rows[k], rows[k - 1])
  }

  predicate MessageIsLastInSequence(rows: seq<Message>, index: map<int, int>, k: int)
    requires 0 <= k < |rows| && Indexed(rows, index)
  {
    if k == |rows| - 1 then true
    else if rows[k].albumEntryFilter then false
    else
      var lastId := if rows[k].albumMessageIds == [] then -1 else MaxOf(rows[k].albumMessageIds);
      if rows[k].albumMessageIds != [] && lastId in index then
        LookupIsPosition(rows, index, lastId);
        var at := index[lastId];
        if at == |rows| - 1 then true else !AreTogether(rows[at], rows[at + 1])
      else !AreTogether(rows[k], rows[k + 1])
  }

  /** What `data` answers for the two flags of a row. */
  function FlagsAt(flavour: Flavour, rows: seq<Message>, index: map<int, int>, k: int): RowFlags
    requires 0 <= k < |rows| && Indexed(rows, index)
  {
    match flavour
    case Readable => RowFlags(MessageIsFirstInSequence(rows, k), MessageIsLastInSequence(rows, index, k))
    case InvertedMedia => RowFlags(true, true)
  }

  /** Recomputing every row. */
  function AllFlags(flavour: Flavour, rows: seq<Message>, index: map<int, int>): (r: seq<RowFlags>)
    requires Indexed(rows, index)
    ensures |r| == |rows| && forall k :: 0 <= k < |rows| ==> r[k] == FlagsAt(flavour, rows, index, k)
  {
    seq(|rows|, k requires 0 <= k < |rows| => FlagsAt(flavour, rows, index, k))
  }

  // What the view does with a notification; `now` are the flags the model would answer at that moment

  function ShowInserted(now: seq<RowFlags>, shown: seq<RowFlags>, first: nat, count: nat): (r: seq<RowFlags>)
    requires first + count <= |now| && first <= |shown|
    ensures |r| == |shown| + count
  {
    shown[..first] + now[first..first + count] + shown[first..]
  }

  function ShowRemoved(shown: seq<RowFlags>, first: nat, last: nat): (r: seq<RowFlags>)
    requires first <= last < |shown|
    ensures |r| == |shown| - (last + 1 - first)
  {
    shown[..first] + shown[last + 1..]
  }

  /** A change notice for a row outside the list names no row and is ignored. */
  function ShowChanged(now: seq<RowFlags>, shown: seq<RowFlags>, row: int, role: Role): (r: seq<RowFlags>)
    requires |shown| == |now|
    ensures |r| == |shown|
  {
    if !(0 <= row < |shown|) then shown
    else
      match role
      case IsFirstInSequence => shown[row := shown[row].(isFirst := now[row].isFirst)]
      case IsLastInSequence => shown[row := shown[row].(isLast := now[row].isLast)]
  }

  /** The change notices sent after rows were put in at `at`, or after the rows from `at` on were cut. */
  function ShowSeam(now: seq<RowFlags>, shown: seq<RowFlags>, at: int, after: int): (r: seq<RowFlags>)
    requires |shown| == |now|
  {
    ShowChanged(now, ShowChanged(now, shown, at - 1, Role.IsLastInSequence), after, Role.IsFirstInSequence)
  }

  /** Only the readable models send those notices; the others answer both flags with true. */
  function AfterNotices(flavour: Flavour, now: seq<RowFlags>, shown: seq<RowFlags>, at: int,
        after: int): (r: seq<RowFlags>)
    requires |shown| == |now|
  {
    if flavour == Readable then ShowSeam(now, shown, at, after) else shown
  }

  /** The chat has no albums. */
  ghost predicate NoAlbums(rows: seq<Message>)
  {
    forall k :: 0 <= k < |rows| ==> rows[k].albumId == 0 && rows[k].Unmarked()
  }

  /** Without albums the flags of a row depend on its two neighbours only. */
  ghost function NeighbourFlags(flavour: Flavour, rows: seq<Message>, k: int): RowFlags
    requires 0 <= k < |rows|
  {
    if flavour == InvertedMedia then RowFlags(true, true)
    else RowFlags(
      k == 0 || !AreTogether(rows[k], rows[k - 1]),
      k == |rows| - 1 || !AreTogether(rows[k], rows[k + 1]))
  }

  ghost function AllNeighbourFlags(flavour: Flavour, rows: seq<Message>): (r: seq<RowFlags>)
    ensures |r| == |rows| && forall k :: 0 <= k < |rows| ==> r[k] == NeighbourFlags(flavour, rows, k)
  {
    seq(|rows|, k requires 0 <= k < |rows| => NeighbourFlags(flavour, rows, k))
  }

  lemma {:induction false} FlagsFromNeighbours(flavour: Flavour, rows: seq<Message>, index: map<int, int>)
    requires Indexed(rows, index) && NoAlbums(rows)
    ensures AllFlags(flavour, rows, index) == AllNeighbourFlags(flavour, rows)
  {
    forall k | 0 <= k < |rows| ensures FlagsAt(flavour, rows, index, k) == NeighbourFlags(flavour, rows, k) {
      assert rows[k].Unmarked();
    }
  }

  lemma {:induction false} SeamAfterInsert(was: seq<RowFlags>, now: seq<RowFlags>, at: nat, count: nat)
    requires at <= |was| && |now| == |was| + count
    requires forall k :: 0 <= k < at ==> now[k].isFirst == was[k].isFirst
    requires forall k :: 0 <= k < at - 1 ==> now[k].isLast == was[k].isLast
    requires forall k :: at <= k < |was| ==>
      now[k + count].isLast == was[k].isLast && (k > at ==> now[k + count].isFirst == was[k].isFirst)
    ensures ShowSeam(now, ShowInserted(now, was, at, count), at, at + count) == now
  {
    var inserted := ShowInserted(now, was, at, count);
    forall k | 0 <= k < |now| ensures ShowSeam(now, inserted, at, at + count)[k] == now[k] {
      assert inserted[k] == if k < at then was[k] else if k < at + count then now[k] else was[k - count];
      if k >= at + count {
        assert now[(k - count) + count] == now[k];
      }
    }
  }

  lemma {:induction false} SeamAfterRemove(was: seq<RowFlags>, now: seq<RowFlags>, first: nat, last: nat)
    requires first <= last < |was| && |now| == |was| - (last + 1 - first)
    requires forall k :: 0 <= k < first ==> now[k].isFirst == was[k].isFirst && (k < first - 1 ==>
              now[k].isLast == was[k].isLast)
    requires forall k :: first <= k < |now| ==>
      && now[k].isLast == was[k + (last + 1 - first)].isLast
      && (k > first ==> now[k].isFirst == was[k + (last + 1 - first)].isFirst)
    ensures ShowSeam(now, ShowRemoved(was, first, last), first, first) == now
  {
    var removed := ShowRemoved(was, first, last);
    forall k | 0 <= k < |now| ensures ShowSeam(now, removed, first, first)[k] == now[k] {
      assert removed[k] == if k < first then was[k] else was[k + (last + 1 - first)];
    }
  }

  lemma {:induction false} InsertNeighbours(flavour: Flavour, rows: seq<Message>, added: seq<Message>, at: nat,
        rows': seq<Message>)
    requires at <= |rows| && added != [] && rows' == rows[..at] + added + rows[at..]
    ensures var was, now := AllNeighbourFlags(flavour, rows), AllNeighbourFlags(flavour, rows');
            ShowSeam(now, ShowInserted(now, was, at, |added|), at, at + |added|) == now
  {
    var was, now := AllNeighbourFlags(flavour, rows), AllNeighbourFlags(flavour, rows');
    forall k | 0 <= k < at ensures now[k].isFirst == was[k].isFirst && (k < at - 1 ==> now[k].isLast == was[k].isLast) {
      assert rows'[k] == rows[k];
      assert k > 0 ==> rows'[k - 1] == rows[k - 1];
      assert k < at - 1 ==> rows'[k + 1] == rows[k + 1];
    }
    forall k | at <= k < |was|
      ensures now[k + |added|].isLast == was[k].isLast && (k > at ==> now[k + |added|].isFirst == was[k].isFirst)
    {
      assert rows'[k + |added|] == rows[k];
      assert k < |was| - 1 ==> rows'[k + 1 + |added|] == rows[k + 1];
      assert k > at ==> rows'[k - 1 + |added|] == rows[k - 1];
    }
    SeamAfterInsert(was, now, at, |added|);
  }

  lemma {:induction false} RemoveNeighbours(flavour: Flavour, rows: seq<Message>, first: nat, last: nat,
        rows': seq<Message>)
    requires first <= last < |rows| && rows' == rows[..first] + rows[last + 1..]
    ensures var was, now := AllNeighbourFlags(flavour, rows), AllNeighbourFlags(flavour, rows');
            ShowSeam(now, ShowRemoved(was, first, last), first, first) == now
  {
    var was, now := AllNeighbourFlags(flavour, rows), AllNeighbourFlags(flavour, rows');
    var gone := last + 1 - first;
    forall k | 0 <= k < first
      ensures now[k].isFirst == was[k].isFirst && (k < first - 1 ==> now[k].isLast == was[k].isLast)
    {
      assert rows'[k] == rows[k];
      assert k > 0 ==> rows'[k - 1] == rows[k - 1];
      assert k < first - 1 ==> rows'[k + 1] == rows[k + 1];
    }
    forall k | first <= k < |now|
      ensures now[k].isLast == was[k + gone].isLast && (k > first ==> now[k].isFirst == was[k + gone].isFirst)
    {
      assert rows'[k] == rows[k + gone];
      assert k < |now| - 1 ==> rows'[k + 1] == rows[k + 1 + gone];
      assert k > first ==> rows'[k - 1] == rows[k - 1 + gone];
    }
    SeamAfterRemove(was, now, first, last);
  }

  /** Inserting rows anywhere and re-reading the two rows around them keeps the view exact. */
  lemma {:induction false} InsertKeepsShown(flavour: Flavour, rows: seq<Message>, index: map<int, int>,
                         added: seq<Message>, at: nat, rows': seq<Message>, index': map<int, int>)
    requires Indexed(rows, index) && NoAlbums(rows) && NoAlbums(added)
    requires at <= |rows| && added != [] && rows' == rows[..at] + added + rows[at..] && Indexed(rows', index')
    ensures NoAlbums(rows')
    ensures var now := AllFlags(flavour, rows', index');
            var shown := ShowInserted(now, AllFlags(flavour, rows, index), at, |added|);
            AfterNotices(flavour, now, shown, at, at + |added|) == now
  {
    FlagsFromNeighbours(flavour, rows, index);
    FlagsFromNeighbours(flavour, rows', index');
    InsertNeighbours(flavour, rows, added, at, rows');
  }

  /** Removing a range and re-reading the rows on either side of the cut keeps the view exact. */
  lemma {:induction false} RemoveKeepsShown(flavour: Flavour, rows: seq<Message>, index: map<int, int>,
                         first: nat, last: nat, rows': seq<Message>, index': map<int, int>)
    requires Indexed(rows, index) && NoAlbums(rows)
    requires first <= last < |rows| && rows' == rows[..first] + rows[last + 1..] && Indexed(rows', index')
    ensures NoAlbums(rows')
    ensures var now := AllFlags(flavour, rows', index');
            AfterNotices(flavour, now, ShowRemoved(AllFlags(flavour, rows, index), first, last), first, first) == now
  {
    FlagsFromNeighbours(flavour, rows, index);
    FlagsFromNeighbours(flavour, rows', index');
    RemoveNeighbours(flavour, rows, first, last, rows');
  }

  // A sent message gets its final data and goes to the end, without a word about flags

  /** Row `pos`, replaced by `m`, at the end of the list. */
  function SentRows(rows: seq<Message>, pos: nat, m: Message): (r: seq<Message>)
    requires pos < |rows|
    ensures |r| == |rows|
  {
    rows[..pos] + rows[pos + 1..] + [m]
  }

  function SentShown(shown: seq<RowFlags>, pos: nat): seq<RowFlags>
    requires pos < |shown|
  {
    shown[..pos] + shown[pos + 1..] + [shown[pos]]
  }

  /** The row was a sequence of its own, is one again at the end, and the rows it leaves do not join; or it was the last
      row, and joins the row before it as it did. */
  predicate SentAlone(rows: seq<Message>, pos: nat, m: Message)
    requires pos < |rows|
  {
    var n := |rows| - 1;
    if pos == n then n == 0 || (AreTogether(rows[n - 1], m) <==> AreTogether(rows[n - 1], rows[n]))
    else
      && !AreTogether(rows[pos], rows[pos + 1]) && !AreTogether(rows[n], m)
      && (pos == 0 || (!AreTogether(rows[pos - 1], rows[pos]) && !AreTogether(rows[pos - 1], rows[pos + 1])))
  }

  lemma {:induction false} SentNeighbours(rows: seq<Message>, pos: nat, m: Message)
    requires pos < |rows|
    ensures SentShown(AllNeighbourFlags(Readable, rows), pos) == AllNeighbourFlags(Readable, SentRows(rows, pos, m))
            <==> SentAlone(rows, pos, m)
  {
    var rows', n := SentRows(rows, pos, m), |rows| - 1;
    var was, now := SentShown(AllNeighbourFlags(Readable, rows), pos), AllNeighbourFlags(Readable, rows');
    assert forall k :: 0 <= k < n ==> was[k] == NeighbourFlags(Readable, rows, if k < pos then k else k + 1);
    assert was[n] == NeighbourFlags(Readable, rows, pos) && rows'[n] == m;
    if SentAlone(rows, pos, m) {
      forall k | 0 <= k <= n ensures was[k] == now[k] {
        if k < n { SentRow(rows, pos, m, k); }
      }
    } else {
      SentNotAlone(rows, pos, m, was, now);
    }
  }

  lemma {:induction false} SentNotAlone(rows: seq<Message>, pos: nat, m: Message, was: seq<RowFlags>,
        now: seq<RowFlags>)
    requires pos < |rows| == |was| && now == AllNeighbourFlags(Readable, SentRows(rows, pos, m))
    requires forall k :: 0 <= k < |rows| - 1 ==> was[k] == NeighbourFlags(Readable, rows, if k < pos then k else k + 1)
    requires was[|rows| - 1] == NeighbourFlags(Readable, rows, pos) && !SentAlone(rows, pos, m)
    ensures was != now
  {
    var rows', n := SentRows(rows, pos, m), |rows| - 1;
    assert forall k :: 0 <= k < n ==> rows'[k] == rows[if k < pos then k else k + 1];
    assert pos > 0 ==> now[pos - 1] == NeighbourFlags(Readable, rows', pos - 1);
    assert n > 0 ==> now[n - 1] == NeighbourFlags(Readable, rows', n - 1);
    assert now[n] == NeighbourFlags(Readable, rows', n);
  }

  /** A row other than the sent one. */
  lemma {:induction false} SentRow(rows: seq<Message>, pos: nat, m: Message, k: nat)
    requires pos < |rows| && k < |rows| - 1 && SentAlone(rows, pos, m)
    ensures NeighbourFlags(Readable, SentRows(rows, pos, m), k)
            == NeighbourFlags(Readable, rows, if k < pos then k else k + 1)
  {
    var rows', n := SentRows(rows, pos, m), |rows| - 1;
    assert forall j :: 0 <= j < n ==> rows'[j] == rows[if j < pos then j else j + 1];
    assert rows'[n] == m;
  }

  lemma {:induction false} SentKeepsAlbumless(rows: seq<Message>, pos: nat, m: Message)
    requires pos < |rows| && NoAlbums(rows) && m.albumId == 0 && m.Unmarked()
    ensures NoAlbums(SentRows(rows, pos, m))
  {
    assert forall k :: 0 <= k < |rows| - 1 ==> SentRows(rows, pos, m)[k] == rows[if k < pos then k else k + 1];
  }

  /** The view stays right exactly in that case; the inverted model's always does. */
  lemma {:induction false} SentShownExact(flavour: Flavour, rows: seq<Message>, index: map<int, int>, pos: nat,
        m: Message, index': map<int, int>)
    requires pos < |rows| && Indexed(rows, index) && Indexed(SentRows(rows, pos, m), index')
    requires NoAlbums(rows) && m.albumId == 0 && m.Unmarked()
    ensures SentShown(AllFlags(flavour, rows, index), pos) == AllFlags(flavour, SentRows(rows, pos, m), index')
            <==> flavour == InvertedMedia || SentAlone(rows, pos, m)
  {
    var rows' := SentRows(rows, pos, m);
    SentKeepsAlbumless(rows, pos, m);
    FlagsFromNeighbours(flavour, rows, index);
    FlagsFromNeighbours(flavour, rows', index');
    if flavour == Readable {
      SentNeighbours(rows, pos, m);
    }
  }
}
