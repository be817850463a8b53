/** The folder tabs, their index and their reconciliation in place (src/chatfoldersmodel.cpp:116-126, 218-366). */
module ChatFolders {
  import opened FolderOrder
  import opened ListMoves
  import opened Lists

  /** Every folder's entry is its row, and there is no entry for a folder that is gone. The key 0 may hold a row of the
      main chat list. */
  ghost predicate Indexed(index: map<int, nat>, rows: seq<Row>) {
    (forall r :: 0 <= r < |rows| ==> Entered(index, rows[r], r)) && index.Keys + {0} == IdSet(rows) + {0}
  }

  predicate Entered(index: map<int, nat>, row: Row, r: nat) {
    row.Folder? ==> row.id in index && index[row.id] == r
  }

  predicate Stays(row: Row, folders: seq<Row>) {
    row.Main? || row.id in IdSet(folders)
  }

  /** The rows left by the removal of the folders that are not asked for any more. */
  function Staying(rows: seq<Row>, folders: seq<Row>): seq<Row> {
    if rows == [] then []
    else (if Stays(rows[0], folders) then [rows[0]] else []) + Staying(rows[1..], folders)
  }

  lemma {:induction false} StayingMembers(rows: seq<Row>, folders: seq<Row>)
    ensures forall r :: r in Staying(rows, folders) <==> r in rows && Stays(r, folders)
  {
    if rows == [] {
    } else {
      StayingMembers(rows[1..], folders);
      assert rows == [rows[0]] + rows[1..];
    }
  }

  lemma {:induction false} KeptIsStaying(rows: seq<Row>, folders: seq<Row>)
    requires forall k :: 0 <= k < |rows| && rows[k].Folder? ==> rows[k].id != 0
    ensures Kept(rows, folders) == Drop(Staying(rows, folders), {0})
  {
    if rows == [] {
    } else {
      KeptIsStaying(rows[1..], folders);
      var head := if Stays(rows[0], folders) then [rows[0]] else [];
      DropConcat(head, Staying(rows[1..], folders), {0});
      assert head == [] || head[1..] == [];
    }
  }

  /** The rows that stay keep being tabs, one of them the main chat list if there is one. */
  lemma {:induction false} StayingTabs(rows: seq<Row>, folders: seq<Row>)
    requires Listed(rows)
    ensures Listed(Staying(rows, folders)) && (Tabs(Staying(rows, folders)) <==> Tabs(rows))
  {
    StayingMembers(rows, folders);
    StayingDistinct(rows, folders);
    var staying := Staying(rows, folders);
    assert Main in staying <==> Main in rows;
    MainIsThere(rows);
    MainIsThere(staying);
    forall k | 0 <= k < |staying| && staying[k].Folder? ensures staying[k].id != 0 {
      assert staying[k] in staying;
      var j :| 0 <= j < |rows| && rows[j] == staying[k];
    }
  }

  lemma {:induction false} MainIsThere(rows: seq<Row>)
    ensures Main in rows <==> exists m :: 0 <= m < |rows| && rows[m].Main?
  {
    if Main in rows {
      var m :| 0 <= m < |rows| && rows[m] == Main;
      assert rows[m].Main?;
    }
  }

  lemma {:induction false} StayingDistinct(rows: seq<Row>, folders: seq<Row>)
    requires DistinctIds(rows)
    ensures DistinctIds(Staying(rows, folders))
  {
    if rows == [] {
    } else {
      StayingDistinct(rows[1..], folders);
      StayingMembers(rows[1..], folders);
      var tail := Staying(rows[1..], folders);
      forall k | 0 <= k < |tail| ensures Id(tail[k]) != Id(rows[0]) {
        assert tail[k] in rows[1..];
        var j :| 0 <= j < |rows| - 1 && rows[1..][j] == tail[k];
        assert rows[j + 1] == tail[k];
      }
    }
  }

  /** Moving the main chat list stays inside the list exactly if its position is not behind the folders that stay. */
  lemma {:induction false} MoveInRange(rows: seq<Row>, folders: seq<Row>, position: nat, m: nat)
    requires Tabs(rows) && m < |Staying(rows, folders)| && Staying(rows, folders)[m].Main?
    ensures var staying := Staying(rows, folders);
            && Kept(rows, folders) == staying[..m] + staying[m + 1..]
            && ((if position < |staying| then position else |staying|) < |staying|
                <==> position <= |Kept(rows, folders)|)
  {
    KeptIsStaying(rows, folders);
    StayingDistinct(rows, folders);
    DropAt(Staying(rows, folders), m);
  }

  /** An ordinary first update leaves the list: only the main chat list is there, and it is to stand behind one new
      folder, which is inserted only after the move. */
  lemma {:induction false} FirstUpdateLeavesList()
    ensures Tabs([Main]) && Requestable([Folder(1, "")])
    ensures Staying([Main], [Folder(1, "")]) == [Main] && Kept([Main], [Folder(1, "")]) == []
    ensures 1 > |Kept([Main], [Folder(1, "")])|
  {
    var rows, folders := [Main], [Folder(1, "")];
    assert rows[0].Main? && rows[1..] == [];
    assert Staying(rows, folders) == [Main] + Staying([], folders);
    KeptIsStaying(rows, folders);
    DropAll([Main], {0});
  }

  // Removing a range

  lemma {:induction false} IdsWithout(rows: seq<Row>, first: nat, last: nat)
    requires first <= last < |rows| && DistinctIds(rows)
    ensures var left := rows[..first] + rows[last + 1..];
            DistinctIds(left) && IdSet(left) == IdSet(rows) - IdSet(rows[first..last + 1])
  {
    var left, gone := rows[..first] + rows[last + 1..], rows[first..last + 1];
    assert forall k :: 0 <= k < |left| ==> left[k] == rows[if k < first then k else k + last + 1 - first];
    forall k | first <= k <= last ensures Id(rows[k]) in IdSet(gone) {
      assert Id(gone[k - first]) == Id(rows[k]);
    }
    forall id | id in IdSet(rows) - IdSet(gone) ensures id in IdSet(left) {
      var k :| 0 <= k < |rows| && Id(rows[k]) == id;
      assert Id(left[if k < first then k else k - (last + 1 - first)]) == id;
    }
    forall id | id in IdSet(left) ensures id in IdSet(rows) - IdSet(gone) {
      var k :| 0 <= k < |left| && Id(left[k]) == id;
      assert Id(rows[if k < first then k else k + last + 1 - first]) == id;
    }
  }

  /** What `reset` leaves: the rows before the recorded row of the main chat list go first, and then those behind the
      row of that number in what is left. The first range leaves the list if the recorded row is further than that. */
  function LeftByReset(rows: seq<Row>, main: int): seq<Row>
    requires main <= |rows|
  {
    var left := CutRange(rows, 0, main - 1);
    CutRange(left, main + 1, |left| - 1)
  }

  lemma {:induction false} ResetInTwo(rows: seq<Row>, main: int, left: seq<Row>, rows': seq<Row>)
    requires main <= |rows| && left == CutRange(rows, 0, main - 1)
    requires rows' == CutRange(left, main + 1, |left| - 1)
    ensures rows' == LeftByReset(rows, main)
  {
  }

  /** The rows from the recorded one on stay, and no more behind it than there were before it. */
  lemma {:induction false} ResetLeaves(rows: seq<Row>, main: nat)
    requires main <= |rows|
    ensures LeftByReset(rows, main) == rows[main..if 2 * main + 1 < |rows| then 2 * main + 1 else |rows|]
  {
    var left := CutRange(rows, 0, main - 1);
    assert left == rows[main..];
    assert LeftByReset(rows, main) == if main + 1 < |left| then left[..main + 1] else left;
  }

  /** For any recorded row that does not make the first range leave the list: only the main chat list is left if and
      only if its row is the recorded one and it is the first or the last tab, or there is nothing else and no row is
      recorded at all. */
  lemma {:induction false} ResetExact(rows: seq<Row>, main: int)
    requires main <= |rows|
    ensures LeftByReset(rows, main) == [Main]
            <==> (0 <= main < |rows| && rows[main].Main? && (main == 0 || main == |rows| - 1))
                 || (main < -1 && rows == [Main])
  {
    if main >= 0 {
      ResetLeaves(rows, main);
    } else if main == -1 {
      assert LeftByReset(rows, main) == [];
    } else {
      assert LeftByReset(rows, main) == rows;
    }
  }

  /** A folder stays behind the main chat list. */
  lemma {:induction false} ResetKeepsFolder()
    ensures LeftByReset([Folder(1, ""), Main, Folder(2, "")], 1) == [Main, Folder(2, "")]
  {
    var rows := [Folder(1, ""), Main, Folder(2, "")];
    assert CutRange(rows, 0, 0) == [Main, Folder(2, "")];
  }

  /** Logging out resets twice, and the recorded row is not corrected in between. Only the main chat list is left then
      if and only if it was the first tab. Otherwise the second reset removes the main chat list itself, or leaves the
      list if there were fewer tabs than twice the recorded row. */
  lemma {:induction false} TwoResetsExact(rows: seq<Row>, main: nat)
    requires Tabs(rows) && main < |rows| && rows[main].Main?
    ensures var once := LeftByReset(rows, main);
            && Tabs(once)
            && (main <= |once| <==> 2 * main <= |rows|)
            && (main <= |once| && LeftByReset(once, main) == [Main] <==> main == 0)
            && (0 < main <= |once| ==> Main !in LeftByReset(once, main))
  {
    var once := LeftByReset(rows, main);
    ResetLeaves(rows, main);
    assert forall k :: 0 <= k < |once| ==> once[k] == rows[main + k];
    assert once[0].Main?;
    if main == 0 {
      assert once == [Main];
      ResetLeaves(once, 0);
    } else if main <= |once| {
      MainIsBehind(once, main);
    }
  }

  /** A recorded row other than the first one, where the main chat list is. */
  lemma {:induction false} MainIsBehind(rows: seq<Row>, main: nat)
    requires Tabs(rows) && rows[0].Main? && 0 < main <= |rows|
    ensures Main !in LeftByReset(rows, main) && LeftByReset(rows, main) != [Main]
  {
    ResetLeaves(rows, main);
    var left := LeftByReset(rows, main);
    forall k | 0 <= k < |left| ensures left[k] != Main {
      assert left[k] == rows[main + k] && Id(rows[0]) == 0;
    }
    assert Main in [Main];
  }

  /** The main chat list behind one folder is removed, behind two folders the second reset leaves the list. */
  lemma {:induction false} SecondResetRemovesMain()
    ensures LeftByReset([Folder(1, ""), Main], 1) == [Main] && LeftByReset([Main], 1) == []
    ensures LeftByReset([Folder(1, ""), Folder(2, ""), Main], 2) == [Main] && 2 > |[Main]|
  {
    ResetLeaves([Folder(1, ""), Main], 1);
    ResetLeaves([Main], 1);
    ResetLeaves([Folder(1, ""), Folder(2, ""), Main], 2);
  }

  /** The row at an index after a move, by the rows before it. */
  function MovedRow(rows: seq<Row>, from: nat, to: nat, k: nat): Row
    requires from < |rows| && to < |rows| && k < |rows|
  {
    if k == to then rows[from]
    else if from <= k < to then rows[k + 1]
    else if to < k <= from then rows[k - 1]
    else rows[k]
  }

  lemma {:induction false} MoveAt(rows: seq<Row>, from: nat, to: nat)
    requires from < |rows| && to < |rows|
    ensures |Move(rows, from, to)| == |rows|
    ensures forall k :: 0 <= k < |rows| ==> Move(rows, from, to)[k] == MovedRow(rows, from, to, k)
  {
  }

  /** Where a move takes a row. */
  function NewRow(from: nat, to: nat, k: nat): nat {
    if k == from then to else if from < k <= to then k - 1 else if to <= k < from then k + 1 else k
  }

  /** A move keeps the tabs and their ids. */
  lemma {:induction false} MoveKeeps(rows: seq<Row>, from: nat, to: nat)
    requires from < |rows| && to < |rows| && Tabs(rows)
    ensures Tabs(Move(rows, from, to)) && IdSet(Move(rows, from, to)) == IdSet(rows)
    ensures |Move(rows, from, to)| == |rows|
    ensures forall k :: 0 <= k < |rows| ==> Move(rows, from, to)[k] == MovedRow(rows, from, to, k)
  {
    MoveAt(rows, from, to);
    MovedTabs(rows, Move(rows, from, to), from, to);
  }

  lemma {:induction false} MovedTabs(rows: seq<Row>, moved: seq<Row>, from: nat, to: nat)
    requires from < |rows| && to < |rows| == |moved| && Tabs(rows)
    requires forall k :: 0 <= k < |rows| ==> moved[k] == MovedRow(rows, from, to, k)
    ensures Tabs(moved) && IdSet(moved) == IdSet(rows)
  {
    MoveDistinct(rows, moved, from, to);
    forall k | 0 <= k < |rows| ensures rows[k] == moved[NewRow(from, to, k)] && rows[k] in moved {
      assert moved[NewRow(from, to, k)] == MovedRow(rows, from, to, NewRow(from, to, k));
    }
    SameIds(rows, moved);
    var m :| 0 <= m < |rows| && rows[m].Main?;
    assert moved[NewRow(from, to, m)].Main?;
  }

  lemma {:induction false} MoveDistinct(rows: seq<Row>, moved: seq<Row>, from: nat, to: nat)
    requires from < |rows| && to < |rows| == |moved| && DistinctIds(rows)
    requires forall k :: 0 <= k < |rows| ==> moved[k] == MovedRow(rows, from, to, k)
    ensures DistinctIds(moved)
  {
  }

  lemma {:induction false} SameIds(rows: seq<Row>, moved: seq<Row>)
    requires forall k :: 0 <= k < |rows| ==> rows[k] in moved
    requires forall k :: 0 <= k < |moved| ==> moved[k] in rows
    ensures IdSet(rows) == IdSet(moved)
  {
    forall id | id in IdSet(rows) ensures id in IdSet(moved) {
      var k :| 0 <= k < |rows| && Id(rows[k]) == id;
      MemberId(moved, rows[k]);
    }
    forall id | id in IdSet(moved) ensures id in IdSet(rows) {
      var k :| 0 <= k < |moved| && Id(moved[k]) == id;
      MemberId(rows, moved[k]);
    }
  }

  /** A folder that is put in place is in range: so many rows are there already. */
  lemma {:induction false} PlacedInRange(rows: seq<Row>, folders: seq<Row>, position: nat, n: nat)
    requires n < |folders| && Requestable(folders) && DistinctIds(rows) && Main in rows
    requires folders[n].id in IdSet(PutAll(rows, folders, position, n))
    ensures n + 1 < |PutAll(rows, folders, position, n)|
  {
    var all := PutAll(rows, folders, position, n);
    PutAllMembers(rows, folders, position, n);
    assert Main in all;
    HoldsIds(all, folders, n);
    MoreRows(all, folders[..n + 1]);
  }

  /** Rows that hold the ids of distinct folders and the main chat list are more than the folders. */
  lemma {:induction false} MoreRows(all: seq<Row>, folders: seq<Row>)
    requires DistinctIds(all) && DistinctIds(folders) && 0 !in IdSet(folders) && IdSet(folders) + {0} <= IdSet(all)
    ensures |folders| < |all|
  {
    SubsetSize(IdSet(folders) + {0}, IdSet(all));
    IdSetSize(folders);
    IdSetSize(all);
  }

  lemma {:induction false} HoldsIds(all: seq<Row>, folders: seq<Row>, n: nat)
    requires n < |folders| && Main in all && Id(folders[n]) in IdSet(all)
    requires forall r :: r in folders[..n] ==> r in all
    ensures IdSet(folders[..n + 1]) + {0} <= IdSet(all)
  {
    NextIds(folders, n);
    MemberId(all, Main);
    forall id | id in IdSet(folders[..n]) ensures id in IdSet(all) {
      var k :| 0 <= k < n && Id(folders[..n][k]) == id;
      assert folders[..n][k] in folders[..n];
      MemberId(all, folders[..n][k]);
    }
  }

  lemma {:induction false} MemberId(rows: seq<Row>, row: Row)
    requires row in rows
    ensures Id(row) in IdSet(rows)
  {
    var k :| 0 <= k < |rows| && rows[k] == row;
    assert Id(rows[k]) == Id(row);
  }

  lemma {:induction false} StayingStep(rows: seq<Row>, folders: seq<Row>, i: nat)
    requires i < |rows|
    ensures var all := rows[..i + 1] + Staying(rows[i + 1..], folders);
            && all[i] == rows[i]
            && rows[..i] + Staying(rows[i..], folders)
               == if Stays(rows[i], folders) then all else all[..i] + all[i + 1..]
  {
    assert rows[i..][1..] == rows[i + 1..];
  }

  lemma {:induction false} OneId(rows: seq<Row>, i: nat)
    requires i < |rows|
    ensures IdSet(rows[i..i + 1]) == {Id(rows[i])}
  {
    assert rows[i..i + 1] == [rows[i]];
    assert Id([rows[i]][0]) in IdSet([rows[i]]);
  }

  lemma {:induction false} TailIds(rows: seq<Row>, i: nat)
    requires i <= |rows|
    ensures IdSet(rows[i..]) <= IdSet(rows)
  {
    forall id | id in IdSet(rows[i..]) ensures id in IdSet(rows) {
      var k :| 0 <= k < |rows| - i && Id(rows[i..][k]) == id;
      assert Id(rows[i + k]) == id;
    }
  }

  /** A new description keeps the tabs, their ids and the index. */
  lemma {:induction false} Described(rows: seq<Row>, at: nat, folder: Row)
    requires at < |rows| && Tabs(rows) && rows[at].Folder? && folder.Folder? && folder.id == rows[at].id
    ensures Tabs(rows[at := folder]) && IdSet(rows[at := folder]) == IdSet(rows)
  {
    var after := rows[at := folder];
    forall id | id in IdSet(rows) ensures id in IdSet(after) {
      var k :| 0 <= k < |rows| && Id(rows[k]) == id;
      assert Id(after[k]) == id;
    }
    var m :| 0 <= m < |rows| && rows[m].Main?;
    assert after[m].Main?;
  }

  lemma {:induction false} InsertKeeps(rows: seq<Row>, at: nat, folder: Row)
    requires at <= |rows| && Tabs(rows) && folder.Folder? && folder.id != 0 && folder.id !in IdSet(rows)
    ensures var all := rows[..at] + [folder] + rows[at..];
            Tabs(all) && IdSet(all) == IdSet(rows) + {folder.id}
  {
    var all := rows[..at] + [folder] + rows[at..];
    forall k | 0 <= k < |rows| ensures Id(rows[k]) != Id(folder) {
      assert Id(rows[k]) in IdSet(rows);
    }
    InsertDistinct(rows, folder, at);
    InsertedTabs(rows, all, at, folder);
  }

  lemma {:induction false} InsertedTabs(rows: seq<Row>, all: seq<Row>, at: nat, folder: Row)
    requires at <= |rows| && Tabs(rows) && folder.Folder? && folder.id != 0 && DistinctIds(all)
    requires all == rows[..at] + [folder] + rows[at..]
    ensures Tabs(all) && IdSet(all) == IdSet(rows) + {folder.id}
  {
    assert forall k :: 0 <= k < |all| ==> all[k] == if k < at then rows[k] else if k == at then folder else rows[k - 1];
    forall id | id in IdSet(rows) ensures id in IdSet(all) {
      var k :| 0 <= k < |rows| && Id(rows[k]) == id;
      assert Id(all[if k < at then k else k + 1]) == id;
    }
    assert Id(all[at]) == folder.id;
    var m :| 0 <= m < |rows| && rows[m].Main?;
    assert all[if m < at then m else m + 1].Main?;
  }

  /** Describing a folder anew and moving it is taking it out and putting it at its row. */
  lemma {:induction false} Relocated(rows: seq<Row>, from: nat, folder: Row, to: nat)
    requires from < |rows| && to < |rows| && DistinctIds(rows) && Id(rows[from]) == Id(folder)
    ensures Put(rows, folder, to) == Move(rows[from := folder], from, to)
    ensures from == to ==> Put(rows, folder, to) == rows[from := folder]
  {
    DropAt(rows, from);
    var rest := rows[..from] + rows[from + 1..];
    var after := rows[from := folder];
    assert after[..from] + after[from + 1..] == rest;
    assert from == to ==> rest[..from] + [folder] + rest[from..] == after;
  }

  lemma {:induction false} PositionInRange(rows: seq<Row>, folders: seq<Row>, position: nat)
    requires Tabs(rows)
    ensures position < |Staying(rows, folders)| <==> position <= |Kept(rows, folders)|
  {
    StayingTabs(rows, folders);
    var m :| 0 <= m < |Staying(rows, folders)| && Staying(rows, folders)[m].Main?;
    MoveInRange(rows, folders, position, m);
  }

  /** The main chat list has been moved to its position. */
  ghost predicate MainMoved(rows: seq<Row>, moved: seq<Row>, position: nat)
    requires position < |rows|
  {
    exists m :: 0 <= m < |rows| && rows[m].Main? && moved == Move(rows, m, position)
  }

  lemma {:induction false} StartedByMove(rows: seq<Row>, folders: seq<Row>, position: nat, moved: seq<Row>)
    requires Tabs(rows) && position < |Staying(rows, folders)|
    requires MainMoved(Staying(rows, folders), moved, position)
    ensures moved == Started(rows, folders, position)
    ensures DistinctIds(moved) && Main in moved
  {
    var staying := Staying(rows, folders);
    var m :| 0 <= m < |staying| && staying[m].Main? && moved == Move(staying, m, position);
    MoveInRange(rows, folders, position, m);
    StartedDistinct(rows, folders, position);
  }

  /** The rows from `from` up to, but not including, `to` have their entry, the main chat list under key 0. */
  ghost predicate EnteredFrom(index: map<int, nat>, rows: seq<Row>, from: nat, to: nat) {
    forall k :: from <= k < to <= |rows| ==> Id(rows[k]) in index && index[Id(rows[k])] == k
  }

  /** What was entered for the rows before `to` still is. */
  ghost predicate SameBefore(index: map<int, nat>, index': map<int, nat>, rows: seq<Row>, to: nat) {
    forall k :: 0 <= k < to <= |rows| && Id(rows[k]) in index ==>
      Id(rows[k]) in index' && index'[Id(rows[k])] == index[Id(rows[k])]
  }

  /** The rows from `from` up to, but not including, `to` have been entered again. */
  ghost predicate Rebuilt(before: map<int, nat>, index: map<int, nat>, rows: seq<Row>, from: nat, to: nat)
    requires from <= to <= |rows|
  {
    && index.Keys == before.Keys + IdSet(rows[from..to])
    && EnteredFrom(index, rows, from, to) && SameBefore(before, index, rows, from)
  }

  lemma {:induction false} EnterNext(before: map<int, nat>, index: map<int, nat>, rows: seq<Row>, i: nat, j: nat)
    requires i <= j < |rows| && DistinctIds(rows) && Rebuilt(before, index, rows, i, j)
    ensures Rebuilt(before, index[Id(rows[j]) := j], rows, i, j + 1)
  {
    NextIds(rows[i..], j - i);
    assert rows[i..][..j - i] == rows[i..j] && rows[i..][..j - i + 1] == rows[i..j + 1];
  }

  /** The index after the removal of a range, if the rows behind it have been entered again. */
  lemma {:induction false} RemovedIndexed(rows: seq<Row>, first: nat, last: nat, index: map<int, nat>,
        rebuilt: map<int, nat>)
    requires first <= last < |rows| && DistinctIds(rows) && Indexed(index, rows)
    requires var left, gone := rows[..first] + rows[last + 1..], IdSet(rows[first..last + 1]);
             && rebuilt.Keys == index.Keys - gone + IdSet(left[first..])
             && EnteredFrom(rebuilt, left, first, |left|) && SameBefore(index - gone, rebuilt, left, first)
    ensures Indexed(rebuilt, rows[..first] + rows[last + 1..])
  {
    var left, gone := rows[..first] + rows[last + 1..], rows[first..last + 1];
    IdsWithout(rows, first, last);
    TailIds(left, first);
    forall k | 0 <= k < |left| ensures Entered(rebuilt, left[k], k) {
      if k < first {
        assert left[k] == rows[k] && Entered(index, rows[k], k) && Id(left[k]) in IdSet(left);
      }
    }
    SameKeys(index.Keys, rebuilt.Keys, IdSet(rows), IdSet(gone), IdSet(left[first..]), IdSet(left));
  }

  lemma {:induction false} SameKeys(keys: set<int>, keys': set<int>, ids: set<int>, gone: set<int>, tail: set<int>,
        left: set<int>)
    requires keys + {0} == ids + {0} && keys' == keys - gone + tail && left == ids - gone && tail <= left
    ensures keys' + {0} == left + {0}
  {
    forall id | id != 0 ensures id in keys <==> id in ids {
      assert id in keys + {0} <==> id in ids + {0};
    }
  }

  class ChatFoldersModel {
    var chatFolders: seq<Row>
    var chatFoldersIndexMap: map<int, nat>
    var mainChatListIndex: int

    /** The main chat list may be missing, which a second reset can bring about. */
    ghost predicate Consistent()
      reads this
    {
      Listed(chatFolders) && Indexed(chatFoldersIndexMap, chatFolders)
    }

    ghost predicate Valid()
      reads this
    {
      Tabs(chatFolders) && Consistent()
    }

    constructor ()
      ensures Valid() && chatFolders == [Main] && mainChatListIndex == 0
    {
      chatFolders, chatFoldersIndexMap, mainChatListIndex := [Main], map[], 0;
      new;
      assert chatFolders[0].Main?;
    }

    /** Rebuilds the index from a row on; the row of the main chat list goes under key 0. */
    method RebuildFrom(i: nat)
      requires i <= |chatFolders| && DistinctIds(chatFolders)
      modifies `chatFoldersIndexMap
      ensures chatFoldersIndexMap.Keys == old(chatFoldersIndexMap.Keys) + IdSet(chatFolders[i..])
      ensures EnteredFrom(chatFoldersIndexMap, chatFolders, i, |chatFolders|)
      ensures SameBefore(old(chatFoldersIndexMap), chatFoldersIndexMap, chatFolders, i)
    {
      assert chatFolders[i..i] == [];
      for j := i to |chatFolders|
        invariant Rebuilt(old(chatFoldersIndexMap), chatFoldersIndexMap, chatFolders, i, j)
      {
        EnterNext(old(chatFoldersIndexMap), chatFoldersIndexMap, chatFolders, i, j);
        chatFoldersIndexMap := chatFoldersIndexMap[Id(chatFolders[j]) := j];
      }
      assert chatFolders[i..|chatFolders|] == chatFolders[i..];
    }

    /** Removes the folder at a row and rebuilds the index behind it. */
    method RemoveAt(i: nat)
      requires i < |chatFolders| && chatFolders[i].Folder? && chatFolders[i].id != 0
      requires DistinctIds(chatFolders) && Indexed(chatFoldersIndexMap, chatFolders)
      modifies `chatFolders, `chatFoldersIndexMap
      ensures chatFolders == old(chatFolders)[..i] + old(chatFolders)[i + 1..]
      ensures DistinctIds(chatFolders) && Indexed(chatFoldersIndexMap, chatFolders)
    {
      ghost var rows, index := chatFolders, chatFoldersIndexMap;
      IdsWithout(chatFolders, i, i);
      assert IdSet(rows[i..i + 1]) == {Id(rows[i])} by { OneId(rows, i); }
      chatFoldersIndexMap := chatFoldersIndexMap - {chatFolders[i].id};
      chatFolders := chatFolders[..i] + chatFolders[i + 1..];
      RebuildFrom(i);
      RemovedIndexed(rows, i, i, index, chatFoldersIndexMap);
    }

    method IsRemoved(folders: seq<Row>, id: int) returns (removed: bool)
      requires Requestable(folders)
      ensures removed <==> id !in IdSet(folders)
    {
      removed := true;
      for k := 0 to |folders|
        invariant removed ==> forall j :: 0 <= j < k ==> Id(folders[j]) != id
        invariant !removed ==> id in IdSet(folders)
      {
        if folders[k].id == id {
          removed := false;
          assert Id(folders[k]) == id;
          break;
        }
      }
    }

    /** One pass of the removal loop. */
    method RemoveIfRemoved(folders: seq<Row>, i: nat)
      requires i < |chatFolders| && Requestable(folders) && (chatFolders[i].Folder? ==> chatFolders[i].id != 0)
      requires DistinctIds(chatFolders) && Indexed(chatFoldersIndexMap, chatFolders)
      modifies `chatFolders, `chatFoldersIndexMap
      ensures DistinctIds(chatFolders) && Indexed(chatFoldersIndexMap, chatFolders)
      ensures chatFolders == if Stays(old(chatFolders)[i], folders) then old(chatFolders)
                             else old(chatFolders)[..i] + old(chatFolders)[i + 1..]
    {
      if chatFolders[i].Folder? {
        var removed := IsRemoved(folders, chatFolders[i].id);
        if removed {
          RemoveAt(i);
        }
      }
    }

    method RemoveRemovedFolders(folders: seq<Row>)
      requires Consistent() && Requestable(folders)
      modifies `chatFolders, `chatFoldersIndexMap
      ensures Consistent() && chatFolders == Staying(old(chatFolders), folders)
    {
      ghost var rows := chatFolders;
      for i := |chatFolders| downto 0
        invariant i <= |rows| && chatFolders == rows[..i] + Staying(rows[i..], folders)
        invariant DistinctIds(chatFolders) && Indexed(chatFoldersIndexMap, chatFolders)
      {
        StayingStep(rows, folders, i);
        RemoveIfRemoved(folders, i);
      }
      assert rows[0..] == rows && rows[..0] == [];
      assert chatFolders == Staying(rows, folders);
      StayingTabs(rows, folders);
    }

    method UpdateChatFolderIndexAt(i: nat)
      requires i < |chatFolders|
      modifies `chatFoldersIndexMap, `mainChatListIndex
      ensures chatFoldersIndexMap == if chatFolders[i].Folder? then old(chatFoldersIndexMap)[chatFolders[i].id := i]
                                     else old(chatFoldersIndexMap)
      ensures mainChatListIndex == if chatFolders[i].Folder? then old(mainChatListIndex) else i
    {
      match chatFolders[i]
      case Folder(id, _) => chatFoldersIndexMap := chatFoldersIndexMap[id := i];
      case Main => mainChatListIndex := i;
    }

    /** Updates the index of the rows from `from` up to, but not including, `to`. */
    method UpdateIndexes(from: nat, to: nat)
      requires from <= to <= |chatFolders| && DistinctIds(chatFolders)
      modifies `chatFoldersIndexMap, `mainChatListIndex
      ensures forall k :: from <= k < to ==> Entered(chatFoldersIndexMap, chatFolders[k], k)
      ensures forall k :: 0 <= k < |chatFolders| && Entered(old(chatFoldersIndexMap), chatFolders[k], k) ==>
                Entered(chatFoldersIndexMap, chatFolders[k], k)
      ensures old(chatFoldersIndexMap.Keys) <= chatFoldersIndexMap.Keys
      ensures chatFoldersIndexMap.Keys <= old(chatFoldersIndexMap.Keys) + IdSet(chatFolders)
    {
      for i := from to to
        invariant forall k :: from <= k < i ==> Entered(chatFoldersIndexMap, chatFolders[k], k)
        invariant forall k :: 0 <= k < |chatFolders| && Entered(old(chatFoldersIndexMap), chatFolders[k], k) ==>
                    Entered(chatFoldersIndexMap, chatFolders[k], k)
        invariant old(chatFoldersIndexMap.Keys) <= chatFoldersIndexMap.Keys
        invariant chatFoldersIndexMap.Keys <= old(chatFoldersIndexMap.Keys) + IdSet(chatFolders)
      {
        assert Id(chatFolders[i]) in IdSet(chatFolders);
        UpdateChatFolderIndexAt(i);
      }
    }

    /** After a move the row it went to is correct already, the rows it passed are not. */
    method FinishMove(from: nat, to: nat)
      requires from < |chatFolders| && to < |chatFolders| && DistinctIds(chatFolders)
      requires chatFoldersIndexMap.Keys + {0} == IdSet(chatFolders) + {0}
      requires forall k :: 0 <= k < |chatFolders| && !(to < k <= from) && !(from <= k < to) ==>
                 Entered(chatFoldersIndexMap, chatFolders[k], k)
      modifies `chatFoldersIndexMap, `mainChatListIndex
      ensures Indexed(chatFoldersIndexMap, chatFolders)
    {
      var last := if from < to then to else from;
      if to < from {
        UpdateIndexes(to + 1, last + 1);
      } else {
        UpdateIndexes(from, last);
      }
    }

    method MainRow() returns (m: nat)
      requires Tabs(chatFolders)
      ensures m < |chatFolders| && chatFolders[m].Main?
    {
      m := 0;
      while !chatFolders[m].Main?
        invariant m < |chatFolders| && forall k :: 0 <= k < m ==> !chatFolders[k].Main?
        decreases |chatFolders| - m
      {
        m := m + 1;
      }
    }

    method MoveMain(position: nat)
      requires Valid() && position < |chatFolders|
      modifies this
      ensures Valid()
      ensures MainMoved(old(chatFolders), chatFolders, position)
    {
      var newMain := if position < |chatFolders| then position else |chatFolders|;
      var oldMain := MainRow();
      MoveKeeps(chatFolders, oldMain, newMain);
      if oldMain != newMain {
        chatFolders := Move(chatFolders, oldMain, newMain);
        mainChatListIndex := newMain;
        assert forall k :: 0 <= k < |chatFolders| ==> chatFolders[k] == MovedRow(old(chatFolders), oldMain, newMain, k);
        FinishMove(oldMain, newMain);
      } else {
        assert chatFolders == Move(chatFolders, oldMain, newMain);
      }
    }

    /** Updates the description of the folder where it is, if it is there. */
    method UpdateFolder(folder: Row) returns (oldIndex: int)
      requires Valid() && folder.Folder? && folder.id != 0
      modifies `chatFolders
      ensures Valid() && -1 <= oldIndex < |chatFolders| == |old(chatFolders)|
      ensures oldIndex == -1 ==> folder.id !in IdSet(chatFolders) && chatFolders == old(chatFolders)
      ensures oldIndex >= 0 ==> old(chatFolders)[oldIndex].Folder? && old(chatFolders)[oldIndex].id == folder.id
      ensures oldIndex >= 0 ==> chatFolders == old(chatFolders)[oldIndex := folder]
    {
      ghost var rows := chatFolders;
      oldIndex := -1;
      for j := 0 to |chatFolders|
        invariant |chatFolders| == |rows| && -1 <= oldIndex < j
        invariant oldIndex == -1 ==> chatFolders == rows && forall k :: 0 <= k < j ==> Id(rows[k]) != folder.id
        invariant oldIndex >= 0 ==> rows[oldIndex].Folder? && rows[oldIndex].id == folder.id
        invariant oldIndex >= 0 ==> chatFolders == rows[oldIndex := folder]
      {
        assert oldIndex >= 0 ==> Id(rows[oldIndex]) != Id(rows[j]);
        if chatFolders[j].Folder? && chatFolders[j].id == folder.id {
          chatFolders := chatFolders[j := folder];
          oldIndex := j;
        }
      }
      if oldIndex >= 0 {
        Described(rows, oldIndex, folder);
      }
    }

    /** Inserts a new folder, or moves one that is there already. */
    method PlaceFolder(i: nat, folder: Row, position: nat)
      requires Valid() && folder.Folder? && folder.id != 0
      requires folder.id in IdSet(chatFolders) ==> Target(i, position) < |chatFolders|
      modifies this
      ensures Valid() && chatFolders == Put(old(chatFolders), folder, Target(i, position))
    {
      var normalizedIndex := if i >= position then i + 1 else i;
      var oldIndex := UpdateFolder(folder);
      if oldIndex == -1 {
        var insertionIndex := if normalizedIndex < |chatFolders| then normalizedIndex else |chatFolders|;
        InsertFolder(insertionIndex, folder);
        DropNone(old(chatFolders), {folder.id});
      } else {
        Relocated(old(chatFolders), oldIndex, folder, normalizedIndex);
        if oldIndex != normalizedIndex {
          var newIndex := if normalizedIndex < |chatFolders| then normalizedIndex else |chatFolders|;
          MoveFolder(oldIndex, newIndex);
        }
      }
    }

    method InsertFolder(at: nat, folder: Row)
      requires Valid() && at <= |chatFolders| && folder.Folder? && folder.id != 0 && folder.id !in IdSet(chatFolders)
      modifies this
      ensures Valid() && chatFolders == old(chatFolders)[..at] + [folder] + old(chatFolders)[at..]
    {
      InsertKeeps(chatFolders, at, folder);
      chatFolders := chatFolders[..at] + [folder] + chatFolders[at..];
      FinishInsert(at);
    }

    method FinishInsert(at: nat)
      requires at < |chatFolders| && DistinctIds(chatFolders) && chatFolders[at].Folder?
      requires IdSet(chatFolders) + {0} == chatFoldersIndexMap.Keys + {0, chatFolders[at].id}
      requires forall k :: 0 <= k < at ==> Entered(chatFoldersIndexMap, chatFolders[k], k)
      modifies `chatFoldersIndexMap, `mainChatListIndex
      ensures Indexed(chatFoldersIndexMap, chatFolders)
    {
      UpdateIndexes(at, |chatFolders|);
      assert chatFolders[at].id in chatFoldersIndexMap;
    }

    method MoveFolder(from: nat, to: nat)
      requires Valid() && from < |chatFolders| && to < |chatFolders| && chatFolders[from].Folder? && from != to
      modifies this
      ensures Valid() && chatFolders == Move(old(chatFolders), from, to)
    {
      MoveKeeps(chatFolders, from, to);
      chatFolders := Move(chatFolders, from, to);
      assert forall k :: 0 <= k < |chatFolders| ==> chatFolders[k] == MovedRow(old(chatFolders), from, to, k);
      chatFoldersIndexMap := chatFoldersIndexMap[chatFolders[to].id := to];
      FinishMove(from, to);
    }

    /** Reconciles the tabs with a new list of folders. If the position is behind all folders that stay, or there is no
        main chat list any more, its move would leave the list, and the update ends there; nothing else can leave it. */
    method HandleChatFoldersUpdated(folders: seq<Row>, position: nat) returns (inRange: bool)
      requires Consistent() && Requestable(folders)
      modifies this
      ensures Consistent() && (Valid() <==> old(Valid()))
      ensures inRange == (old(Valid()) && position <= |Kept(old(chatFolders), folders)|)
      ensures !inRange ==> chatFolders == Staying(old(chatFolders), folders) && mainChatListIndex == -1
      ensures inRange ==> chatFolders == Reconciled(old(chatFolders), folders, position)
      ensures inRange ==> mainChatListIndex == position < |chatFolders|
      ensures inRange ==> (NobodyStrays(old(chatFolders), folders, position) <==> chatFolders[position] == Main)
    {
      ghost var rows := chatFolders;
      mainChatListIndex := -1;
      RemoveRemovedFolders(folders);
      StayingTabs(rows, folders);
      MainIsThere(chatFolders);
      inRange := Main in chatFolders && position < |chatFolders|;
      if Main in chatFolders {
        PositionInRange(rows, folders, position);
      }
      if inRange {
        MoveMain(position);
        StartedByMove(rows, folders, position, chatFolders);
        PlaceFolders(folders, position);
        mainChatListIndex := position;
        OrderExact(rows, folders, position);
      }
    }

    method RemoveRange(firstDeleted: int, lastDeleted: int)
      requires lastDeleted < |chatFolders| && Consistent()
      modifies `chatFolders, `chatFoldersIndexMap
      ensures Consistent() && chatFolders == CutRange(old(chatFolders), firstDeleted, lastDeleted)
    {
      if 0 <= firstDeleted <= lastDeleted {
        ghost var rows, index := chatFolders, chatFoldersIndexMap;
        IdsWithout(rows, firstDeleted, lastDeleted);
        RemoveEntries(firstDeleted, lastDeleted);
        chatFolders := chatFolders[..firstDeleted] + chatFolders[lastDeleted + 1..];
        RebuildFrom(firstDeleted);
        RemovedIndexed(rows, firstDeleted, lastDeleted, index, chatFoldersIndexMap);
      }
    }

    method RemoveEntries(first: nat, last: nat)
      requires first <= last < |chatFolders|
      modifies `chatFoldersIndexMap
      ensures chatFoldersIndexMap == old(chatFoldersIndexMap) - IdSet(chatFolders[first..last + 1])
    {
      ghost var gone := chatFolders[first..last + 1];
      for i := first to last + 1
        invariant chatFoldersIndexMap == old(chatFoldersIndexMap) - IdSet(gone[..i - first])
      {
        NextIds(gone, i - first);
        chatFoldersIndexMap := chatFoldersIndexMap - {Id(chatFolders[i])};
      }
      assert gone[..|gone|] == gone;
    }

    /** Meant to remove all folders; the second range is counted from the row the main chat list had before the first
        one went, and that row stays recorded. If it is behind the end of the list, the first range leaves the list, and
        the reset ends before. */
    method Reset() returns (inRange: bool)
      requires Consistent()
      modifies `chatFolders, `chatFoldersIndexMap
      ensures Consistent() && inRange == (mainChatListIndex <= |old(chatFolders)|)
      ensures chatFolders == if inRange then LeftByReset(old(chatFolders), mainChatListIndex) else old(chatFolders)
    {
      inRange := mainChatListIndex <= |chatFolders|;
      if inRange {
        ghost var rows := chatFolders;
        RemoveRange(0, mainChatListIndex - 1);
        ghost var left := chatFolders;
        RemoveRange(mainChatListIndex + 1, |chatFolders| - 1);
        ResetInTwo(rows, mainChatListIndex, left, chatFolders);
      }
    }

    /** The content is cleared when logging out begins and again when the instance closes. */
    method LogOut() returns (inRange: bool)
      requires Valid() && 0 <= mainChatListIndex < |chatFolders| && chatFolders[mainChatListIndex].Main?
      modifies `chatFolders, `chatFoldersIndexMap
      ensures Consistent() && inRange == (2 * mainChatListIndex <= |old(chatFolders)|)
      ensures inRange ==> (chatFolders == [Main] <==> mainChatListIndex == 0)
      ensures inRange && mainChatListIndex > 0 ==> Main !in chatFolders
    {
      TwoResetsExact(chatFolders, mainChatListIndex);
      inRange := Reset();
      inRange := Reset();
    }

    method PlaceFolders(folders: seq<Row>, position: nat)
      requires Valid() && Requestable(folders) && Main in chatFolders
      modifies this
      ensures Valid() && chatFolders == PutAll(old(chatFolders), folders, position, |folders|)
    {
      ghost var started := chatFolders;
      for i := 0 to |folders|
        invariant Valid() && chatFolders == PutAll(started, folders, position, i)
      {
        PlaceNext(started, folders, position, i);
      }
    }

    method PlaceNext(ghost started: seq<Row>, folders: seq<Row>, position: nat, i: nat)
      requires Valid() && Requestable(folders) && i < |folders| && DistinctIds(started) && Main in started
      requires chatFolders == PutAll(started, folders, position, i)
      modifies this
      ensures Valid() && chatFolders == PutAll(started, folders, position, i + 1)
    {
      if folders[i].id in IdSet(chatFolders) {
        PlacedInRange(started, folders, position, i);
      }
      PlaceFolder(i, folders[i], position);
    }
  }
}
