/** What reconciling the folder tabs with a new list of folders leaves, and when that is the requested order
    (src/chatfoldersmodel.cpp:218-308). */
module FolderOrder {

  /** A tab: the main chat list or a folder with its description. */
  datatype Row = Main | Folder(id: int, data: string)

  /** The main chat list has no description, so its id reads as 0. */
  function Id(row: Row): int {
    if row.Main? then 0 else row.id
  }

  ghost predicate DistinctIds(rows: seq<Row>) {
    forall i, j :: 0 <= i < j < |rows| ==> Id(rows[i]) != Id(rows[j])
  }

  /** What TDLib sends: folders with distinct ids, none of them 0. */
  ghost predicate Requestable(folders: seq<Row>) {
    DistinctIds(folders) && forall k :: 0 <= k < |folders| ==> folders[k].Folder? && folders[k].id != 0
  }

  /** The main chat list at most once, and folders with distinct ids other than 0. */
  ghost predicate Listed(rows: seq<Row>) {
    DistinctIds(rows) && forall k :: 0 <= k < |rows| && rows[k].Folder? ==> rows[k].id != 0
  }

  /** What the tabs are meant to be: such a list that has the main chat list. */
  ghost predicate Tabs(rows: seq<Row>) {
    Listed(rows) && exists m :: 0 <= m < |rows| && rows[m].Main?
  }

  function IdSet(rows: seq<Row>): set<int> {
    set k | 0 <= k < |rows| :: Id(rows[k])
  }

  /** The rows whose id is not among the given ones. */
  function Drop(rows: seq<Row>, ids: set<int>): (r: seq<Row>)
    ensures |r| <= |rows|
  {
    if rows == [] then []
    else (if Id(rows[0]) in ids then [] else [rows[0]]) + Drop(rows[1..], ids)
  }

  lemma {:induction false} DropConcat(a: seq<Row>, b: seq<Row>, ids: set<int>)
    ensures Drop(a + b, ids) == Drop(a, ids) + Drop(b, ids)
  {
    if a == [] {
      assert a + b == b;
    } else {
      assert (a + b)[1..] == a[1..] + b;
      DropConcat(a[1..], b, ids);
    }
  }

  lemma {:induction false} DropTwice(rows: seq<Row>, a: set<int>, b: set<int>)
    ensures Drop(Drop(rows, a), b) == Drop(rows, a + b)
  {
    if rows == [] {
    } else {
      DropTwice(rows[1..], a, b);
      var head := if Id(rows[0]) in a then [] else [rows[0]];
      DropConcat(head, Drop(rows[1..], a), b);
      assert head == [] || head[1..] == [];
    }
  }

  lemma {:induction false} DropNone(rows: seq<Row>, ids: set<int>)
    requires forall k :: 0 <= k < |rows| ==> Id(rows[k]) !in ids
    ensures Drop(rows, ids) == rows
  {
    if rows == [] {
    } else {
      DropNone(rows[1..], ids);
    }
  }

  lemma {:induction false} DropAll(rows: seq<Row>, ids: set<int>)
    ensures Drop(rows, ids) == [] <==> forall k :: 0 <= k < |rows| ==> Id(rows[k]) in ids
  {
    if rows == [] {
    } else {
      DropAll(rows[1..], ids);
      assert forall k :: 1 <= k < |rows| ==> rows[k] == rows[1..][k - 1];
    }
  }

  /** Every remaining row was there, and has none of the ids. */
  lemma {:induction false} DropMembers(rows: seq<Row>, ids: set<int>)
    ensures forall r :: r in Drop(rows, ids) <==> r in rows && Id(r) !in ids
  {
    if rows == [] {
    } else {
      DropMembers(rows[1..], ids);
      assert rows == [rows[0]] + rows[1..];
    }
  }

  /** Dropping the id of one row removes exactly that row. */
  lemma {:induction false} DropOne(before: seq<Row>, row: Row, after: seq<Row>)
    requires forall k :: 0 <= k < |before| ==> Id(before[k]) != Id(row)
    requires forall k :: 0 <= k < |after| ==> Id(after[k]) != Id(row)
    ensures Drop(before + [row] + after, {Id(row)}) == before + after
  {
    var ids := {Id(row)};
    assert Drop([row], ids) == [] by {
      assert [row][1..] == [];
    }
    assert Drop(before, ids) == before by {
      DropNone(before, ids);
    }
    assert Drop(after, ids) == after by {
      DropNone(after, ids);
    }
    DropConcat(before + [row], after, ids);
    DropConcat(before, [row], ids);
  }

  /** Takes the folder out, if it is there, and puts it at its row, or at the end of a shorter list. */
  function Put(rows: seq<Row>, folder: Row, at: nat): seq<Row> {
    var rest := Drop(rows, {Id(folder)});
    var row := if at < |rest| then at else |rest|;
    rest[..row] + [folder] + rest[row..]
  }

  /** The row folder number i goes to: the main chat list takes one. */
  function Target(i: nat, position: nat): nat {
    if i >= position then i + 1 else i
  }

  /** The rows after the first n requested folders have been put in place. */
  function PutAll(rows: seq<Row>, folders: seq<Row>, position: nat, n: nat): seq<Row>
    requires n <= |folders|
  {
    if n == 0 then rows
    else Put(PutAll(rows, folders, position, n - 1), folders[n - 1], Target(n - 1, position))
  }

  /** The main chat list and the folders that stay, with the main chat list moved to its position. */
  function Started(rows: seq<Row>, folders: seq<Row>, position: nat): seq<Row> {
    var kept := Kept(rows, folders);
    if position <= |kept| then kept[..position] + [Main] + kept[position..] else [Main] + kept
  }

  /** The folders that stay. */
  function Kept(rows: seq<Row>, folders: seq<Row>): seq<Row> {
    if rows == [] then []
    else (if rows[0].Folder? && rows[0].id in IdSet(folders) then [rows[0]] else []) + Kept(rows[1..], folders)
  }

  /** The tabs after an update. */
  function Reconciled(rows: seq<Row>, folders: seq<Row>, position: nat): seq<Row> {
    PutAll(Started(rows, folders, position), folders, position, |folders|)
  }

  /** The order TDLib asks for. */
  function Requested(folders: seq<Row>, position: nat): seq<Row>
    requires position <= |folders|
  {
    folders[..position] + [Main] + folders[position..]
  }

  /** The requested folders come in place one after the other, followed by the rows that are not placed yet. */
  lemma {:induction false} FirstFolders(rows: seq<Row>, folders: seq<Row>, position: nat, n: nat)
    requires n <= position && n <= |folders| && Requestable(folders)
    ensures PutAll(rows, folders, position, n) == folders[..n] + Drop(rows, IdSet(folders[..n]))
  {
    if n == 0 {
      DropNone(rows, IdSet(folders[..0]));
    } else {
      FirstFolders(rows, folders, position, n - 1);
      PutNext(folders, n - 1, folders[..n - 1], rows, n - 1);
      assert folders[..n] == folders[..n - 1] + [folders[n - 1]];
    }
  }

  /** Putting folder number i behind rows that are in place already. */
  lemma {:induction false} PutNext(folders: seq<Row>, i: nat, placed: seq<Row>, rows: seq<Row>, at: nat)
    requires i < |folders| && Requestable(folders) && at == |placed|
    requires forall k :: 0 <= k < |placed| ==> Id(placed[k]) != Id(folders[i])
    ensures Put(placed + Drop(rows, IdSet(folders[..i])), folders[i], at)
         == placed + [folders[i]] + Drop(rows, IdSet(folders[..i + 1]))
  {
    var id := Id(folders[i]);
    var waiting := Drop(rows, IdSet(folders[..i]));
    DropConcat(placed, waiting, {id});
    DropNone(placed, {id});
    DropTwice(rows, IdSet(folders[..i]), {id});
    NextIds(folders, i);
    var rest := placed + Drop(waiting, {id});
    assert rest[..at] == placed && rest[at..] == Drop(waiting, {id});
  }

  lemma {:induction false} NextIds(folders: seq<Row>, i: nat)
    requires i < |folders|
    ensures IdSet(folders[..i + 1]) == IdSet(folders[..i]) + {Id(folders[i])}
  {
    var before, after := folders[..i], folders[..i + 1];
    assert forall k :: 0 <= k < i ==> after[k] == before[k];
    assert after[i] == folders[i];
    forall id | id in IdSet(before) + {Id(folders[i])} ensures id in IdSet(after) {
      if id in IdSet(before) {
        var k :| 0 <= k < |before| && Id(before[k]) == id;
        assert Id(after[k]) == id;
      } else {
        assert Id(after[i]) == id;
      }
    }
  }

  /** The rows once the first n folders, more than `position`, are all in place. */
  function InPlace(behind: seq<Row>, folders: seq<Row>, position: nat, n: nat): seq<Row>
    requires position < n <= |folders|
  {
    folders[..position] + [Main] + folders[position..n] + Drop(behind, IdSet(folders[..n]))
  }

  /** Once no folder waits ahead of the main chat list, the rest comes in place behind it. */
  lemma {:induction false} LaterFolders(ahead: seq<Row>, behind: seq<Row>, rows: seq<Row>, folders: seq<Row>,
        position: nat, n: nat)
    requires position < n <= |folders| && Requestable(folders) && rows == ahead + [Main] + behind
    requires Drop(ahead, IdSet(folders[..position + 1])) == []
    ensures PutAll(rows, folders, position, n) == InPlace(behind, folders, position, n)
  {
    if n == position + 1 {
      FirstBehind(ahead, behind, folders, position);
    } else {
      LaterFolders(ahead, behind, rows, folders, position, n - 1);
      LaterFolder(PutAll(rows, folders, position, n - 1), behind, folders, position, n - 1);
    }
  }

  lemma {:induction false} LaterFolder(rows: seq<Row>, behind: seq<Row>, folders: seq<Row>, position: nat, n: nat)
    requires position < n < |folders| && Requestable(folders)
    requires rows == InPlace(behind, folders, position, n)
    ensures Put(rows, folders[n], n + 1) == InPlace(behind, folders, position, n + 1)
  {
    OthersPlaced(folders, position, n);
    PutNext(folders, n, folders[..position] + [Main] + folders[position..n], behind, n + 1);
    PlacedNext(folders, position, n);
  }

  lemma {:induction false} FirstBehind(ahead: seq<Row>, behind: seq<Row>, folders: seq<Row>, position: nat)
    requires position < |folders| && Requestable(folders)
    requires Drop(ahead, IdSet(folders[..position + 1])) == []
    ensures PutAll(ahead + [Main] + behind, folders, position, position + 1)
         == InPlace(behind, folders, position, position + 1)
  {
    FirstFolders(ahead + [Main] + behind, folders, position, position);
    PutAcross(folders, position, ahead, behind);
    assert folders[position..position + 1] == [folders[position]];
    var left := Drop(behind, IdSet(folders[..position + 1]));
    var rest := folders[..position] + ([] + [Main] + left);
    assert rest[..position + 1] == folders[..position] + [Main] && rest[position + 1..] == left;
  }

  lemma {:induction false} PlacedNext(folders: seq<Row>, position: nat, n: nat)
    requires position <= n < |folders|
    ensures folders[..position] + [Main] + folders[position..n + 1]
         == (folders[..position] + [Main] + folders[position..n]) + [folders[n]]
  {
    assert folders[position..n + 1] == folders[position..n] + [folders[n]];
  }

  lemma {:induction false} OthersPlaced(folders: seq<Row>, position: nat, n: nat)
    requires position <= n < |folders| && Requestable(folders)
    ensures var placed := folders[..position] + [Main] + folders[position..n];
            forall k :: 0 <= k < |placed| ==> Id(placed[k]) != Id(folders[n])
  {
    var placed := folders[..position] + [Main] + folders[position..n];
    forall k | 0 <= k < |placed| ensures Id(placed[k]) != Id(folders[n]) {
      assert placed[k] == if k < position then folders[k] else if k == position then Main else folders[k - 1];
    }
  }

  /** Where the folder right behind the main chat list's position goes depends on who still waits ahead. */
  lemma {:induction false} PutAcross(folders: seq<Row>, position: nat, ahead: seq<Row>, behind: seq<Row>)
    requires position < |folders| && Requestable(folders)
    ensures var ids := IdSet(folders[..position + 1]);
            var rest := folders[..position] + (Drop(ahead, ids) + [Main] + Drop(behind, ids));
            && Put(folders[..position] + Drop(ahead + [Main] + behind, IdSet(folders[..position])), folders[position],
                   position + 1)
               == rest[..position + 1] + [folders[position]] + rest[position + 1..]
  {
    var id := Id(folders[position]);
    var placed, rows := folders[..position], ahead + [Main] + behind;
    var waiting := Drop(rows, IdSet(placed));
    DropConcat(placed, waiting, {id});
    DropNone(placed, {id});
    DropTwice(rows, IdSet(placed), {id});
    NextIds(folders, position);
    DropMain(ahead, behind, IdSet(folders[..position + 1]));
  }

  lemma {:induction false} DropMain(ahead: seq<Row>, behind: seq<Row>, ids: set<int>)
    requires 0 !in ids
    ensures Drop(ahead + [Main] + behind, ids) == Drop(ahead, ids) + [Main] + Drop(behind, ids)
  {
    DropConcat(ahead + [Main], behind, ids);
    DropConcat(ahead, [Main], ids);
  }

  /** Putting a folder keeps the ids distinct, and replaces what the list had for the folder. */
  lemma {:induction false} PutMembers(rows: seq<Row>, folder: Row, at: nat)
    requires DistinctIds(rows)
    ensures DistinctIds(Put(rows, folder, at))
    ensures forall r :: r in Put(rows, folder, at) <==> r == folder || (r in rows && Id(r) != Id(folder))
  {
    var rest := Drop(rows, {Id(folder)});
    var row := if at < |rest| then at else |rest|;
    DropMembers(rows, {Id(folder)});
    DropDistinct(rows, {Id(folder)});
    forall k | 0 <= k < |rest| ensures Id(rest[k]) != Id(folder) {
      assert rest[k] in rest;
    }
    InsertDistinct(rest, folder, row);
    InsertMembers(rest, folder, row);
  }

  lemma {:induction false} InsertDistinct(rows: seq<Row>, folder: Row, at: nat)
    requires at <= |rows| && DistinctIds(rows) && forall k :: 0 <= k < |rows| ==> Id(rows[k]) != Id(folder)
    ensures DistinctIds(rows[..at] + [folder] + rows[at..])
  {
    var all := rows[..at] + [folder] + rows[at..];
    forall i, j | 0 <= i < j < |all| ensures Id(all[i]) != Id(all[j]) {
      assert all[i] == if i < at then rows[i] else if i == at then folder else rows[i - 1];
      assert all[j] == if j < at then rows[j] else if j == at then folder else rows[j - 1];
    }
  }

  lemma {:induction false} InsertMembers(rows: seq<Row>, folder: Row, at: nat)
    requires at <= |rows|
    ensures forall r :: r in rows[..at] + [folder] + rows[at..] <==> r == folder || r in rows
  {
    assert rows == rows[..at] + rows[at..];
  }

  lemma {:induction false} DropDistinct(rows: seq<Row>, ids: set<int>)
    requires DistinctIds(rows)
    ensures DistinctIds(Drop(rows, ids))
  {
    if rows == [] {
    } else {
      DropDistinct(rows[1..], ids);
      DropMembers(rows[1..], ids);
      var tail := Drop(rows[1..], ids);
      forall k | 0 <= k < |tail| ensures Id(tail[k]) != Id(rows[0]) {
        assert tail[k] in rows[1..];
        var j :| 0 <= j < |rows| - 1 && rows[1..][j] == tail[k];
        assert rows[j + 1] == tail[k];
      }
    }
  }

  /** What the rows hold once the first n folders are in place: those as requested, the others as they were. */
  ghost predicate Holding(all: seq<Row>, rows: seq<Row>, folders: seq<Row>, n: nat)
    requires n <= |folders|
  {
    forall r :: r in all <==> r in folders[..n] || (r in rows && Id(r) !in IdSet(folders[..n]))
  }

  lemma {:induction false} PutAllMembers(rows: seq<Row>, folders: seq<Row>, position: nat, n: nat)
    requires n <= |folders| && Requestable(folders) && DistinctIds(rows)
    ensures DistinctIds(PutAll(rows, folders, position, n))
    ensures Holding(PutAll(rows, folders, position, n), rows, folders, n)
  {
    if n == 0 {
    } else {
      PutAllMembers(rows, folders, position, n - 1);
      PutNextMembers(PutAll(rows, folders, position, n - 1), rows, folders, n - 1, Target(n - 1, position));
    }
  }

  lemma {:induction false} PutNextMembers(before: seq<Row>, rows: seq<Row>, folders: seq<Row>, n: nat, at: nat)
    requires n < |folders| && Requestable(folders) && DistinctIds(before) && Holding(before, rows, folders, n)
    ensures DistinctIds(Put(before, folders[n], at))
    ensures Holding(Put(before, folders[n], at), rows, folders, n + 1)
  {
    PutMembers(before, folders[n], at);
    HoldingNext(before, Put(before, folders[n], at), rows, folders, n);
  }

  lemma {:induction false} HoldingNext(before: seq<Row>, after: seq<Row>, rows: seq<Row>, folders: seq<Row>, n: nat)
    requires n < |folders| && Requestable(folders) && Holding(before, rows, folders, n)
    requires forall r :: r in after <==> r == folders[n] || (r in before && Id(r) != Id(folders[n]))
    ensures Holding(after, rows, folders, n + 1)
  {
    NextIds(folders, n);
    assert folders[..n + 1] == folders[..n] + [folders[n]];
    forall r | r in folders[..n] ensures Id(r) != Id(folders[n]) {
      var k :| 0 <= k < n && folders[..n][k] == r;
      assert folders[k] == r;
    }
  }

  /** The folders ahead of the main chat list when it has been moved. */
  function Ahead(rows: seq<Row>, folders: seq<Row>, position: nat): seq<Row> {
    var kept := Kept(rows, folders);
    if position <= |kept| then kept[..position] else kept
  }

  /** The folders asked for ahead of the main chat list, and the one right behind it. */
  function Near(folders: seq<Row>, position: nat): set<int> {
    IdSet(if position < |folders| then folders[..position + 1] else folders)
  }

  /** Whether every folder ahead of the main chat list is asked for at most one place behind it. */
  predicate NobodyStrays(rows: seq<Row>, folders: seq<Row>, position: nat)
  {
    var ahead := Ahead(rows, folders, position);
    forall k :: 0 <= k < |ahead| ==> Id(ahead[k]) in Near(folders, position)
  }

  lemma {:induction false} KeptMembers(rows: seq<Row>, folders: seq<Row>)
    ensures forall r :: r in Kept(rows, folders) <==> r in rows && r.Folder? && r.id in IdSet(folders)
  {
    if rows == [] {
    } else {
      KeptMembers(rows[1..], folders);
      assert rows == [rows[0]] + rows[1..];
    }
  }

  lemma {:induction false} KeptDistinct(rows: seq<Row>, folders: seq<Row>)
    requires DistinctIds(rows)
    ensures DistinctIds(Kept(rows, folders))
  {
    if rows == [] {
    } else {
      KeptDistinct(rows[1..], folders);
      KeptMembers(rows[1..], folders);
      var tail := Kept(rows[1..], folders);
      forall k | 0 <= k < |tail| ensures Id(tail[k]) != Id(rows[0]) {
        assert tail[k] in rows[1..];
        var j :| 0 <= j < |rows| - 1 && rows[1..][j] == tail[k];
        assert rows[j + 1] == tail[k];
      }
    }
  }

  lemma {:induction false} StartedDistinct(rows: seq<Row>, folders: seq<Row>, position: nat)
    requires Tabs(rows) && position <= |Kept(rows, folders)|
    ensures DistinctIds(Started(rows, folders, position))
    ensures forall r :: r in Started(rows, folders, position) <==> r == Main || r in Kept(rows, folders)
  {
    var kept := Kept(rows, folders);
    KeptMembers(rows, folders);
    KeptDistinct(rows, folders);
    forall k | 0 <= k < |kept| ensures Id(kept[k]) != Id(Main) {
      assert kept[k] in kept;
      var j :| 0 <= j < |rows| && rows[j] == kept[k];
    }
    InsertDistinct(kept, Main, position);
    InsertMembers(kept, Main, position);
  }

  /** Whatever the order, the tabs end up as the main chat list and the requested folders, each of them once. */
  lemma {:induction false} NothingLost(rows: seq<Row>, folders: seq<Row>, position: nat)
    requires Tabs(rows) && Requestable(folders) && position <= |Kept(rows, folders)|
    ensures DistinctIds(Reconciled(rows, folders, position))
    ensures forall r :: r in Reconciled(rows, folders, position) <==> r == Main || r in folders
  {
    StartedDistinct(rows, folders, position);
    PutAllMembers(Started(rows, folders, position), folders, position, |folders|);
    KeptMembers(rows, folders);
    assert folders[..|folders|] == folders;
    assert 0 !in IdSet(folders);
  }

  lemma {:induction false} IdSetSize(rows: seq<Row>)
    ensures |IdSet(rows)| <= |rows|
    ensures DistinctIds(rows) ==> |IdSet(rows)| == |rows|
  {
    if rows == [] {
    } else {
      var last := |rows| - 1;
      assert rows[..last + 1] == rows;
      NextIds(rows, last);
      IdSetSize(rows[..last]);
    }
  }

  lemma {:induction false} SubsetSize(a: set<int>, b: set<int>)
    requires a <= b
    ensures |a| <= |b|
  {
    assert b == a + (b - a);
  }

  /** No more folders stay than are asked for. */
  lemma {:induction false} KeptSize(rows: seq<Row>, folders: seq<Row>)
    requires DistinctIds(rows)
    ensures |Kept(rows, folders)| <= |folders|
  {
    var kept := Kept(rows, folders);
    KeptDistinct(rows, folders);
    KeptMembers(rows, folders);
    IdSetSize(kept);
    IdSetSize(folders);
    forall id | id in IdSet(kept) ensures id in IdSet(folders) {
      var k :| 0 <= k < |kept| && Id(kept[k]) == id;
      assert kept[k] in kept;
    }
    SubsetSize(IdSet(kept), IdSet(folders));
  }

  /** The main chat list is shut out of its position: a folder sits there, and it or the one below will not move
      again. */
  ghost predicate Stuck(rows: seq<Row>, folders: seq<Row>, position: nat, n: nat)
    requires position < n <= |folders|
  {
    && |rows| > position + 1 && rows[..position] == folders[..position]
    && rows[position].Folder? && DistinctIds(rows)
    && (rows[position] in folders[..n] || rows[position + 1] in folders[..n])
  }

  lemma {:induction false} OtherIds(folders: seq<Row>, n: nat)
    requires n < |folders| && Requestable(folders)
    ensures forall r :: r in folders[..n] ==> r.Folder? && Id(r) != Id(folders[n])
  {
    forall r | r in folders[..n] ensures r.Folder? && Id(r) != Id(folders[n]) {
      var k :| 0 <= k < n && folders[..n][k] == r;
      assert folders[k] == r;
    }
  }

  /** Taking the next folder out of the list leaves a folder at the position that will not move again, or below it. */
  ghost predicate StuckRest(rest: seq<Row>, folders: seq<Row>, position: nat, n: nat)
    requires position < n < |folders|
  {
    && |rest| > position && rest[..position] == folders[..position] && rest[position].Folder?
    && (rest[position] in folders[..n] || (|rest| > position + 1 && rest[position + 1] in folders[..n]))
  }

  lemma {:induction false} StuckWithout(rows: seq<Row>, j: nat, folders: seq<Row>, position: nat, n: nat)
    requires position < n < |folders| && Requestable(folders) && Stuck(rows, folders, position, n)
    requires j < |rows| && Id(rows[j]) == Id(folders[n])
    ensures StuckRest(rows[..j] + rows[j + 1..], folders, position, n)
  {
    OtherIds(folders, n);
    var rest := rows[..j] + rows[j + 1..];
    forall k | 0 <= k < position ensures Id(rows[k]) != Id(folders[n]) {
      assert rows[k] == rows[..position][k] == folders[k];
    }
    assert rest[..position] == rows[..position];
    assert rest[position] == if j == position then rows[position + 1] else rows[position];
    assert j > position + 1 ==> rest[position + 1] == rows[position + 1];
  }

  lemma {:induction false} StaysStuck(rows: seq<Row>, folders: seq<Row>, position: nat, n: nat)
    requires position < n < |folders| && Requestable(folders) && Stuck(rows, folders, position, n)
    ensures Stuck(Put(rows, folders[n], n + 1), folders, position, n + 1)
  {
    StuckRestOf(rows, folders, position, n);
    PutMembers(rows, folders[n], n + 1);
    StuckAgain(Drop(rows, {Id(folders[n])}), folders, position, n);
  }

  lemma {:induction false} StuckRestOf(rows: seq<Row>, folders: seq<Row>, position: nat, n: nat)
    requires position < n < |folders| && Requestable(folders) && Stuck(rows, folders, position, n)
    ensures StuckRest(Drop(rows, {Id(folders[n])}), folders, position, n)
  {
    if j :| 0 <= j < |rows| && Id(rows[j]) == Id(folders[n]) {
      DropAt(rows, j);
      StuckWithout(rows, j, folders, position, n);
    } else {
      DropNone(rows, {Id(folders[n])});
    }
  }

  lemma {:induction false} StuckAgain(rest: seq<Row>, folders: seq<Row>, position: nat, n: nat)
    requires position < n < |folders| && StuckRest(rest, folders, position, n)
    ensures var row := if n + 1 < |rest| then n + 1 else |rest|;
            var all := rest[..row] + [folders[n]] + rest[row..];
            DistinctIds(all) ==> Stuck(all, folders, position, n + 1)
  {
    var row := if n + 1 < |rest| then n + 1 else |rest|;
    var all := rest[..row] + [folders[n]] + rest[row..];
    assert folders[..n + 1] == folders[..n] + [folders[n]];
    assert all[..position] == rest[..position];
    assert all[position] == rest[position];
    assert |rest| > position + 1 ==> all[position + 1] == rest[position + 1];
  }

  lemma {:induction false} DropAt(rows: seq<Row>, j: nat)
    requires j < |rows| && DistinctIds(rows)
    ensures Drop(rows, {Id(rows[j])}) == rows[..j] + rows[j + 1..]
  {
    var before, after := rows[..j], rows[j + 1..];
    assert rows == before + [rows[j]] + after;
    forall k | 0 <= k < |after| ensures Id(after[k]) != Id(rows[j]) {
      assert after[k] == rows[j + 1 + k];
    }
    DropOne(before, rows[j], after);
  }

  lemma {:induction false} GetsStuck(ahead: seq<Row>, behind: seq<Row>, rows: seq<Row>, folders: seq<Row>,
        position: nat, n: nat)
    requires position < n <= |folders| && Requestable(folders) && rows == ahead + [Main] + behind && DistinctIds(rows)
    requires Drop(ahead, IdSet(folders[..position + 1])) != []
    requires forall r :: r in ahead ==> r.Folder?
    ensures Stuck(PutAll(rows, folders, position, n), folders, position, n)
  {
    if n == position + 1 {
      FirstStuck(ahead, behind, folders, position);
    } else {
      GetsStuck(ahead, behind, rows, folders, position, n - 1);
      StaysStuck(PutAll(rows, folders, position, n - 1), folders, position, n - 1);
    }
  }

  lemma {:induction false} FirstStuck(ahead: seq<Row>, behind: seq<Row>, folders: seq<Row>, position: nat)
    requires position < |folders| && Requestable(folders) && DistinctIds(ahead + [Main] + behind)
    requires Drop(ahead, IdSet(folders[..position + 1])) != []
    requires forall r :: r in ahead ==> r.Folder?
    ensures Stuck(PutAll(ahead + [Main] + behind, folders, position, position + 1), folders, position, position + 1)
  {
    var rows := ahead + [Main] + behind;
    var ids := IdSet(folders[..position + 1]);
    var strays := Drop(ahead, ids);
    FirstFolders(rows, folders, position, position);
    PutAcross(folders, position, ahead, behind);
    PutAllMembers(rows, folders, position, position + 1);
    DropMembers(ahead, ids);
    assert strays[0] in strays;
    Crossed(folders, position, strays, Drop(behind, ids));
  }

  lemma {:induction false} Crossed(folders: seq<Row>, position: nat, strays: seq<Row>, behind: seq<Row>)
    requires position < |folders| && strays != [] && strays[0].Folder?
    ensures var rest := folders[..position] + (strays + [Main] + behind);
            var all := rest[..position + 1] + [folders[position]] + rest[position + 1..];
            DistinctIds(all) ==> Stuck(all, folders, position, position + 1)
  {
    var rest := folders[..position] + (strays + [Main] + behind);
    var all := rest[..position + 1] + [folders[position]] + rest[position + 1..];
    assert all[..position] == folders[..position];
    assert all[position] == strays[0];
    assert all[position + 1] == folders[..position + 1][position];
  }

  /** The tabs come out in the requested order exactly when nobody strays, and the main chat list is at its position
      exactly then. With the main chat list first, nobody can stray. */
  lemma {:induction false} OrderExact(rows: seq<Row>, folders: seq<Row>, position: nat)
    requires Tabs(rows) && Requestable(folders) && position <= |Kept(rows, folders)|
    ensures position <= |folders| && |Reconciled(rows, folders, position)| > position
    ensures NobodyStrays(rows, folders, position)
            <==> Reconciled(rows, folders, position) == Requested(folders, position)
    ensures NobodyStrays(rows, folders, position) <==> Reconciled(rows, folders, position)[position] == Main
    ensures position == 0 ==> NobodyStrays(rows, folders, position)
  {
    KeptSize(rows, folders);
    if NobodyStrays(rows, folders, position) {
      OrderIfNobodyStrays(rows, folders, position);
    } else {
      StuckIfSomebodyStrays(rows, folders, position);
    }
  }

  lemma {:induction false} OrderIfNobodyStrays(rows: seq<Row>, folders: seq<Row>, position: nat)
    requires Tabs(rows) && Requestable(folders) && position <= |Kept(rows, folders)| && position <= |folders|
    requires NobodyStrays(rows, folders, position)
    ensures Reconciled(rows, folders, position) == Requested(folders, position)
  {
    var kept := Kept(rows, folders);
    KeptMembers(rows, folders);
    var ahead, behind := Ahead(rows, folders, position), kept[position..];
    AllDropped(behind, kept, folders);
    if position == |folders| {
      AllDropped(ahead, kept, folders);
      MainLast(ahead, behind, folders);
    } else {
      NearDropped(rows, folders, position);
      MainBetween(ahead, behind, folders, position);
    }
  }

  lemma {:induction false} NearDropped(rows: seq<Row>, folders: seq<Row>, position: nat)
    requires position < |folders|
    ensures NobodyStrays(rows, folders, position)
            <==> Drop(Ahead(rows, folders, position), IdSet(folders[..position + 1])) == []
  {
    DropAll(Ahead(rows, folders, position), Near(folders, position));
  }

  lemma {:induction false} MainLast(ahead: seq<Row>, behind: seq<Row>, folders: seq<Row>)
    requires Requestable(folders)
    requires Drop(ahead, IdSet(folders)) == [] && Drop(behind, IdSet(folders)) == []
    ensures PutAll(ahead + [Main] + behind, folders, |folders|, |folders|) == Requested(folders, |folders|)
  {
    FirstFolders(ahead + [Main] + behind, folders, |folders|, |folders|);
    assert folders[..|folders|] == folders && folders[|folders|..] == [];
    DropMain(ahead, behind, IdSet(folders));
  }

  lemma {:induction false} MainBetween(ahead: seq<Row>, behind: seq<Row>, folders: seq<Row>, position: nat)
    requires Requestable(folders) && position < |folders|
    requires Drop(ahead, IdSet(folders[..position + 1])) == [] && Drop(behind, IdSet(folders)) == []
    ensures PutAll(ahead + [Main] + behind, folders, position, |folders|) == Requested(folders, position)
  {
    LaterFolders(ahead, behind, ahead + [Main] + behind, folders, position, |folders|);
    assert folders[..|folders|] == folders && folders[position..|folders|] == folders[position..];
  }

  lemma {:induction false} StuckIfSomebodyStrays(rows: seq<Row>, folders: seq<Row>, position: nat)
    requires Tabs(rows) && Requestable(folders) && position <= |Kept(rows, folders)| && position <= |folders|
    requires !NobodyStrays(rows, folders, position)
    ensures |Reconciled(rows, folders, position)| > position && Reconciled(rows, folders, position)[position].Folder?
  {
    var kept := Kept(rows, folders);
    KeptMembers(rows, folders);
    StartedDistinct(rows, folders, position);
    var ahead, behind := kept[..position], kept[position..];
    var k :| 0 <= k < |ahead| && Id(ahead[k]) !in Near(folders, position);
    assert ahead[k] in kept;
    assert folders[..|folders|] == folders;
    DropAll(ahead, IdSet(folders[..position + 1]));
    GetsStuck(ahead, behind, ahead + [Main] + behind, folders, position, |folders|);
  }

  lemma {:induction false} AllDropped(part: seq<Row>, kept: seq<Row>, folders: seq<Row>)
    requires forall r :: r in part ==> r in kept
    requires forall r :: r in kept ==> r.Folder? && r.id in IdSet(folders)
    ensures Drop(part, IdSet(folders)) == []
  {
    DropAll(part, IdSet(folders));
  }

  /** Two new folders and the main chat list go ahead of two folders that stay, but those are moved to the front
      first: the main chat list ends up behind the first of them. */
  lemma {:induction false} StraysShiftMain()
    ensures var a, b, c, d := Folder(1, "a"), Folder(2, "b"), Folder(3, "c"), Folder(4, "d");
            && Tabs([Main, a, b]) && Requestable([c, d, a, b]) && |Kept([Main, a, b], [c, d, a, b])| == 2
            && Reconciled([Main, a, b], [c, d, a, b], 2) != Requested([c, d, a, b], 2)
  {
    var a, b, c, d := Folder(1, "a"), Folder(2, "b"), Folder(3, "c"), Folder(4, "d");
    var rows, folders := [Main, a, b], [c, d, a, b];
    BothStay(folders);
    assert rows[0].Main?;
    assert folders[..3] == [c, d, a];
    assert Ahead(rows, folders, 2)[1] == b;
    OrderExact(rows, folders, 2);
  }

  lemma {:induction false} BothStay(folders: seq<Row>)
    requires |folders| == 4 && Id(folders[2]) == 1 && Id(folders[3]) == 2
    ensures Kept([Main, Folder(1, "a"), Folder(2, "b")], folders) == [Folder(1, "a"), Folder(2, "b")]
  {
    var a, b := Folder(1, "a"), Folder(2, "b");
    assert [Main, a, b][1..] == [a, b] && [a, b][1..] == [b] && [b][1..] == [];
    assert Kept([b], folders) == [b];
    assert Kept([a, b], folders) == [a, b];
  }
}
