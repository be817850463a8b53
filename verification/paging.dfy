/** The paging protocol on the ids alone: what each call and each reply does to the loaded window
    (src/chat/jumpablemessagesmodel.cpp:30-112, src/chat/readablemessagesmodel.cpp:63-114). */
module Paging {
  import opened IdLists

  datatype UpdateType = UpdateInitial | UpdatePreviousSlice | UpdateNextSlice | UpdateReload

  /** A request for messages around `fromId`; 0 stands for the end of the chat. */
  datatype Request = Request(kind: UpdateType, fromId: int)

  datatype Window = Window(rows: seq<int>, waitingFor: map<UpdateType, bool>, startReached: bool, endReached: bool)
  {
    predicate Waiting(kind: UpdateType) {
      kind in waitingFor && waitingFor[kind]
    }

    predicate WaitingForSlice() {
      Waiting(UpdatePreviousSlice) || Waiting(UpdateNextSlice)
    }

    function Wait(kind: UpdateType, value: bool): Window {
      this.(waitingFor := waitingFor[kind := value])
    }
  }

  const CLEARED := Window([], map[], false, false)

  /** The new window and the requests it sends. */
  datatype Outcome = Outcome(window: Window, sent: seq<Request>)

  function LoadMoreHistory(w: Window): Outcome
  {
    if !w.startReached && !w.Waiting(UpdatePreviousSlice) && w.rows != [] then
      Outcome(w.Wait(UpdatePreviousSlice, true), [Request(UpdatePreviousSlice, w.rows[0])])
    else Outcome(w, [])
  }

  function LoadMoreFuture(w: Window): Outcome
  {
    if !w.endReached && !w.Waiting(UpdateNextSlice) && w.rows != [] then
      Outcome(w.Wait(UpdateNextSlice, true), [Request(UpdateNextSlice, w.rows[|w.rows| - 1])])
    else Outcome(w, [])
  }

  predicate CanJump(w: Window)
  {
    !w.WaitingForSlice() && w.rows != []
  }

  function LoadHistoryForMessage(w: Window, id: int): Outcome
  {
    if CanJump(w) then Outcome(CLEARED, [Request(UpdateInitial, id)]) else Outcome(w, [])
  }

  /** Unlike a jump to a message, this one also waits for an expected reload. */
  function LoadEnd(w: Window, markAllAsRead: bool, lastReadOutboxMessageId: int): Outcome
  {
    if CanJump(w) && !w.Waiting(UpdateReload) then
      Outcome(CLEARED, [Request(UpdateInitial, if markAllAsRead then 0 else lastReadOutboxMessageId)])
    else Outcome(w, [])
  }

  /** An append or a prepend: no batch is split. */
  function Insert(rows: seq<int>, added: seq<int>): seq<int>
    requires added != []
  {
    if rows == [] || rows[|rows| - 1] < added[0] then rows + added else added + rows
  }

  function Prepare(w: Window, kind: UpdateType, totalCount: int, lastMessageId: int): Window
  {
    var atEnd := w.endReached || lastMessageId in w.rows;
    if totalCount != 0 then w.(endReached := atEnd)
    else match kind
      case UpdateNextSlice => w.(endReached := true)
      case UpdatePreviousSlice => w.(endReached := atEnd, startReached := true)
      case UpdateInitial => w.(endReached := true, startReached := true)
      case UpdateReload => w.(endReached := atEnd)
  }

  function NotifyLoaded(w: Window, kind: UpdateType, totalCount: int, lastMessageId: int): Window
  {
    Prepare(w.Wait(kind, false), kind, totalCount, lastMessageId)
  }

  /** A reply that is taken in: the new rows, and either a reload for more or the notification. */
  function Accept(w: Window, kind: UpdateType, receivedCount: nat, added: seq<int>, totalCount: int,
        lastMessageId: int): Outcome
  {
    var w' := if added == [] then w else w.(rows := Insert(w.rows, added));
    if added != [] && |added| + receivedCount < 10 && kind != UpdateReload then
      Outcome(w'.Wait(UpdateReload, true), [Request(UpdateReload, added[0])])
    else Outcome(NotifyLoaded(w', kind, totalCount, lastMessageId), [])
  }

  /** A reply with `receivedCount` messages, of which `added` (in list order) are not loaded yet. */
  function MessagesReceived(w: Window, kind: UpdateType, receivedCount: nat, added: seq<int>, totalCount: int,
        lastMessageId: int): Outcome
  {
    var step :=
      if receivedCount == 0 then Outcome(NotifyLoaded(w, kind, totalCount, lastMessageId), [])
      else if w.Waiting(kind) || w.rows == [] then Accept(w, kind, receivedCount, added, totalCount, lastMessageId)
      else Outcome(w, []);
    Outcome(step.window.Wait(kind, false), step.sent)
  }

  function NewMessageReceived(w: Window, id: int): Window
  {
    if id !in w.rows && w.endReached then w.(rows := Insert(w.rows, [id])) else w
  }

  /** All of `added` is older, or all of it is newer, than what is loaded. */
  ghost predicate OneSided(rows: seq<int>, added: seq<int>)
  {
    rows != [] && added != [] ==> rows[|rows| - 1] < added[0] || added[|added| - 1] < rows[0]
  }

  /** The insertion keeps the list ascending exactly for one-sided batches: nothing else ends up in place. */
  lemma {:induction false} InsertKeepsOrder(rows: seq<int>, added: seq<int>)
    requires added != [] && Ascending(rows) && Ascending(added)
    ensures Ascending(Insert(rows, added)) <==> OneSided(rows, added)
  {
    var r := Insert(rows, added);
    if OneSided(rows, added) && rows != [] {
      forall i, j | 0 <= i < j < |r| ensures r[i] < r[j] {
        if rows[|rows| - 1] < added[0] {
          assert i < |rows| <= j ==> rows[i] <= rows[|rows| - 1] && added[0] <= added[j - |rows|];
        } else {
          assert i < |added| <= j ==> added[i] <= added[|added| - 1] && rows[0] <= rows[j - |added|];
        }
      }
    } else if rows != [] {
      assert r[|added| - 1] == added[|added| - 1] && r[|added|] == rows[0];
    }
  }

  /** A previous slice may hold one message newer than its anchor. With a single loaded row that is enough to
      break the order: 3 and 8 are new around the only row 5, and both go in front of it. */
  lemma {:induction false} PreviousSliceAroundSingleRow()
    ensures Insert([5], [3, 8]) == [3, 8, 5] && !Ascending(Insert([5], [3, 8]))
  {
    assert Insert([5], [3, 8])[1] > Insert([5], [3, 8])[2];
  }
}
