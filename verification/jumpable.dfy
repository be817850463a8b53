/** The paging calls and handlers as they change the object
    (src/chat/jumpablemessagesmodel.cpp, src/chat/readablemessagesmodel.cpp; the inherited list is the field `list`).
    Each method is tied to the step function of `Paging` that the runs are made of. */
module JumpableMessagesModels {
  import opened IdLists
  import opened Rows
  import opened Sequences
  import opened Arranging
  import opened MessagesModels
  import opened Paging
  import PagingRuns

  ghost predicate NoneSponsored(rows: seq<Message>)
  {
    forall k :: 0 <= k < |rows| ==> !rows[k].isSponsored
  }

  /** Whatever the list holds, it held before or it was received. */
  ghost predicate OnlyTaken(before: seq<Message>, received: seq<Message>, after: seq<Message>)
  {
    forall k :: 0 <= k < |after| ==> Bare(after)[k] in Bare(before) || Bare(after)[k] in Bare(received)
  }

  ghost predicate Albumless(received: seq<Message>)
  {
    forall k :: 0 <= k < |received| ==> received[k].albumId == 0
  }

  class ReadableMessagesModel {
    const list: MessagesModel
    var waitingFor: map<UpdateType, bool>
    var startReached: bool
    var endReached: bool
    var highlightedMessageId: int
    var loadingFullEnd: bool
    /** The requests handed to TDLib, oldest first. */
    var sent: seq<Request>

    ghost predicate Valid()
      reads this, list
    {
      list.Valid() && list.flavour == Readable && NoneSponsored(list.messages)
    }

    ghost function Snapshot(): Window
      reads this, list
    {
      Window(Ids(list.messages), waitingFor, startReached, endReached)
    }

    constructor (list: MessagesModel)
      requires list.Valid() && list.flavour == Readable && list.messages == []
      ensures Valid() && this.list == list && Snapshot() == CLEARED && sent == []
    {
      this.list := list;
      waitingFor := map[];
      startReached, endReached := false, false;
      highlightedMessageId := 0;
      loadingFullEnd := false;
      sent := [];
    }

    predicate IsWaiting(kind: UpdateType)
      reads this
    {
      kind in waitingFor && waitingFor[kind]
    }

    method Clear()
      requires Valid()
      modifies this, list
      ensures Valid() && Snapshot() == CLEARED && sent == old(sent)
      ensures highlightedMessageId == 0 && !loadingFullEnd && list.chatId == old(list.chatId)
      ensures (old(list.AlbumsOk()) ==> list.AlbumsOk()) && list.ViewOk()
    {
      loadingFullEnd := false;
      waitingFor := map[];
      startReached, endReached := false, false;
      highlightedMessageId := 0;
      var cleared := list.Clear();
    }

    method LoadMoreHistory()
      requires Valid()
      modifies this
      ensures Valid() && highlightedMessageId == old(highlightedMessageId)
      ensures var o := Paging.LoadMoreHistory(old(Snapshot()));
              Snapshot() == o.window && sent == old(sent) + o.sent
      ensures if old(startReached || IsWaiting(UpdatePreviousSlice) || list.messages == []) then sent == old(sent)
              else sent == old(sent) + [Request(UpdatePreviousSlice, list.messages[0].id)]
    {
      if !startReached && !IsWaiting(UpdatePreviousSlice) && list.messages != [] {
        waitingFor := waitingFor[UpdatePreviousSlice := true];
        sent := sent + [Request(UpdatePreviousSlice, list.messages[0].id)];
      }
    }

    /** While a search narrows the list, `canLoadMoreMessages` is false and nothing newer is asked for. */
    method LoadMoreFuture(canLoadMoreMessages: bool)
      requires Valid()
      modifies this
      ensures Valid() && highlightedMessageId == old(highlightedMessageId)
      ensures !canLoadMoreMessages ==> Snapshot() == old(Snapshot()) && sent == old(sent)
      ensures canLoadMoreMessages ==>
                var o := Paging.LoadMoreFuture(old(Snapshot()));
                Snapshot() == o.window && sent == old(sent) + o.sent
      ensures if !canLoadMoreMessages || old(endReached || IsWaiting(UpdateNextSlice) || list.messages == []) then
                sent == old(sent)
              else sent == old(sent) + [Request(UpdateNextSlice, list.messages[|list.messages| - 1].id)]
    {
      if canLoadMoreMessages && !endReached && !IsWaiting(UpdateNextSlice) && list.messages != [] {
        waitingFor := waitingFor[UpdateNextSlice := true];
        sent := sent + [Request(UpdateNextSlice, list.messages[|list.messages| - 1].id)];
      }
    }

    method LoadHistoryForMessage(messageId: int)
      requires Valid()
      modifies this, list
      ensures Valid()
      ensures var o := Paging.LoadHistoryForMessage(old(Snapshot()), messageId);
              Snapshot() == o.window && sent == old(sent) + o.sent
      ensures list.chatId == old(list.chatId)
      ensures (old(list.AlbumsOk()) ==> list.AlbumsOk()) && (old(list.ViewOk()) ==> list.ViewOk())
      ensures if old(IsWaiting(UpdatePreviousSlice) || IsWaiting(UpdateNextSlice) || list.messages == []) then
                list.messages == old(list.messages) && sent == old(sent)
              else
                list.messages == [] && sent == old(sent) + [Request(UpdateInitial, messageId)]
                && highlightedMessageId == messageId
    {
      if !(IsWaiting(UpdatePreviousSlice) || IsWaiting(UpdateNextSlice)) && list.messages != [] {
        Clear();
        highlightedMessageId := messageId;
        sent := sent + [Request(UpdateInitial, messageId)];
      }
    }

    /** The full-end flag set here does not survive the reset that follows. */
    method LoadEnd(markAllAsRead: bool, lastReadOutboxMessageId: int)
      requires Valid()
      modifies this, list
      ensures Valid()
      ensures var o := Paging.LoadEnd(old(Snapshot()), markAllAsRead, lastReadOutboxMessageId);
              Snapshot() == o.window && sent == old(sent) + o.sent
      ensures list.chatId == old(list.chatId)
      ensures (old(list.AlbumsOk()) ==> list.AlbumsOk()) && (old(list.ViewOk()) ==> list.ViewOk())
      ensures if old(IsWaiting(UpdatePreviousSlice) || IsWaiting(UpdateNextSlice) || IsWaiting(UpdateReload)
                     || list.messages == []) then
                list.messages == old(list.messages) && sent == old(sent)
              else
                list.messages == [] && !loadingFullEnd
                && sent == old(sent) + [Request(UpdateInitial, if markAllAsRead then 0 else lastReadOutboxMessageId)]
    {
      if !(IsWaiting(UpdatePreviousSlice) || IsWaiting(UpdateNextSlice)) && !IsWaiting(UpdateReload)
        && list.messages != []
      {
        loadingFullEnd := markAllAsRead;
        Clear();
        sent := sent + [Request(UpdateInitial, if markAllAsRead then 0 else lastReadOutboxMessageId)];
      }
    }

    /** `handlePrepareMessagesReceived` of both classes. */
    method HandlePrepareMessagesReceived(totalCount: int, fromUpdate: UpdateType, lastMessageId: int)
      requires Valid()
      modifies this
      ensures Valid() && Snapshot() == Prepare(old(Snapshot()), fromUpdate, totalCount, lastMessageId)
      ensures endReached <==> old(endReached) || lastMessageId in Ids(list.messages)
                              || (totalCount == 0 && (fromUpdate == UpdateNextSlice || fromUpdate == UpdateInitial))
      ensures startReached <==>
                old(startReached)
                || (totalCount == 0 && (fromUpdate == UpdatePreviousSlice || fromUpdate == UpdateInitial))
      ensures sent == old(sent)
    {
      LookupIsPosition(list.messages, list.messageIndexMap, lastMessageId);
      if lastMessageId in list.messageIndexMap {
        endReached := true;
      }
      if totalCount == 0 {
        if fromUpdate == UpdateNextSlice {
          endReached := true;
        } else if fromUpdate == UpdatePreviousSlice {
          startReached := true;
        } else if fromUpdate == UpdateInitial {
          startReached, endReached := true, true;
        }
      }
    }

    method NotifyMessagesLoaded(totalCount: int, fromUpdate: UpdateType, lastMessageId: int)
      requires Valid()
      modifies this
      ensures Valid() && Snapshot() == NotifyLoaded(old(Snapshot()), fromUpdate, totalCount, lastMessageId)
      ensures sent == old(sent)
    {
      waitingFor := waitingFor[fromUpdate := false];
      HandlePrepareMessagesReceived(totalCount, fromUpdate, lastMessageId);
    }

    method HandleMessagesReceived(fromUpdate: UpdateType, received: seq<Message>, totalCount: int, lastMessageId: int)
      requires Valid() && Distinct(Ids(received)) && NoneSponsored(received)
      modifies this, list
      ensures Valid()
      ensures var added := AddedIds(received, list.chatId, Ids(old(list.messages)));
              var o := MessagesReceived(old(Snapshot()), fromUpdate, |received|, added, totalCount, lastMessageId);
              Snapshot() == o.window && sent == old(sent) + o.sent
      ensures var told := PagingRuns.ToldOn(old(Snapshot()), fromUpdate, |received|,
                                            AddedIds(received, list.chatId, Ids(old(list.messages))));
              && (endReached <==>
                    || old(endReached)
                    || (told && lastMessageId in Ids(list.messages))
                    || (told && totalCount == 0 && (fromUpdate == UpdateNextSlice || fromUpdate == UpdateInitial)))
              && (startReached <==>
                    || old(startReached)
                    || (told && totalCount == 0 && (fromUpdate == UpdatePreviousSlice || fromUpdate == UpdateInitial)))
      ensures OnlyTaken(old(list.messages), received, list.messages)
      ensures list.chatId == old(list.chatId) && (old(list.AlbumsOk()) ==> list.AlbumsOk())
      ensures old(list.ViewOk()) && Albumless(received) ==> list.ViewOk()
    {
      ghost var was, added := Snapshot(), AddedIds(received, list.chatId, Ids(list.messages));
      ProcessReply(fromUpdate, received, totalCount, lastMessageId);
      ReceivedFlags(was, Snapshot(), fromUpdate, |received|, added, totalCount, lastMessageId);
    }

    /** The step itself. */
    method ProcessReply(fromUpdate: UpdateType, received: seq<Message>, totalCount: int, lastMessageId: int)
      requires Valid() && Distinct(Ids(received)) && NoneSponsored(received)
      modifies this, list
      ensures Valid()
      ensures var added := AddedIds(received, list.chatId, Ids(old(list.messages)));
              var o := MessagesReceived(old(Snapshot()), fromUpdate, |received|, added, totalCount, lastMessageId);
              Snapshot() == o.window && sent == old(sent) + o.sent
      ensures OnlyTaken(old(list.messages), received, list.messages)
      ensures list.chatId == old(list.chatId) && (old(list.AlbumsOk()) ==> list.AlbumsOk())
      ensures old(list.ViewOk()) && Albumless(received) ==> list.ViewOk()
    {
      if |received| == 0 {
        NotifyMessagesLoaded(totalCount, fromUpdate, lastMessageId);
      } else if IsWaiting(fromUpdate) || list.messages == [] {
        AcceptMessages(fromUpdate, received, totalCount, lastMessageId);
      }
      waitingFor := waitingFor[fromUpdate := false];
    }

    method AcceptMessages(fromUpdate: UpdateType, received: seq<Message>, totalCount: int, lastMessageId: int)
      requires Valid() && Distinct(Ids(received)) && NoneSponsored(received)
      modifies this, list
      ensures Valid()
      ensures var o := Accept(old(Snapshot()), fromUpdate, |received|,
                              AddedIds(received, list.chatId, Ids(old(list.messages))), totalCount, lastMessageId);
              Snapshot() == o.window && sent == old(sent) + o.sent
      ensures OnlyTaken(old(list.messages), received, list.messages)
      ensures list.chatId == old(list.chatId) && (old(list.AlbumsOk()) ==> list.AlbumsOk())
      ensures old(list.ViewOk()) && Albumless(received) ==> list.ViewOk()
    {
      var reloadNeeded, addedMessages := InsertReceived(received);
      ghost var added := Ids(addedMessages);
      assert addedMessages != [] ==> added[0] == addedMessages[0].id;
      if reloadNeeded && fromUpdate != UpdateReload {
        waitingFor := waitingFor[UpdateReload := true];
        sent := sent + [Request(UpdateReload, addedMessages[0].id)];
      } else {
        NotifyMessagesLoaded(totalCount, fromUpdate, lastMessageId);
      }
    }

    method InsertReceived(received: seq<Message>) returns (reloadNeeded: bool, addedMessages: seq<Message>)
      requires Valid() && Distinct(Ids(received)) && NoneSponsored(received)
      modifies list
      ensures Valid()
      ensures Ids(addedMessages) == AddedIds(received, list.chatId, Ids(old(list.messages)))
      ensures Ids(list.messages)
              == if addedMessages == [] then Ids(old(list.messages))
                 else Insert(Ids(old(list.messages)), Ids(addedMessages))
      ensures reloadNeeded == (addedMessages != [] && |addedMessages| + |received| < 10)
      ensures OnlyTaken(old(list.messages), received, list.messages)
      ensures list.chatId == old(list.chatId) && (old(list.AlbumsOk()) ==> list.AlbumsOk())
      ensures old(list.ViewOk()) && Albumless(received) ==> list.ViewOk()
    {
      ghost var before := list.messages;
      if Albumless(received) { AlbumlessAdded(received, list.chatId, Elements(Ids(before))); }
      AddedFacts(received, list.chatId, Ids(before));
      reloadNeeded, addedMessages := list.HandleInsertMessages(received, true);
      InsertedIds(before, addedMessages, list.messages);
      ReceivedOnly(before, received, list.chatId, Elements(Ids(before)), addedMessages, list.messages);
    }

    method HandleNewMessageReceived(message: Message, canLoadMoreMessages: bool)
      requires Valid() && !message.isSponsored
      modifies this, list
      ensures Valid() && sent == old(sent)
      ensures Snapshot() == if canLoadMoreMessages then NewMessageReceived(old(Snapshot()), message.id)
                            else old(Snapshot())
      ensures if canLoadMoreMessages && old(endReached) && message.id !in Ids(old(list.messages)) then
                Bare(list.messages) == Bare(InsertRows(Readable, old(list.messages), [message.Received()]))
              else list.messages == old(list.messages)
      ensures list.chatId == old(list.chatId) && (old(list.AlbumsOk()) ==> list.AlbumsOk())
      ensures old(list.ViewOk()) && message.albumId == 0 ==> list.ViewOk()
    {
      LookupIsPosition(list.messages, list.messageIndexMap, message.id);
      if message.id !in list.messageIndexMap && canLoadMoreMessages && endReached {
        InsertNewMessage(message);
      }
    }

    method InsertNewMessage(message: Message)
      requires Valid() && !message.isSponsored && message.id !in Ids(list.messages)
      modifies list
      ensures Valid() && Ids(list.messages) == Insert(Ids(old(list.messages)), [message.id])
      ensures Bare(list.messages) == Bare(InsertRows(Readable, old(list.messages), [message.Received()]))
      ensures list.chatId == old(list.chatId) && (old(list.AlbumsOk()) ==> list.AlbumsOk())
      ensures old(list.ViewOk()) && message.albumId == 0 ==> list.ViewOk()
    {
      ghost var rows, table := list.messages, list.albumMessageMap;
      var data := [message.Received()];
      OneNewRow(rows, data[0]);
      list.InsertMessages(data);
      PendingIfExact(rows, data, list.messages, table);
      InsertedRows(Readable, rows, data, list.messages);
      list.SetMessagesAlbum(data);
      InsertedIds(rows, data, list.messages);
    }
  }

  lemma {:induction false} ReceivedFlags(w: Window, w': Window, kind: UpdateType, count: nat, added: seq<int>,
        totalCount: int, lastId: int)
    requires count == 0 ==> added == []
    requires w' == MessagesReceived(w, kind, count, added, totalCount, lastId).window
    ensures var told := PagingRuns.ToldOn(w, kind, count, added);
            && (w'.endReached <==>
                  || w.endReached
                  || (told && lastId in w'.rows)
                  || (told && totalCount == 0 && (kind == UpdateNextSlice || kind == UpdateInitial)))
            && (w'.startReached <==>
                  || w.startReached
                  || (told && totalCount == 0 && (kind == UpdatePreviousSlice || kind == UpdateInitial)))
  {
    PagingRuns.ReceivedEffect(w, kind, count, added, totalCount, lastId);
  }

  /** The ids a received batch adds, in list order. */
  function AddedIds(received: seq<Message>, chatId: int, known: seq<int>): seq<int>
  {
    Ids(Arranged(false, NewOnes(received, chatId, Elements(known))))
  }

  /** They are the ascending list of what is new: for a slice of the chat, the step function's `added`. */
  lemma {:induction false} AddedFacts(received: seq<Message>, chatId: int, known: seq<int>)
    requires Distinct(Ids(received)) && NoneSponsored(received)
    ensures var added := Arranged(false, NewOnes(received, chatId, Elements(known)));
            Ascending(Ids(added)) && NoneSponsored(added)
    ensures forall m :: m in received && m.id != 0 && m.chatId == chatId && m.id !in known ==>
              m.id in AddedIds(received, chatId, known)
    ensures forall id :: id in AddedIds(received, chatId, known) ==> id in Ids(received) && id !in known
  {
    var fresh' := NewOnes(received, chatId, Elements(known));
    var added := Arranged(false, fresh');
    NewOnesDistinct(received, chatId, Elements(known));
    ArrangedFacts(false, fresh');
    NewOnesUnsponsored(received, chatId, Elements(known));
    forall k | 0 <= k < |added| ensures !added[k].isSponsored {
      assert added[k] in added;
    }
    OrderedIds(false, added);
    forall m | m in received && m.id != 0 && m.chatId == chatId && m.id !in known
      ensures m.id in Ids(added)
    {
      NewOnesMember(received, chatId, Elements(known), m);
      assert m.Received() in added;
      var k :| 0 <= k < |added| && added[k] == m.Received();
      assert Ids(added)[k] == m.id;
    }
    forall id | id in Ids(added) ensures id in Ids(received) && id !in known {
      var k :| 0 <= k < |added| && Ids(added)[k] == id;
      assert added[k] in added;
      NewOnesMember(received, chatId, Elements(known), added[k]);
    }
  }

  lemma {:induction false} NewOnesUnsponsored(received: seq<Message>, chatId: int, known: set<int>)
    requires NoneSponsored(received)
    ensures forall m :: m in NewOnes(received, chatId, known) ==> !m.isSponsored
  {
    if received == [] {
    } else {
      NewOnesUnsponsored(received[1..], chatId, known);
    }
  }

  /** What is added of an albumless batch is albumless and unmarked. */
  lemma {:induction false} AlbumlessAdded(received: seq<Message>, chatId: int, known: set<int>)
    requires Distinct(Ids(received)) && Albumless(received)
    ensures NoAlbums(Arranged(false, NewOnes(received, chatId, known)))
  {
    var added := Arranged(false, NewOnes(received, chatId, known));
    NewOnesDistinct(received, chatId, known);
    ArrangedFacts(false, NewOnes(received, chatId, known));
    forall k | 0 <= k < |added| ensures added[k].albumId == 0 && added[k].Unmarked() {
      assert added[k] in added;
      NewOnesMember(received, chatId, known, added[k]);
    }
  }

  lemma {:induction false} BareSponsored(rows: seq<Message>, rows': seq<Message>)
    requires Bare(rows) == Bare(rows') && NoneSponsored(rows)
    ensures NoneSponsored(rows') && Ids(rows) == Ids(rows')
  {
    forall k | 0 <= k < |rows| ensures rows[k].isSponsored == rows'[k].isSponsored && rows[k].id == rows'[k].id {
      assert Bare(rows)[k] == Bare(rows')[k];
    }
  }

  lemma {:induction false} NothingTaken(before: seq<Message>, received: seq<Message>)
    ensures OnlyTaken(before, received, before)
  {
  }

  lemma {:induction false} ReceivedOnly(before: seq<Message>, received: seq<Message>, chatId: int, known: set<int>,
        added: seq<Message>, after: seq<Message>)
    requires Distinct(Ids(received)) && added == Arranged(false, NewOnes(received, chatId, known))
    requires added == [] ==> after == before
    requires added != [] ==> Bare(after) == Bare(InsertRows(Readable, before, added))
    ensures OnlyTaken(before, received, after)
  {
    if added == [] {
      NothingTaken(before, received);
    } else {
      NewOnesDistinct(received, chatId, known);
      ArrangedFacts(false, NewOnes(received, chatId, known));
      var rows := InsertRows(Readable, before, added);
      forall k | 0 <= k < |after| ensures Bare(after)[k] in Bare(before) || Bare(after)[k] in Bare(received) {
        assert Bare(after)[k] == Bare(rows)[k];
        if rows[k] in before {
          BareMember(before, rows[k]);
        } else {
          NewOnesMember(received, chatId, known, rows[k]);
          var m :| m in received && Wanted(m, chatId, known) && rows[k] == m.Received();
          BareMember(received, m);
        }
      }
    }
  }

  lemma {:induction false} BareMember(rows: seq<Message>, m: Message)
    requires m in rows
    ensures m.Received() in Bare(rows)
  {
    var k :| 0 <= k < |rows| && rows[k] == m;
    assert Bare(rows)[k] == m.Received();
  }

  /** On lists without sponsored rows the insertion is the one on ids. */
  lemma {:induction false} InsertedIds(before: seq<Message>, added: seq<Message>, after: seq<Message>)
    requires NoneSponsored(before) && NoneSponsored(added)
    requires added == [] ==> after == before
    requires added != [] ==> Bare(after) == Bare(InsertRows(Readable, before, added))
    ensures NoneSponsored(after)
    ensures Ids(after) == if added == [] then Ids(before) else Insert(Ids(before), Ids(added))
  {
    if added != [] {
      IdsConcat(before, added);
      IdsConcat(added, before);
      BareSponsored(InsertRows(Readable, before, added), after);
    }
  }

  lemma {:induction false} PendingIfExact(rows: seq<Message>, added: seq<Message>, rows': seq<Message>,
        table: map<int, seq<int>>)
    requires added != [] && rows' == InsertRows(Readable, rows, added) && Distinct(Ids(rows + added))
    requires forall k :: 0 <= k < |added| ==> added[k].Unmarked()
    ensures AlbumsExact(rows, table) ==> AlbumsExceptFor(rows', table, IdSet(added))
  {
    if AlbumsExact(rows, table) {
      InsertedPending(Readable, rows, added, rows', table);
    }
  }

  lemma {:induction false} OneNewRow(rows: seq<Message>, data: Message)
    requires Distinct(Ids(rows)) && data.id !in Ids(rows)
    ensures Distinct(Ids(rows + [data])) && Ids([data]) == [data.id]
  {
    DistinctConcat(rows, [data]);
  }

  /** A reply that carries exactly a stretch of the chat's history adds exactly what the runs take it to add. */
  lemma {:induction false} SliceReply(received: seq<Message>, chatId: int, history: set<int>, lo: int, hi: int,
        rows: seq<int>)
    requires Distinct(Ids(received)) && NoneSponsored(received)
    requires forall k :: 0 <= k < |received| ==> received[k].chatId == chatId && received[k].id != 0
    requires forall id :: id in Ids(received) <==> id in PagingRuns.Slice(history, lo, hi)
    ensures AddedIds(received, chatId, rows) == PagingRuns.Slice(history - Elements(rows), lo, hi)
  {
    var added, rest := AddedIds(received, chatId, rows), PagingRuns.Slice(history - Elements(rows), lo, hi);
    AddedFacts(received, chatId, rows);
    PagingRuns.SliceFacts(history, lo, hi);
    PagingRuns.SliceFacts(history - Elements(rows), lo, hi);
    forall id ensures id in added <==> id in rest {
      if id in rest {
        assert id in Ids(received);
        var k :| 0 <= k < |received| && Ids(received)[k] == id;
        assert received[k] in received;
      }
    }
    AscendingUnique(added, rest);
  }
}
